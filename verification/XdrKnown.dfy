/** Values whose encodings are known byte for byte, built up piece by piece. */
module XdrKnown {
  import opened Endian
  import opened UnionGen
  import opened Wrappers
  import opened Xdr
  import opened XdrLaws

  /** `v` is a value of type `ty`, within its bounds, marshaled as `s`, and at most `d` deep. */
  ghost predicate Is(env: Env, ty: Ty, v: Val, s: seq<byte>, d: nat) {
    Typed(env, ty, v) && Within(env, true, ty, v) && Enc(env, ty, v) == s && Depth(v) <= d
  }

  ghost predicate AreAll(env: Env, tys: seq<Ty>, vs: seq<Val>, s: seq<byte>, d: nat) {
    AllTyped(env, tys, vs) && AllWithin(env, true, tys, vs) && EncAll(env, tys, vs) == s && MaxDepth(vs) <= d
  }

  lemma IsWord(env: Env, num: Num, w: u32, d: nat)
    ensures Is(env, TWord(num), VWord(w), BigEndian(w), d)
  {
  }

  lemma IsHyper(env: Env, num: Num, h: u64, d: nat)
    ensures Is(env, THyper(num), VHyper(h), BigEndian64(h), d)
  {
  }

  lemma IsBytes(env: Env, max: nat, b: seq<byte>, d: nat)
    requires |b| <= max < WORD
    ensures Is(env, TBytes(max), VBytes(b), BigEndian(|b|) + Padded(b), d)
  {
  }

  lemma IsNothing(env: Env, d: nat)
    ensures Is(env, TOpaque(0), VBytes([]), [], d) && AreAll(env, [], [], [], d)
  {
    assert Padded([]) == [];
  }

  lemma AreCons(env: Env, ty: Ty, v: Val, s: seq<byte>, tys: seq<Ty>, vs: seq<Val>, t: seq<byte>, d: nat)
    requires Is(env, ty, v, s, d) && AreAll(env, tys, vs, t, d)
    ensures AreAll(env, [ty] + tys, [v] + vs, s + t, d)
  {
    hide Typed, Within, Enc, Depth;
    assert ([ty] + tys)[1..] == tys && ([v] + vs)[1..] == vs;
    AllCons(env, [ty] + tys, v, vs);
  }

  lemma AreOne(env: Env, ty: Ty, v: Val, s: seq<byte>, d: nat)
    requires Is(env, ty, v, s, d)
    ensures AreAll(env, [ty], [v], s, d)
  {
    hide Is, AreAll;
    IsNothing(env, d);
    AreCons(env, ty, v, s, [], [], [], d);
    assert [ty] + [] == [ty] && [v] + [] == [v] && s + [] == s;
  }

  lemma AreTwo(env: Env, a: Ty, v: Val, s: seq<byte>, b: Ty, w: Val, t: seq<byte>, d: nat)
    requires Is(env, a, v, s, d) && Is(env, b, w, t, d)
    ensures AreAll(env, [a, b], [v, w], s + t, d)
  {
    hide Is, AreAll;
    AreOne(env, b, w, t, d);
    AreCons(env, a, v, s, [b], [w], t, d);
    assert [a] + [b] == [a, b] && [v] + [w] == [v, w];
  }

  lemma IsStruct(env: Env, fields: seq<Ty>, vs: seq<Val>, s: seq<byte>, d: nat)
    requires AreAll(env, fields, vs, s, d)
    ensures Is(env, TStruct(fields), VSeq(vs), s, d + 1)
  {
    assert Typed(env, TStruct(fields), VSeq(vs));
    hide AllTyped, AllWithin, EncAll, MaxDepth;
    Opened(env, TStruct(fields), VSeq(vs));
    assert [] + s == s;
  }

  lemma IsUnion(env: Env, arms: seq<Spec<Ty>>, tag: u32, tys: seq<Ty>, body: seq<Val>, s: seq<byte>, d: nat)
    requires Select(arms, SignedOf(tag)).Some? && tys == ChildTys(TUnion(TagInt, arms), tag)
    requires AreAll(env, tys, body, s, d)
    ensures Is(env, TUnion(TagInt, arms), VUnion(tag, body), BigEndian(tag) + s, d + 1)
  {
    hide AllTyped, AllWithin, EncAll, MaxDepth, ChildTys, Select, Endian.BigEndian;
    Opened(env, TUnion(TagInt, arms), VUnion(tag, body));
  }
}
