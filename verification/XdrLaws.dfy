/** The laws of the XDR format: round trips, prefix-freedom, exact conditions for decoding, canonical
    encodings, and sizes. */
module XdrLaws {
  import opened Endian
  import opened Wrappers
  import opened UnionGen
  import opened Xdr

  // ---- words and bytes -------------------------------------------------------

  lemma WordRound(w: u32, s: seq<byte>)
    ensures GetWord(BigEndian(w) + s) == Done(w, s)
  {
    hide Endian.BigEndian, FromBigEndian;
    WordOfBytes(w);
    assert (BigEndian(w) + s)[..4] == BigEndian(w);
    assert (BigEndian(w) + s)[4..] == s;
  }

  lemma WordSound(s: seq<byte>)
    requires GetWord(s).Done?
    ensures s == BigEndian(GetWord(s).value) + GetWord(s).rest
  {
    hide Endian.BigEndian, FromBigEndian;
    BytesOfWord(s[..4]);
    assert s == s[..4] + s[4..];
  }

  lemma WordInjective(v: u32, w: u32, s: seq<byte>, t: seq<byte>)
    requires BigEndian(v) + s == BigEndian(w) + t
    ensures v == w && s == t
  {
    hide Endian.BigEndian, FromBigEndian;
    WordOfBytes(v);
    WordOfBytes(w);
    assert BigEndian(v) == (BigEndian(v) + s)[..4] == (BigEndian(w) + t)[..4] == BigEndian(w);
    assert s == (BigEndian(v) + s)[4..] == (BigEndian(w) + t)[4..] == t;
  }

  lemma HyperRound(h: u64, s: seq<byte>)
    ensures GetHyper(BigEndian64(h) + s) == Done(h, s)
  {
    hide Endian.BigEndian, FromBigEndian;
    var b := BigEndian64(h) + s;
    WordOfBytes(h / WORD);
    WordOfBytes(h % WORD);
    assert b[..4] == BigEndian(h / WORD);
    assert b[4..8] == BigEndian(h % WORD);
    assert b[8..] == s;
  }

  lemma HyperSound(s: seq<byte>)
    requires GetHyper(s).Done?
    ensures s == BigEndian64(GetHyper(s).value) + GetHyper(s).rest
  {
    hide Endian.BigEndian, FromBigEndian;
    BytesOfWord(s[..4]);
    BytesOfWord(s[4..8]);
    assert s == s[..4] + s[4..8] + s[8..];
  }

  lemma HyperInjective(v: u64, w: u64, s: seq<byte>, t: seq<byte>)
    requires BigEndian64(v) + s == BigEndian64(w) + t
    ensures v == w && s == t
  {
    hide Endian.BigEndian, FromBigEndian;
    var vh, vl: u32 := v / WORD, v % WORD;
    var wh, wl: u32 := w / WORD, w % WORD;
    assert BigEndian64(v) + s == BigEndian(vh) + (BigEndian(vl) + s);
    assert BigEndian64(w) + t == BigEndian(wh) + (BigEndian(wl) + t);
    WordInjective(vh, wh, BigEndian(vl) + s, BigEndian(wl) + t);
    WordInjective(vl, wl, s, t);
  }

  lemma BytesRound(b: seq<byte>, s: seq<byte>)
    ensures GetBytes(Padded(b) + s, |b|) == Done(b, s)
  {
    var m := |b| + Pad(|b|);
    assert (Padded(b) + s)[..|b|] == b;
    assert (Padded(b) + s)[m..] == s;
  }

  lemma BytesSound(s: seq<byte>, n: nat)
    requires GetBytes(s, n).Done?
    ensures |GetBytes(s, n).value| == n && s == Padded(GetBytes(s, n).value) + GetBytes(s, n).rest
  {
    var m := n + Pad(n);
    assert Zeros(Pad(n)) == s[n..m];
    assert s == s[..n] + s[n..m] + s[m..];
  }

  lemma BytesInjective(a: seq<byte>, b: seq<byte>, s: seq<byte>, t: seq<byte>)
    requires |a| == |b| && Padded(a) + s == Padded(b) + t
    ensures a == b && s == t
  {
    var m := |a| + Pad(|a|);
    assert a == (Padded(a) + s)[..|a|] == (Padded(b) + t)[..|a|] == b;
    assert s == (Padded(a) + s)[m..] == (Padded(b) + t)[m..] == t;
  }

  // ---- decoding what was encoded ---------------------------------------------

  lemma LeafRound(strict: bool, t: Ty, v: Val, suffix: seq<byte>)
    requires LeafTyped(t, v)
    ensures var d := DecLeaf(strict, t, EncLeaf(t, v) + suffix);
      if LeafWithin(true, t, v) then d == Done(v, suffix) else d.Failed?
  {
    hide Endian.BigEndian, GetWord, GetHyper, GetBytes, Padded, BigEndian64;
    match t
    case TWord(_) => WordRound(v.w, suffix);
    case THyper(_) => HyperRound(v.h, suffix);
    case TBool => WordRound(if v.b then 1 else 0, suffix);
    case TOpaque(_) => BytesRound(v.s, suffix);
    case TBytes(_) =>
      assert EncLeaf(t, v) + suffix == BigEndian(|v.s|) + (Padded(v.s) + suffix);
      WordRound(|v.s|, Padded(v.s) + suffix);
      BytesRound(v.s, suffix);
  }

  lemma LeadRound(strict: bool, t: Ty, v: Val, suffix: seq<byte>)
    requires !Leaf(t) && ShapeTyped(t, v) && (t.TStruct? ==> |Kids(v)| == |t.fields|)
    ensures var d := DecLead(strict, t, EncLead(t, LeadOf(v)) + suffix);
      if LeadWithin(true, t, LeadOf(v)) then d == Done(LeadOf(v), suffix) else d.Failed?
    ensures Build(t, LeadOf(v), Kids(v)) == v
  {
    hide Endian.BigEndian, GetWord, Select;
    if Leads(t) {
      WordRound(LeadOf(v), suffix);
    } else {
      assert [] + suffix == suffix;
    }
  }

  lemma {:induction false} WithinWeaken(env: Env, ty: Ty, v: Val)
    requires Typed(env, ty, v) && Within(env, true, ty, v)
    ensures Within(env, false, ty, v)
    decreases v
  {
    if !Leaf(Resolve(env, ty)) {
      Opened(env, ty, v);
      KidsSmaller(v);
      AllWithinWeaken(env, ChildTys(Resolve(env, ty), LeadOf(v)), Kids(v));
    }
  }

  lemma {:induction false} AllWithinWeaken(env: Env, tys: seq<Ty>, vs: seq<Val>)
    requires AllTyped(env, tys, vs) && AllWithin(env, true, tys, vs)
    ensures AllWithin(env, false, tys, vs)
    decreases vs
  {
    hide Typed, Within;
    if vs != [] {
      WithinWeaken(env, tys[0], vs[0]);
      AllWithinWeaken(env, tys[1..], vs[1..]);
    }
  }

  /** One step down into a container or class. */
  lemma Opened(env: Env, ty: Ty, v: Val)
    requires Typed(env, ty, v) && !Leaf(Resolve(env, ty))
    ensures var t, lead := Resolve(env, ty), LeadOf(v);
      && ShapeTyped(t, v) && (v.VSeq? || v.VUnion?) && (Leads(t) ==> lead < WORD)
      && (t.TStruct? ==> |Kids(v)| == |t.fields|)
      && AllTyped(env, ChildTys(t, lead), Kids(v))
      && Enc(env, ty, v) == EncLead(t, lead) + EncAll(env, ChildTys(t, lead), Kids(v))
      && Depth(v) == 1 + MaxDepth(Kids(v))
      && forall b :: Within(env, b, ty, v) <==> LeadWithin(b, t, lead) && AllWithin(env, b, ChildTys(t, lead), Kids(v))
  {
  }

  lemma {:induction false} AllTypedAt(env: Env, tys: seq<Ty>, vs: seq<Val>, i: nat)
    requires AllTyped(env, tys, vs) && i < |vs|
    ensures i < |tys| && Typed(env, tys[i], vs[i])
    decreases vs
  {
    if i > 0 {
      AllTypedAt(env, tys[1..], vs[1..], i - 1);
    }
  }

  lemma KidsSmaller(v: Val)
    requires v.VSeq? || v.VUnion?
    ensures v decreases to Kids(v)
  {
  }

  /** A container or class is decoded iff its lead and its children are. */
  lemma DecNode(env: Env, strict: bool, ty: Ty, s: seq<byte>, limit: nat)
    requires !Leaf(Resolve(env, ty))
    ensures var t, d := Resolve(env, ty), DecLead(strict, Resolve(env, ty), s);
      if limit > 0 && d.Done? && DecAll(env, strict, ChildTys(t, d.value), d.rest, limit - 1).Done? then
        var ds := DecAll(env, strict, ChildTys(t, d.value), d.rest, limit - 1);
        Dec(env, strict, ty, s, limit) == Done(Build(t, d.value, ds.value), ds.rest)
      else Dec(env, strict, ty, s, limit).Failed?
  {
  }

  lemma DecCons(env: Env, strict: bool, tys: seq<Ty>, s: seq<byte>, limit: nat)
    requires tys != []
    ensures var d := Dec(env, strict, tys[0], s, limit);
      if d.Done? && DecAll(env, strict, tys[1..], d.rest, limit).Done? then
        var ds := DecAll(env, strict, tys[1..], d.rest, limit);
        DecAll(env, strict, tys, s, limit) == Done([d.value] + ds.value, ds.rest)
      else DecAll(env, strict, tys, s, limit).Failed?
  {
  }

  lemma DecEncLeaf(env: Env, strict: bool, ty: Ty, v: Val, suffix: seq<byte>, limit: nat)
    requires Typed(env, ty, v) && Leaf(Resolve(env, ty))
    ensures Depth(v) == 0
    ensures var d := Dec(env, strict, ty, Enc(env, ty, v) + suffix, limit);
      if Within(env, true, ty, v) then d == Done(v, suffix) else d.Failed?
  {
    hide DecLeaf, EncLeaf, LeafWithin;
    LeafRound(strict, Resolve(env, ty), v, suffix);
  }

  /** Decoding the encoding of a value, followed by anything, succeeds exactly if the value is within its
      declared bounds, its unions have arms, and it is no deeper than the limit. It then gives back the
      value and leaves what followed. */
  lemma {:induction false} DecEnc(env: Env, strict: bool, ty: Ty, v: Val, suffix: seq<byte>, limit: nat)
    requires Typed(env, ty, v)
    ensures var d := Dec(env, strict, ty, Enc(env, ty, v) + suffix, limit);
      if Within(env, true, ty, v) && Depth(v) <= limit then d == Done(v, suffix) else d.Failed?
    decreases v
  {
    hide Dec, DecAll, Enc, EncAll, Typed, AllTyped, Within, AllWithin, Depth, MaxDepth;
    hide ChildTys, DecLead, EncLead, LeadWithin, ShapeTyped, Build, Resolve, Leaf, Leads;
    var t := Resolve(env, ty);
    if Leaf(t) {
      DecEncLeaf(env, strict, ty, v, suffix, limit);
    } else {
      Opened(env, ty, v);
      var lead, tys := LeadOf(v), ChildTys(t, LeadOf(v));
      var all := EncAll(env, tys, Kids(v));
      assert Enc(env, ty, v) + suffix == EncLead(t, lead) + (all + suffix);
      LeadRound(strict, t, v, all + suffix);
      DecNode(env, strict, ty, Enc(env, ty, v) + suffix, limit);
      if limit > 0 {
        KidsSmaller(v);
        DecEncAll(env, strict, tys, Kids(v), suffix, limit - 1);
      }
    }
  }

  lemma {:induction false} DecEncAll(env: Env, strict: bool, tys: seq<Ty>, vs: seq<Val>, suffix: seq<byte>, limit: nat)
    requires AllTyped(env, tys, vs)
    ensures var d := DecAll(env, strict, tys, EncAll(env, tys, vs) + suffix, limit);
      if AllWithin(env, true, tys, vs) && MaxDepth(vs) <= limit then d == Done(vs, suffix) else d.Failed?
    decreases vs
  {
    hide Dec, DecAll, Enc, EncAll, Typed, AllTyped, Within, AllWithin, Depth, MaxDepth;
    if vs == [] {
      AllLength(env, tys, vs);
      AllNil(env, strict, suffix, limit);
      assert [] + suffix == suffix;
    } else {
      AllUncons(env, tys, vs);
      var first, more := Enc(env, tys[0], vs[0]), EncAll(env, tys[1..], vs[1..]);
      assert EncAll(env, tys, vs) + suffix == first + (more + suffix);
      DecEnc(env, strict, tys[0], vs[0], more + suffix, limit);
      DecEncAll(env, strict, tys[1..], vs[1..], suffix, limit);
      DecCons(env, strict, tys, first + (more + suffix), limit);
      assert [vs[0]] + vs[1..] == vs;
    }
  }

  lemma AllLength(env: Env, tys: seq<Ty>, vs: seq<Val>)
    requires AllTyped(env, tys, vs)
    ensures |tys| == |vs|
  {
  }

  lemma AllNil(env: Env, strict: bool, s: seq<byte>, limit: nat)
    ensures DecAll(env, strict, [], s, limit) == Done([], s)
    ensures AllTyped(env, [], []) && EncAll(env, [], []) == [] && MaxDepth([]) == 0
    ensures forall b :: AllWithin(env, b, [], [])
  {
  }

  lemma AllUncons(env: Env, tys: seq<Ty>, vs: seq<Val>)
    requires AllTyped(env, tys, vs) && vs != []
    ensures tys != [] && Typed(env, tys[0], vs[0]) && AllTyped(env, tys[1..], vs[1..])
    ensures EncAll(env, tys, vs) == Enc(env, tys[0], vs[0]) + EncAll(env, tys[1..], vs[1..])
    ensures MaxDepth(vs) == Max(Depth(vs[0]), MaxDepth(vs[1..]))
    ensures forall b ::
      AllWithin(env, b, tys, vs) <==> Within(env, b, tys[0], vs[0]) && AllWithin(env, b, tys[1..], vs[1..])
  {
  }

  // ---- what a successful decode means ----------------------------------------

  lemma LeafSound(strict: bool, t: Ty, s: seq<byte>)
    requires Leaf(t) && DecLeaf(strict, t, s).Done?
    ensures var d := DecLeaf(strict, t, s);
      && LeafTyped(t, d.value) && LeafWithin(true, t, d.value) && Depth(d.value) == 0
      && |s| == |EncLeaf(t, d.value)| + |d.rest|
      && (strict ==> s == EncLeaf(t, d.value) + d.rest)
  {
    hide Endian.BigEndian, Endian.FromBigEndian, Padded, BigEndian64, GetBytes;
    match t
    case TWord(_) => WordSound(s);
    case THyper(_) => HyperSound(s);
    case TBool => WordSound(s);
    case TOpaque(n) => BytesSound(s, n);
    case TBytes(_) =>
      WordSound(s);
      var d := GetWord(s);
      BytesSound(d.rest, d.value);
      var b := GetBytes(d.rest, d.value);
      assert s == BigEndian(d.value) + Padded(b.value) + b.rest;
  }

  lemma LeadSound(strict: bool, t: Ty, s: seq<byte>)
    requires !Leaf(t) && DecLead(strict, t, s).Done?
    ensures var d := DecLead(strict, t, s);
      && (Leads(t) ==> d.value < WORD)
      && LeadWithin(true, t, d.value)
      && (t.TArray? ==> d.value == t.n) && (t.TStruct? ==> d.value == |t.fields|) && (t.TPointer? ==> d.value <= 1)
      && (t.TUnion? && t.kind == TagBool ==> d.value <= 1)
      && |s| == |EncLead(t, d.value)| + |d.rest|
      && (strict ==> s == EncLead(t, d.value) + d.rest)
  {
    hide Endian.BigEndian, Endian.FromBigEndian, Select;
    if Leads(t) {
      WordSound(s);
    } else {
      assert s == [] + s;
    }
  }

  lemma BuildTyped(env: Env, ty: Ty, lead: nat, vs: seq<Val>)
    requires var t := Resolve(env, ty);
      && !Leaf(t) && AllTyped(env, ChildTys(t, lead), vs)
      && LeadWithin(true, t, lead) && AllWithin(env, true, ChildTys(t, lead), vs)
      && (Leads(t) ==> lead < WORD)
      && (t.TArray? ==> lead == t.n) && (t.TStruct? ==> lead == |t.fields|) && (t.TPointer? ==> lead <= 1)
      && (t.TUnion? && t.kind == TagBool ==> lead <= 1)
    ensures var t, v := Resolve(env, ty), Build(Resolve(env, ty), lead, vs);
      && Typed(env, ty, v) && Within(env, true, ty, v) && Depth(v) == 1 + MaxDepth(vs)
      && Enc(env, ty, v) == EncLead(t, lead) + EncAll(env, ChildTys(t, lead), vs)
  {
    var t, v := Resolve(env, ty), Build(Resolve(env, ty), lead, vs);
    AllLength(env, ChildTys(t, lead), vs);
    assert Kids(v) == vs && LeadOf(v) == lead && ShapeTyped(t, v);
    hide ChildTys, AllTyped, AllWithin, EncAll, MaxDepth, EncLead;
  }

  /** A decoded value is well typed, within its bounds and no deeper than the limit; the bytes taken
      are as many as its encoding has, and are its encoding if bools were canonical. */
  lemma {:induction false} DecSound(env: Env, strict: bool, ty: Ty, s: seq<byte>, limit: nat)
    requires Dec(env, strict, ty, s, limit).Done?
    ensures var d := Dec(env, strict, ty, s, limit);
      && Typed(env, ty, d.value) && Within(env, true, ty, d.value) && Depth(d.value) <= limit
      && |s| == |Enc(env, ty, d.value)| + |d.rest|
      && (strict ==> s == Enc(env, ty, d.value) + d.rest)
    decreases limit, 0, 0
  {
    hide Dec, DecAll, Enc, EncAll, Typed, AllTyped, Within, AllWithin, Depth, MaxDepth;
    hide ChildTys, DecLead, EncLead, LeadWithin, Build, Resolve, Leaf, Leads, Select;
    var t := Resolve(env, ty);
    if Leaf(t) {
      DecSoundLeaf(env, strict, ty, s, limit);
    } else {
      DecNode(env, strict, ty, s, limit);
      LeadSound(strict, t, s);
      var lead := DecLead(strict, t, s);
      var tys := ChildTys(t, lead.value);
      DecAllSound(env, strict, tys, lead.rest, limit - 1);
      var kids := DecAll(env, strict, tys, lead.rest, limit - 1);
      var v := Build(t, lead.value, kids.value);
      BuildTyped(env, ty, lead.value, kids.value);
      if strict {
        assert s == EncLead(t, lead.value) + (EncAll(env, tys, kids.value) + kids.rest);
        assert s == Enc(env, ty, v) + kids.rest;
      }
    }
  }

  lemma DecSoundLeaf(env: Env, strict: bool, ty: Ty, s: seq<byte>, limit: nat)
    requires Dec(env, strict, ty, s, limit).Done? && Leaf(Resolve(env, ty))
    ensures var d := Dec(env, strict, ty, s, limit);
      && Typed(env, ty, d.value) && Within(env, true, ty, d.value) && Depth(d.value) == 0
      && |s| == |Enc(env, ty, d.value)| + |d.rest|
      && (strict ==> s == Enc(env, ty, d.value) + d.rest)
  {
    hide DecLeaf, EncLeaf, LeafWithin, LeafTyped;
    LeafSound(strict, Resolve(env, ty), s);
  }

  lemma {:induction false} DecAllSound(env: Env, strict: bool, tys: seq<Ty>, s: seq<byte>, limit: nat)
    requires DecAll(env, strict, tys, s, limit).Done?
    ensures var d := DecAll(env, strict, tys, s, limit);
      && AllTyped(env, tys, d.value) && AllWithin(env, true, tys, d.value) && MaxDepth(d.value) <= limit
      && |s| == |EncAll(env, tys, d.value)| + |d.rest|
      && (strict ==> s == EncAll(env, tys, d.value) + d.rest)
    decreases limit, 1, |tys|
  {
    hide Dec, DecAll, Enc, EncAll, Typed, AllTyped, Within, AllWithin, Depth, MaxDepth;
    if tys == [] {
      AllNil(env, strict, s, limit);
      assert s == [] + s;
    } else {
      DecCons(env, strict, tys, s, limit);
      DecSound(env, strict, tys[0], s, limit);
      var v := Dec(env, strict, tys[0], s, limit);
      DecAllSound(env, strict, tys[1..], v.rest, limit);
      var vs := DecAll(env, strict, tys[1..], v.rest, limit);
      AllCons(env, tys, v.value, vs.value);
      if strict {
        assert s == Enc(env, tys[0], v.value) + (EncAll(env, tys[1..], vs.value) + vs.rest);
      }
    }
  }

  lemma AllCons(env: Env, tys: seq<Ty>, v: Val, vs: seq<Val>)
    requires tys != [] && Typed(env, tys[0], v) && AllTyped(env, tys[1..], vs)
    ensures AllTyped(env, tys, [v] + vs)
    ensures EncAll(env, tys, [v] + vs) == Enc(env, tys[0], v) + EncAll(env, tys[1..], vs)
    ensures MaxDepth([v] + vs) == Max(Depth(v), MaxDepth(vs))
    ensures forall b ::
      AllWithin(env, b, tys, [v] + vs) <==> Within(env, b, tys[0], v) && AllWithin(env, b, tys[1..], vs)
  {
    hide Typed, Enc, Depth, Within;
    assert ([v] + vs)[1..] == vs;
  }

  // ---- the main results ------------------------------------------------------

  lemma CountedInjective(v: seq<byte>, w: seq<byte>, r: seq<byte>, s: seq<byte>)
    requires |v| < WORD && |w| < WORD && (BigEndian(|v|) + Padded(v)) + r == (BigEndian(|w|) + Padded(w)) + s
    ensures v == w && r == s
  {
    hide Endian.BigEndian, Padded;
    assert BigEndian(|v|) + (Padded(v) + r) == (BigEndian(|v|) + Padded(v)) + r;
    assert BigEndian(|w|) + (Padded(w) + s) == (BigEndian(|w|) + Padded(w)) + s;
    WordInjective(|v|, |w|, Padded(v) + r, Padded(w) + s);
    BytesInjective(v, w, r, s);
  }

  lemma LeafInjective(t: Ty, v: Val, w: Val, r: seq<byte>, s: seq<byte>)
    requires LeafTyped(t, v) && LeafTyped(t, w) && EncLeaf(t, v) + r == EncLeaf(t, w) + s
    ensures v == w && r == s
  {
    hide Endian.BigEndian, Padded, BigEndian64;
    match t
    case TWord(_) => WordInjective(v.w, w.w, r, s);
    case THyper(_) => HyperInjective(v.h, w.h, r, s);
    case TBool => WordInjective(if v.b then 1 else 0, if w.b then 1 else 0, r, s);
    case TOpaque(_) => BytesInjective(v.s, w.s, r, s);
    case TBytes(_) =>
      CountedInjective(v.s, w.s, r, s);
  }

  lemma LeadInjective(t: Ty, v: Val, w: Val, r: seq<byte>, s: seq<byte>)
    requires !Leaf(t) && ShapeTyped(t, v) && ShapeTyped(t, w)
    requires t.TStruct? ==> |Kids(v)| == |t.fields| == |Kids(w)|
    requires EncLead(t, LeadOf(v)) + r == EncLead(t, LeadOf(w)) + s
    ensures LeadOf(v) == LeadOf(w) && r == s
    ensures Kids(v) == Kids(w) ==> v == w
  {
    hide Endian.BigEndian;
    if Leads(t) {
      WordInjective(LeadOf(v), LeadOf(w), r, s);
    } else {
      assert [] + r == r && [] + s == s;
    }
  }

  lemma LeafEnc(env: Env, ty: Ty, v: Val)
    requires Typed(env, ty, v) && Leaf(Resolve(env, ty))
    ensures LeafTyped(Resolve(env, ty), v) && Enc(env, ty, v) == EncLeaf(Resolve(env, ty), v)
  {
  }

  /** Encodings are prefix-free: no encoding of a value begins with that of another value of its type,
      whatever the bounds. */
  lemma {:induction false} PrefixFree(env: Env, ty: Ty, v: Val, w: Val, r: seq<byte>, s: seq<byte>)
    requires Typed(env, ty, v) && Typed(env, ty, w) && Enc(env, ty, v) + r == Enc(env, ty, w) + s
    ensures v == w && r == s
    decreases v
  {
    hide Enc, EncAll, Typed, AllTyped, Depth, MaxDepth, Within, AllWithin;
    hide ChildTys, EncLeaf, EncLead, ShapeTyped, LeafTyped, LeadWithin, Resolve, Leaf, Leads;
    var t := Resolve(env, ty);
    if Leaf(t) {
      LeafEnc(env, ty, v);
      LeafEnc(env, ty, w);
      LeafInjective(t, v, w, r, s);
    } else {
      Opened(env, ty, v);
      Opened(env, ty, w);
      var vs, ws := EncAll(env, ChildTys(t, LeadOf(v)), Kids(v)), EncAll(env, ChildTys(t, LeadOf(w)), Kids(w));
      assert Enc(env, ty, v) + r == EncLead(t, LeadOf(v)) + (vs + r);
      assert Enc(env, ty, w) + s == EncLead(t, LeadOf(w)) + (ws + s);
      LeadInjective(t, v, w, vs + r, ws + s);
      KidsSmaller(v);
      AllPrefixFree(env, ChildTys(t, LeadOf(v)), Kids(v), Kids(w), r, s);
    }
  }

  lemma {:induction false} AllPrefixFree(env: Env, tys: seq<Ty>, vs: seq<Val>, ws: seq<Val>, r: seq<byte>, s: seq<byte>)
    requires AllTyped(env, tys, vs) && AllTyped(env, tys, ws) && EncAll(env, tys, vs) + r == EncAll(env, tys, ws) + s
    ensures vs == ws && r == s
    decreases vs
  {
    hide Enc, EncAll, Typed, AllTyped, Depth, MaxDepth, Within, AllWithin;
    AllLength(env, tys, vs);
    AllLength(env, tys, ws);
    if vs == [] {
      AllNil(env, true, [], 0);
      assert [] + r == r && [] + s == s;
    } else {
      AllUncons(env, tys, vs);
      AllUncons(env, tys, ws);
      var v, w := Enc(env, tys[0], vs[0]), Enc(env, tys[0], ws[0]);
      var vr, wr := EncAll(env, tys[1..], vs[1..]) + r, EncAll(env, tys[1..], ws[1..]) + s;
      assert EncAll(env, tys, vs) + r == v + vr && EncAll(env, tys, ws) + s == w + wr;
      PrefixFree(env, tys[0], vs[0], ws[0], vr, wr);
      AllPrefixFree(env, tys[1..], vs[1..], ws[1..], r, s);
      assert vs == [vs[0]] + vs[1..] && ws == [ws[0]] + ws[1..];
    }
  }

  /** The strict decoder takes exactly the encodings of the values within bounds and depth. */
  lemma StrictExact(env: Env, ty: Ty, s: seq<byte>, limit: nat, v: Val, rest: seq<byte>)
    ensures Dec(env, true, ty, s, limit) == Done(v, rest) <==>
      Typed(env, ty, v) && Within(env, true, ty, v) && Depth(v) <= limit && s == Enc(env, ty, v) + rest
  {
    hide Dec, Enc, Typed, Within, Depth;
    if Dec(env, true, ty, s, limit) == Done(v, rest) {
      DecSound(env, true, ty, s, limit);
    }
    if Typed(env, ty, v) && s == Enc(env, ty, v) + rest {
      DecEnc(env, true, ty, v, rest, limit);
    }
  }

  /** The code takes more: what it reads is as long as the encoding of the value it gets, and putting that
      encoding in its place makes the strict decoder agree. */
  lemma CodeVersusStrict(env: Env, ty: Ty, s: seq<byte>, limit: nat)
    ensures var code, strict := Dec(env, false, ty, s, limit), Dec(env, true, ty, s, limit);
      && (strict.Done? ==> code == strict)
      && (code.Done? ==> Typed(env, ty, code.value) && |s| == |Enc(env, ty, code.value)| + |code.rest|)
      && (code.Done? ==> Dec(env, true, ty, Enc(env, ty, code.value) + code.rest, limit) == code)
      && (code.Done? ==> (strict.Done? <==> s == Enc(env, ty, code.value) + code.rest))
  {
    hide Dec, Enc, Typed, Within, Depth;
    var code, strict := Dec(env, false, ty, s, limit), Dec(env, true, ty, s, limit);
    if strict.Done? {
      DecSound(env, true, ty, s, limit);
      DecEnc(env, false, ty, strict.value, strict.rest, limit);
    }
    if code.Done? {
      DecSound(env, false, ty, s, limit);
      DecEnc(env, true, ty, code.value, code.rest, limit);
    }
  }

  /** Every word but 0 is decoded as true, which is encoded as 1, and chooses the same arm of a union as 1 does;
      the strict decoder takes only 0 and 1. */
  lemma LooseBool(env: Env, w: u32, arms: seq<Spec<Ty>>, s: seq<byte>, limit: nat)
    ensures Dec(env, false, TBool, BigEndian(w) + s, limit) == Done(VBool(w != 0), s)
    ensures Enc(env, TBool, VBool(w != 0)) == BigEndian(w) <==> w <= 1
    ensures Dec(env, true, TBool, BigEndian(w) + s, limit)
      == if w <= 1 then Done(VBool(w != 0), s) else Failed(NotCanonical)
    ensures w != 0 ==>
      Dec(env, false, TUnion(TagBool, arms), BigEndian(w) + s, limit)
        == Dec(env, false, TUnion(TagBool, arms), BigEndian(1) + s, limit)
  {
    hide Endian.BigEndian, GetWord, Select, DecAll;
    WordRound(w, s);
    WordRound(1, s);
    if BigEndian(w) == BigEndian(if w != 0 then 1 else 0) {
      WordInjective(w, if w != 0 then 1 else 0, s, s);
    }
  }
}
