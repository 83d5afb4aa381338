/** What each type former means (RFC 4506, section 4): the values of a type, their bounds and their encoding, each
    by the types and values inside it alone. Recursive types and the lists built with them. */
module XdrMeaning {
  import opened Endian
  import opened UnionGen
  import opened Wrappers
  import opened Xdr
  import XdrGet
  import opened XdrLaws
  import opened XdrOrder
  import opened XdrSize

  // ---- names -----------------------------------------------------------------

  /** A name stands for the struct or union that is declared for it, in every operation of the codec. */
  lemma NameMeans(env: Env, n: nat, v: Val, w: Val)
    requires n in env && (env[n].TStruct? || env[n].TUnion?)
    ensures Typed(env, TRef(n), v) <==> Typed(env, env[n], v)
    ensures Typed(env, env[n], v) ==>
      && (forall b :: Within(env, b, TRef(n), v) <==> Within(env, b, env[n], v))
      && Enc(env, TRef(n), v) == Enc(env, env[n], v) && Size(env, TRef(n), v) == Size(env, env[n], v)
    ensures forall strict, s, limit: nat :: Dec(env, strict, TRef(n), s, limit) == Dec(env, strict, env[n], s, limit)
    ensures Less(env, TRef(n), v, w) <==> Less(env, env[n], v, w)
    ensures Equal(env, TRef(n), v, w) <==> Equal(env, env[n], v, w)
  {
    hide AllTyped, AllWithin, EncAll, DecAll, DecLead, EncLead, ChildTys, Select;
    hide LexLess, AllEqual, SumSize, StructSize;
    assert Resolve(env, TRef(n)) == env[n] == Resolve(env, env[n]);
  }

  // ---- numbers, bools and bytes ----------------------------------------------

  lemma WordMeans(env: Env, num: Num, v: Val)
    ensures Typed(env, TWord(num), v) <==> v.VWord?
    ensures v.VWord? ==> Enc(env, TWord(num), v) == BigEndian(v.w) && Within(env, true, TWord(num), v)
  {
  }

  lemma HyperMeans(env: Env, num: Num, v: Val)
    ensures Typed(env, THyper(num), v) <==> v.VHyper?
    ensures v.VHyper? ==>
      && Within(env, true, THyper(num), v)
      && Enc(env, THyper(num), v) == BigEndian(v.h / 0x1_0000_0000) + BigEndian(v.h % 0x1_0000_0000)
  {
  }

  lemma BoolMeans(env: Env, v: Val)
    ensures Typed(env, TBool, v) <==> v.VBool?
    ensures v.VBool? ==> Enc(env, TBool, v) == BigEndian(if v.b then 1 else 0) && Within(env, true, TBool, v)
  {
  }

  /** The bytes, and zeros up to a multiple of four. */
  lemma OpaqueMeans(env: Env, n: nat, v: Val)
    ensures Typed(env, TOpaque(n), v) <==> v.VBytes? && |v.s| == n
    ensures Typed(env, TOpaque(n), v) ==>
      var e := Enc(env, TOpaque(n), v);
      && Within(env, true, TOpaque(n), v)
      && n <= |e| < n + 4 && |e| % 4 == 0 && e[..n] == v.s && forall i | n <= i < |e| :: e[i] == 0
  {
  }

  /** The length, and the bytes as opaque data. */
  lemma BytesMeans(env: Env, max: nat, v: Val)
    ensures Typed(env, TBytes(max), v) <==> v.VBytes? && |v.s| < 0x1_0000_0000
    ensures Typed(env, TBytes(max), v) ==>
      && Within(env, false, TBytes(max), v) && (Within(env, true, TBytes(max), v) <==> |v.s| <= max)
      && Typed(env, TOpaque(|v.s|), v)
      && Enc(env, TBytes(max), v) == BigEndian(|v.s|) + Enc(env, TOpaque(|v.s|), v)
  {
  }

  // ---- containers and classes ------------------------------------------------

  lemma {:induction false} AllMeans(env: Env, tys: seq<Ty>, vs: seq<Val>)
    ensures AllTyped(env, tys, vs) <==> |tys| == |vs| && forall i | 0 <= i < |vs| :: Typed(env, tys[i], vs[i])
    ensures AllTyped(env, tys, vs) ==> forall b ::
      AllWithin(env, b, tys, vs) <==> forall i | 0 <= i < |vs| :: Within(env, b, tys[i], vs[i])
    decreases vs
  {
    hide Typed, Within;
    if vs != [] && tys != [] {
      AllMeans(env, tys[1..], vs[1..]);
      assert forall i | 1 <= i < |vs| :: vs[i] == vs[1..][i - 1];
      assert forall i | 1 <= i < |tys| :: tys[i] == tys[1..][i - 1];
    }
  }

  lemma StructOpen(env: Env, fields: seq<Ty>, v: Val)
    ensures Typed(env, TStruct(fields), v) <==> v.VSeq? && AllTyped(env, fields, v.vs)
    ensures Typed(env, TStruct(fields), v) ==>
      && Enc(env, TStruct(fields), v) == EncAll(env, fields, v.vs)
      && forall b :: Within(env, b, TStruct(fields), v) <==> AllWithin(env, b, fields, v.vs)
  {
    hide AllTyped, AllWithin, EncAll;
    if Typed(env, TStruct(fields), v) {
      assert [] + EncAll(env, fields, v.vs) == EncAll(env, fields, v.vs);
    }
  }

  /** A struct's fields, one after the other. */
  lemma StructMeans(env: Env, fields: seq<Ty>, v: Val)
    ensures Typed(env, TStruct(fields), v) <==>
      v.VSeq? && |v.vs| == |fields| && forall i | 0 <= i < |fields| :: Typed(env, fields[i], v.vs[i])
    ensures Typed(env, TStruct(fields), v) ==>
      && (forall b :: Within(env, b, TStruct(fields), v) <==>
            forall i | 0 <= i < |fields| :: Within(env, b, fields[i], v.vs[i]))
      && if fields == [] then Enc(env, TStruct(fields), v) == []
         else
           && Typed(env, TStruct(fields[1..]), VSeq(v.vs[1..]))
           && Enc(env, TStruct(fields), v)
                == Enc(env, fields[0], v.vs[0]) + Enc(env, TStruct(fields[1..]), VSeq(v.vs[1..]))
  {
    hide Typed, AllTyped, Within, AllWithin, Enc, EncAll, Depth, MaxDepth;
    StructOpen(env, fields, v);
    if v.VSeq? {
      AllMeans(env, fields, v.vs);
    }
    if Typed(env, TStruct(fields), v) {
      if fields == [] {
        AllNil(env, false, [], 0);
      } else {
        AllUncons(env, fields, v.vs);
        StructOpen(env, fields[1..], VSeq(v.vs[1..]));
      }
    }
  }

  lemma ArrayOpen(env: Env, n: nat, elem: Ty, v: Val)
    ensures Typed(env, TArray(n, elem), v) <==> v.VSeq? && |v.vs| == n && AllTyped(env, Rep(elem, n), v.vs)
    ensures Typed(env, TArray(n, elem), v) ==>
      && Enc(env, TArray(n, elem), v) == EncAll(env, Rep(elem, n), v.vs)
      && forall b :: Within(env, b, TArray(n, elem), v) <==> AllWithin(env, b, Rep(elem, n), v.vs)
  {
    hide AllTyped, AllWithin, EncAll;
    if Typed(env, TArray(n, elem), v) {
      assert [] + EncAll(env, Rep(elem, n), v.vs) == EncAll(env, Rep(elem, n), v.vs);
    }
  }

  /** An array's elements, one after the other. */
  lemma ArrayMeans(env: Env, n: nat, elem: Ty, v: Val)
    ensures Typed(env, TArray(n, elem), v) <==>
      v.VSeq? && |v.vs| == n && forall i | 0 <= i < n :: Typed(env, elem, v.vs[i])
    ensures Typed(env, TArray(n, elem), v) ==>
      && (forall b :: Within(env, b, TArray(n, elem), v) <==> forall i | 0 <= i < n :: Within(env, b, elem, v.vs[i]))
      && if n == 0 then Enc(env, TArray(n, elem), v) == []
         else
           && Typed(env, TArray(n - 1, elem), VSeq(v.vs[1..]))
           && Enc(env, TArray(n, elem), v)
                == Enc(env, elem, v.vs[0]) + Enc(env, TArray(n - 1, elem), VSeq(v.vs[1..]))
  {
    hide Typed, AllTyped, Within, AllWithin, Enc, EncAll, Depth, MaxDepth;
    var tys := Rep(elem, n);
    ArrayOpen(env, n, elem, v);
    if v.VSeq? {
      AllMeans(env, tys, v.vs);
    }
    if Typed(env, TArray(n, elem), v) {
      if n == 0 {
        AllNil(env, false, [], 0);
      } else {
        AllUncons(env, tys, v.vs);
        assert tys[1..] == Rep(elem, n - 1);
        ArrayOpen(env, n - 1, elem, VSeq(v.vs[1..]));
      }
    }
  }

  /** The number of elements, and the elements as an array of that size. */
  lemma VectorMeans(env: Env, max: nat, elem: Ty, v: Val)
    ensures Typed(env, TVector(max, elem), v) <==>
      v.VSeq? && |v.vs| < 0x1_0000_0000 && Typed(env, TArray(|v.vs|, elem), v)
    ensures Typed(env, TVector(max, elem), v) ==>
      && (forall b :: Within(env, b, TVector(max, elem), v) <==>
            (b ==> |v.vs| <= max) && Within(env, b, TArray(|v.vs|, elem), v))
      && Enc(env, TVector(max, elem), v) == BigEndian(|v.vs|) + Enc(env, TArray(|v.vs|, elem), v)
  {
    hide AllTyped, AllWithin, EncAll, Endian.BigEndian;
    if Typed(env, TVector(max, elem), v) {
      ArrayOpen(env, |v.vs|, elem, v);
    }
  }

  /** 0, or 1 and what is pointed to. */
  lemma PointerMeans(env: Env, elem: Ty, v: Val)
    ensures Typed(env, TPointer(elem), v) <==>
      v.VSeq? && (v.vs == [] || (|v.vs| == 1 && Typed(env, elem, v.vs[0])))
    ensures Typed(env, TPointer(elem), v) ==>
      if v.vs == [] then
        Enc(env, TPointer(elem), v) == BigEndian(0) && forall b :: Within(env, b, TPointer(elem), v)
      else
        && Enc(env, TPointer(elem), v) == BigEndian(1) + Enc(env, elem, v.vs[0])
        && forall b :: Within(env, b, TPointer(elem), v) <==> Within(env, b, elem, v.vs[0])
  {
    hide Endian.BigEndian;
    if v.VSeq? && |v.vs| <= 1 {
      var tys := Rep(elem, |v.vs|);
      AllMeans(env, tys, v.vs);
      assert Typed(env, TPointer(elem), v) <==> AllTyped(env, tys, v.vs);
      if AllTyped(env, tys, v.vs) {
        Opened(env, TPointer(elem), v);
        hide Typed, AllTyped, Within, AllWithin, Enc, EncAll, Depth, MaxDepth;
        if v.vs == [] {
          AllNil(env, false, [], 0);
          assert BigEndian(0) + [] == BigEndian(0);
        } else {
          AllUncons(env, tys, v.vs);
          AllNil(env, false, [], 0);
          assert Enc(env, elem, v.vs[0]) + [] == Enc(env, elem, v.vs[0]);
        }
      }
    }
  }

  /** The number that a discriminant stands for. */
  ghost predicate StandsFor(kind: TagKind, tag: u32, which: int) {
    if kind == TagInt then -0x8000_0000 <= which < 0x8000_0000 && (which == tag || which == tag - 0x1_0000_0000)
    else which == tag
  }

  /** Arm `i` applies to the number `which`: it is the first with that case or, if there is none, the first
      default. */
  ghost predicate Applies(arms: seq<Spec<Ty>>, which: int, i: nat) {
    || FirstWith(arms, Case(which), i)
    || (FirstWith(arms, Default, i) && forall j | 0 <= j < |arms| :: Case(which) !in arms[j].labels)
  }

  lemma UnionOpen(env: Env, kind: TagKind, arms: seq<Spec<Ty>>, v: Val, which: int, i: nat)
    requires v.VUnion? && StandsFor(kind, v.tag, which) && Applies(arms, which, i)
    ensures var u, tys := TUnion(kind, arms), if arms[i].body == None then [] else [arms[i].body.value];
      && (Typed(env, u, v) <==> (kind == TagBool ==> v.tag <= 1) && AllTyped(env, tys, v.body))
      && (Typed(env, u, v) ==>
            && Enc(env, u, v) == BigEndian(v.tag) + EncAll(env, tys, v.body)
            && forall b :: Within(env, b, u, v) <==> AllWithin(env, b, tys, v.body))
  {
    hide AllTyped, AllWithin, EncAll, Endian.BigEndian;
    SelectMeans(arms, which, i);
    assert Select(arms, which) == Some(i) && TagValue(kind, v.tag) == which;
    assert ChildTys(TUnion(kind, arms), v.tag) == if arms[i].body == None then [] else [arms[i].body.value];
    hide Select, ChildTys;
  }

  /** The discriminant, and the field of the arm that applies to it. */
  lemma UnionMeans(env: Env, kind: TagKind, arms: seq<Spec<Ty>>, v: Val, which: int, i: nat)
    requires v.VUnion? && StandsFor(kind, v.tag, which) && Applies(arms, which, i)
    ensures Typed(env, TUnion(kind, arms), v) <==>
      && (kind == TagBool ==> v.tag <= 1)
      && if arms[i].body == None then v.body == [] else |v.body| == 1 && Typed(env, arms[i].body.value, v.body[0])
    ensures Typed(env, TUnion(kind, arms), v) ==>
      var u := TUnion(kind, arms);
      if arms[i].body == None then Enc(env, u, v) == BigEndian(v.tag) && Within(env, true, u, v)
      else
        && Enc(env, u, v) == BigEndian(v.tag) + Enc(env, arms[i].body.value, v.body[0])
        && forall b :: Within(env, b, u, v) <==> Within(env, b, arms[i].body.value, v.body[0])
  {
    hide Typed, AllTyped, Within, AllWithin, Enc, EncAll, Depth, MaxDepth, Endian.BigEndian;
    var tys := if arms[i].body == None then [] else [arms[i].body.value];
    UnionOpen(env, kind, arms, v, which, i);
    AllMeans(env, tys, v.body);
    AllNil(env, false, [], 0);
    if Typed(env, TUnion(kind, arms), v) {
      if tys == [] {
        assert BigEndian(v.tag) + [] == BigEndian(v.tag);
      } else {
        AllUncons(env, tys, v.body);
        assert Enc(env, tys[0], v.body[0]) + [] == Enc(env, tys[0], v.body[0]);
      }
    }
  }

  /** A discriminant to which no arm applies can be held, with no field, but not marshaled. */
  lemma NoArmMeans(env: Env, kind: TagKind, arms: seq<Spec<Ty>>, v: Val, which: int)
    requires v.VUnion? && StandsFor(kind, v.tag, which)
    requires forall j | 0 <= j < |arms| :: Case(which) !in arms[j].labels && Default !in arms[j].labels
    ensures Typed(env, TUnion(kind, arms), v) <==> v.body == [] && (kind == TagBool ==> v.tag <= 1)
    ensures Typed(env, TUnion(kind, arms), v) ==> forall b :: !Within(env, b, TUnion(kind, arms), v)
  {
    SelectMeans(arms, which, 0);
    assert Select(arms, which) == None && TagValue(kind, v.tag) == which;
    assert ChildTys(TUnion(kind, arms), v.tag) == [];
    hide Select, ChildTys;
    AllMeans(env, [], v.body);
    if Typed(env, TUnion(kind, arms), v) {
      Opened(env, TUnion(kind, arms), v);
    }
  }

  lemma {:induction false} MaxDepthMeans(vs: seq<Val>)
    ensures forall v | v in vs :: Depth(v) <= MaxDepth(vs)
    ensures MaxDepth(vs) == 0 || exists v :: v in vs && Depth(v) == MaxDepth(vs)
    decreases vs
  {
    hide Depth;
    if vs != [] {
      MaxDepthMeans(vs[1..]);
      assert vs == [vs[0]] + vs[1..];
      assert vs[0] in vs && forall v | v in vs[1..] :: v in vs;
    }
  }

  /** Containers and classes are one level deeper than the deepest thing inside; all else is no level deep. */
  lemma DepthMeans(v: Val)
    ensures !v.VSeq? && !v.VUnion? ==> Depth(v) == 0
    ensures v.VSeq? || v.VUnion? ==>
      var vs := if v.VSeq? then v.vs else v.body;
      && (forall w | w in vs :: Depth(w) < Depth(v))
      && (Depth(v) == 1 || exists w :: w in vs && Depth(v) == Depth(w) + 1)
  {
    if v.VSeq? {
      MaxDepthMeans(v.vs);
    } else if v.VUnion? {
      MaxDepthMeans(v.body);
    }
  }

  // ---- lists -----------------------------------------------------------------

  /** `n` is declared as struct { elem x; n *next; }. */
  ghost predicate ListType(env: Env, n: nat, elem: Ty) {
    n in env && env[n] == TStruct([elem, TPointer(TRef(n))])
  }

  /** The pointer to the first of a list of any length. */
  function Chain(xs: seq<Val>): Val {
    VSeq(if xs == [] then [] else [VSeq([xs[0], Chain(xs[1..])])])
  }

  ghost predicate Elements(env: Env, elem: Ty, xs: seq<Val>) {
    forall i | 0 <= i < |xs| :: Typed(env, elem, xs[i])
  }

  /** A word 1 in front of each element, and a final 0 (RFC 4506, section 4.19). */
  function ChainBytes(env: Env, elem: Ty, xs: seq<Val>): seq<byte>
    requires Elements(env, elem, xs)
  {
    if xs == [] then BigEndian(0) else BigEndian(1) + (Enc(env, elem, xs[0]) + ChainBytes(env, elem, xs[1..]))
  }

  function ChainDepth(xs: seq<Val>): nat {
    if xs == [] then 1 else 2 + Max(Depth(xs[0]), ChainDepth(xs[1..]))
  }

  lemma DepthOne(v: Val)
    ensures Depth(VSeq([v])) == 1 + Depth(v)
  {
    hide Depth;
    assert [v][1..] == [] && MaxDepth([]) == 0;
    assert MaxDepth([v]) == Max(Depth(v), 0);
    DepthIs([v]);
  }

  lemma DepthIs(vs: seq<Val>)
    ensures Depth(VSeq(vs)) == 1 + MaxDepth(vs)
  {
  }

  /** A struct of two fields. */
  lemma PairMeans(env: Env, a: Ty, b: Ty, v: Val, w: Val)
    requires Typed(env, a, v) && Typed(env, b, w)
    ensures var t, p := TStruct([a, b]), VSeq([v, w]);
      && Typed(env, t, p) && Enc(env, t, p) == Enc(env, a, v) + Enc(env, b, w)
      && (forall bounds :: Within(env, bounds, t, p) <==> Within(env, bounds, a, v) && Within(env, bounds, b, w))
      && Depth(p) == 1 + Max(Depth(v), Depth(w))
  {
    hide Typed, Within, Enc, AllTyped, AllWithin, EncAll, MaxDepth;
    var tys, vs := [a, b], [v, w];
    assert tys[1..] == [b] && vs[1..] == [w] && [b][1..] == [] && [w][1..] == [];
    AllNil(env, false, [], 0);
    AllMeans(env, tys, vs);
    AllMeans(env, [b], [w]);
    AllUncons(env, [b], [w]);
    AllUncons(env, tys, vs);
    StructOpen(env, tys, VSeq(vs));
    assert Enc(env, b, w) + [] == Enc(env, b, w);
  }

  /** A list of any length is a value of the recursive type, as marshaled and as deep as that. */
  lemma {:induction false} ChainMeans(env: Env, n: nat, elem: Ty, xs: seq<Val>)
    requires ListType(env, n, elem) && Elements(env, elem, xs)
    ensures Typed(env, TPointer(TRef(n)), Chain(xs))
    ensures Enc(env, TPointer(TRef(n)), Chain(xs)) == ChainBytes(env, elem, xs)
    ensures forall b :: Within(env, b, TPointer(TRef(n)), Chain(xs)) <==>
      forall i | 0 <= i < |xs| :: Within(env, b, elem, xs[i])
    ensures Depth(Chain(xs)) == ChainDepth(xs)
    decreases xs
  {
    hide Typed, Within, Enc, Endian.BigEndian, Size, Less, Equal, Dec;
    var next := TPointer(TRef(n));
    PointerMeans(env, TRef(n), Chain(xs));
    if xs == [] {
      WithinWeaken(env, next, Chain(xs));
    } else {
      var node := VSeq([xs[0], Chain(xs[1..])]);
      ChainMeans(env, n, elem, xs[1..]);
      PairMeans(env, elem, next, xs[0], Chain(xs[1..]));
      NameMeans(env, n, node, node);
      DepthOne(node);
      assert forall i | 1 <= i < |xs| :: xs[i] == xs[1..][i - 1];
    }
  }

  /** The decoder gives back a list of any length, followed by anything, exactly if its elements are within their
      bounds and the limit allows for two levels an element and the levels inside. */
  lemma ChainRound(env: Env, strict: bool, n: nat, elem: Ty, xs: seq<Val>, suffix: seq<byte>, limit: nat)
    requires ListType(env, n, elem) && Elements(env, elem, xs)
    ensures var d := Dec(env, strict, TPointer(TRef(n)), ChainBytes(env, elem, xs) + suffix, limit);
      if (forall i | 0 <= i < |xs| :: Within(env, true, elem, xs[i])) && ChainDepth(xs) <= limit then
        d == Done(Chain(xs), suffix)
      else d.Failed?
  {
    hide Typed, Within, Enc, Depth, Dec, Chain, ChainBytes, ChainDepth;
    ChainMeans(env, n, elem, xs);
    DecEnc(env, strict, TPointer(TRef(n)), Chain(xs), suffix, limit);
  }

  /** Every value of the type is such a list. */
  lemma {:induction false} OnlyChains(env: Env, n: nat, elem: Ty, v: Val) returns (xs: seq<Val>)
    requires ListType(env, n, elem) && Typed(env, TPointer(TRef(n)), v)
    ensures Elements(env, elem, xs) && v == Chain(xs)
    decreases v
  {
    hide Typed, Within, Enc, Size, Less, Equal, Dec;
    PointerMeans(env, TRef(n), v);
    if v.vs == [] {
      return [];
    }
    NameMeans(env, n, v.vs[0], v.vs[0]);
    StructMeans(env, [elem, TPointer(TRef(n))], v.vs[0]);
    var more := OnlyChains(env, n, elem, v.vs[0].vs[1]);
    xs := [v.vs[0].vs[0]] + more;
    assert xs[1..] == more && v.vs[0].vs == [xs[0], Chain(more)] && v.vs == [v.vs[0]];
  }

  function Numbers(ws: seq<u32>): (xs: seq<Val>)
    ensures |xs| == |ws| && forall i | 0 <= i < |ws| :: xs[i] == VWord(ws[i])
  {
    if ws == [] then [] else [VWord(ws[0])] + Numbers(ws[1..])
  }

  /** The words of a list of numbers: each is followed by 1, the last by 0. */
  function Linked(ws: seq<u32>): (ls: seq<u32>)
    requires ws != []
    ensures |ls| == 2 * |ws|
    ensures forall i | 0 <= i < |ws| :: ls[2 * i] == ws[i] && ls[2 * i + 1] == if i < |ws| - 1 then 1 else 0
  {
    if |ws| == 1 then [ws[0], 0] else [ws[0], 1] + Linked(ws[1..])
  }

  /** The list of these numbers. */
  function NumberList(ws: seq<u32>): Val
    requires ws != []
  {
    VSeq([VWord(ws[0]), Chain(Numbers(ws[1..]))])
  }

  lemma TwoWords(a: u32, b: u32, ws: seq<u32>)
    ensures Words([a, b] + ws) == BigEndian(a) + (BigEndian(b) + Words(ws)) && Words([]) == []
  {
    hide Endian.BigEndian;
    assert ([a, b] + ws)[1..] == [b] + ws && ([b] + ws)[1..] == ws;
  }

  lemma ChainCons(env: Env, num: Num, w: u32, xs: seq<Val>)
    requires Elements(env, TWord(num), xs)
    ensures Elements(env, TWord(num), [VWord(w)] + xs)
    ensures ChainBytes(env, TWord(num), [VWord(w)] + xs)
      == BigEndian(1) + (BigEndian(w) + ChainBytes(env, TWord(num), xs))
    ensures ChainDepth([VWord(w)] + xs) == 2 + ChainDepth(xs)
  {
    hide Typed, Enc, Endian.BigEndian;
    WordMeans(env, num, VWord(w));
    assert ([VWord(w)] + xs)[1..] == xs;
  }

  lemma {:induction false} LinkedBytes(env: Env, num: Num, ws: seq<u32>)
    requires ws != []
    ensures Elements(env, TWord(num), Numbers(ws[1..]))
    ensures Words(Linked(ws)) == BigEndian(ws[0]) + ChainBytes(env, TWord(num), Numbers(ws[1..]))
    ensures ChainDepth(Numbers(ws[1..])) == 2 * |ws| - 1
  {
    hide Endian.BigEndian, Typed, Enc, Words;
    if |ws| == 1 {
      TwoWords(ws[0], 0, []);
      assert [ws[0], 0] + [] == [ws[0], 0];
      assert Numbers(ws[1..]) == [];
      assert BigEndian(0) + [] == BigEndian(0);
    } else {
      var more := ws[1..];
      LinkedBytes(env, num, more);
      TwoWords(ws[0], 1, Linked(more));
      assert Numbers(more) == [VWord(more[0])] + Numbers(more[1..]);
      hide Linked, Numbers, ChainBytes, ChainDepth, Elements;
      ChainCons(env, num, more[0], Numbers(more[1..]));
    }
  }

  /** A list of k numbers is a value of the recursive type, is marshaled as these 2 k words, and is read back
      exactly if the limit is at least 2 k. */
  lemma NumberListRound(env: Env, strict: bool, n: nat, num: Num, ws: seq<u32>, suffix: seq<byte>, limit: nat)
    requires ListType(env, n, TWord(num)) && ws != []
    ensures Typed(env, TRef(n), NumberList(ws)) && Within(env, true, TRef(n), NumberList(ws))
    ensures Enc(env, TRef(n), NumberList(ws)) == Words(Linked(ws))
    ensures var d := Dec(env, strict, TRef(n), Words(Linked(ws)) + suffix, limit);
      if 2 * |ws| <= limit then d == Done(NumberList(ws), suffix) else d.Failed?
  {
    hide Typed, Within, Enc, Dec, Size, Less, Equal, Chain, ChainBytes, ChainDepth, Linked;
    var elem, xs, v := TWord(num), Numbers(ws[1..]), NumberList(ws);
    LinkedBytes(env, num, ws);
    ChainMeans(env, n, elem, xs);
    WordMeans(env, num, VWord(ws[0]));
    forall i | 0 <= i < |xs| ensures Within(env, true, elem, xs[i]) {
      WordMeans(env, num, xs[i]);
    }
    PairMeans(env, elem, TPointer(TRef(n)), VWord(ws[0]), Chain(xs));
    NameMeans(env, n, v, v);
    DecEnc(env, strict, TRef(n), v, suffix, limit);
  }

  /** xdr_from_msg() gives that list for a message of these words. */
  lemma NumberListReceived(env: Env, n: nat, num: Num, ws: seq<u32>, limit: nat)
    requires ListType(env, n, TWord(num)) && ws != []
    ensures var r := XdrGet.Received(env, [TRef(n)], Words(Linked(ws)), limit);
      if 2 * |ws| <= limit then r == Ok([NumberList(ws)]) else r.Throws?
  {
    hide Typed, Within, Enc, Dec, Words, Linked, NumberList;
    var s := Words(Linked(ws));
    NumberListRound(env, false, n, num, ws, [], limit);
    assert s + [] == s && [TRef(n)][1..] == [];
    Aligned(env, TRef(n), NumberList(ws));
    DecCons(env, false, [TRef(n)], s, limit);
    AllNil(env, false, [], limit);
    assert [NumberList(ws)] + [] == [NumberList(ws)];
  }
}
