/** Which order operator< is (types.h): numbers by value, bools, pointers and unions by what comes first, and all
    sequences by the first place where they differ. */
module XdrOrderMeaning {
  import opened Endian
  import opened UnionGen
  import opened Wrappers
  import opened Xdr
  import opened XdrMeaning
  import opened XdrOrder

  // ---- numbers and bools -----------------------------------------------------

  /** The word and the hyper that hold a number, in two's complement if it is negative. */
  function WordOf(i: int): u32
    requires -0x8000_0000 <= i < 0x1_0000_0000
  {
    if i < 0 then i + 0x1_0000_0000 else i
  }

  function HyperOf(i: int): u64
    requires -0x8000_0000_0000_0000 <= i < 0x1_0000_0000_0000_0000
  {
    if i < 0 then i + 0x1_0000_0000_0000_0000 else i
  }

  /** Numbers are in the order of their values, and false comes before true. */
  lemma NumbersLess(env: Env)
    ensures forall i, j | -0x8000_0000 <= i < 0x8000_0000 && -0x8000_0000 <= j < 0x8000_0000 ::
      Less(env, TWord(Signed), VWord(WordOf(i)), VWord(WordOf(j))) <==> i < j
    ensures forall i, j | 0 <= i < 0x1_0000_0000 && 0 <= j < 0x1_0000_0000 ::
      Less(env, TWord(Unsigned), VWord(WordOf(i)), VWord(WordOf(j))) <==> i < j
    ensures forall i, j | -0x8000_0000_0000_0000 <= i < 0x8000_0000_0000_0000
        && -0x8000_0000_0000_0000 <= j < 0x8000_0000_0000_0000 ::
      Less(env, THyper(Signed), VHyper(HyperOf(i)), VHyper(HyperOf(j))) <==> i < j
    ensures forall i, j | 0 <= i < 0x1_0000_0000_0000_0000 && 0 <= j < 0x1_0000_0000_0000_0000 ::
      Less(env, THyper(Unsigned), VHyper(HyperOf(i)), VHyper(HyperOf(j))) <==> i < j
    ensures forall a, b :: Less(env, TBool, VBool(a), VBool(b)) <==> a == false && b == true
  {
  }

  /** The theorems of `XdrOrder` are about all types but those with a floating-point number somewhere inside. */
  lemma NoFloatMeans(ty: Ty)
    ensures ty.TWord? || ty.THyper? ==> (NoFloat(ty) <==> ty.num == Signed || ty.num == Unsigned)
    ensures ty.TBool? || ty.TOpaque? || ty.TBytes? || ty.TRef? ==> NoFloat(ty)
    ensures ty.TArray? || ty.TVector? || ty.TPointer? ==> (NoFloat(ty) <==> NoFloat(ty.elem))
    ensures ty.TStruct? ==> (NoFloat(ty) <==> forall t | t in ty.fields :: NoFloat(t))
    ensures ty.TUnion? ==>
      (NoFloat(ty) <==> forall arm | arm in ty.arms && arm.body != None :: NoFloat(arm.body.value))
  {
    if ty.TStruct? {
      assert NoFloat(ty) ==> forall t | t in ty.fields :: NoFloat(t);
      assert (forall t | t in ty.fields :: NoFloat(t)) ==> forall i | 0 <= i < |ty.fields| :: NoFloat(ty.fields[i]);
    }
    if ty.TUnion? {
      assert NoFloat(ty) <==> forall i | 0 <= i < |ty.arms| :: ArmNoFloat(ty.arms[i]);
      assert forall arm | arm in ty.arms :: ArmNoFloat(arm) <==> (arm.body != None ==> NoFloat(arm.body.value));
    }
  }

  // ---- sequences -------------------------------------------------------------

  /** `a` and `b` are the same up to place `i`, where both have something. */
  ghost predicate SameUpTo<T(!new)>(a: seq<T>, b: seq<T>, i: nat) {
    i < |a| && i < |b| && a[..i] == b[..i]
  }

  lemma ShiftFirst<T(!new)>(a: seq<T>, b: seq<T>)
    requires a != [] && b != [] && a[0] == b[0]
    ensures a < b <==> a[1..] < b[1..]
    ensures forall i: nat :: SameUpTo(a, b, i + 1) <==> SameUpTo(a[1..], b[1..], i)
    ensures forall i: nat :: i > 0 ==> (SameUpTo(a, b, i) <==> SameUpTo(a[1..], b[1..], i - 1))
  {
    assert a == [a[0]] + a[1..] && b == [b[0]] + b[1..];
    forall i: nat ensures SameUpTo(a, b, i + 1) <==> SameUpTo(a[1..], b[1..], i) {
      if i + 1 < |a| && i + 1 < |b| {
        assert a[..i + 1] == [a[0]] + a[1..][..i] && b[..i + 1] == [b[0]] + b[1..][..i];
        assert a[..i + 1][1..] == a[1..][..i] && b[..i + 1][1..] == b[1..][..i];
      }
    }
  }

  lemma {:induction false} BytesLessMeans(a: seq<byte>, b: seq<byte>)
    ensures BytesLess(a, b) <==> a < b || exists i: nat :: SameUpTo(a, b, i) && a[i] < b[i]
  {
    if a != [] && b != [] {
      assert SameUpTo(a, b, 0);
      if a[0] == b[0] {
        BytesLessMeans(a[1..], b[1..]);
        ShiftFirst(a, b);
        if i: nat :| SameUpTo(a[1..], b[1..], i) && a[1..][i] < b[1..][i] {
          assert SameUpTo(a, b, i + 1);
        }
      }
      if i: nat :| SameUpTo(a, b, i) && a[i] < b[i] && i > 0 {
        assert a[0] == a[..i][0] == b[..i][0] == b[0];
        assert SameUpTo(a[1..], b[1..], i - 1);
      }
    }
  }

  /** Strings and opaque data: at the first place where they differ the byte is less, or there is none and the
      left one is shorter. */
  lemma BytesMeansLess(env: Env, ty: Ty, a: seq<byte>, b: seq<byte>)
    requires ty.TBytes? || ty.TOpaque?
    ensures Less(env, ty, VBytes(a), VBytes(b)) <==> a < b || exists i: nat :: SameUpTo(a, b, i) && a[i] < b[i]
  {
    hide BytesLess;
    BytesLessMeans(a, b);
  }

  /** The first place where `vs` and `ws` differ is `i`, and there the left one is less. */
  ghost predicate LessFrom(env: Env, ty: Ty, vs: seq<Val>, ws: seq<Val>, i: nat) {
    SameUpTo(vs, ws, i) && Less(env, ty, vs[i], ws[i])
  }

  lemma {:induction false} LexMeans(env: Env, tys: seq<Ty>, vs: seq<Val>, ws: seq<Val>)
    requires AllPlain(env, tys, vs) && AllPlain(env, tys, ws)
    ensures LexLess(env, tys, vs, ws) <==> vs < ws || exists i: nat :: i < |tys| && LessFrom(env, tys[i], vs, ws, i)
    decreases vs
  {
    hide Less, Plain;
    if vs != [] && ws != [] {
      assert Plain(env, tys[0], vs[0]) && Plain(env, tys[0], ws[0]);
      Trichotomy(env, tys[0], vs[0], ws[0]);
      Trichotomy(env, tys[0], ws[0], vs[0]);
      assert SameUpTo(vs, ws, 0);
      if Less(env, tys[0], vs[0], ws[0]) {
        assert LessFrom(env, tys[0], vs, ws, 0);
      }
      if vs[0] == ws[0] {
        LexMeans(env, tys[1..], vs[1..], ws[1..]);
        ShiftFirst(vs, ws);
        if i: nat :| i < |tys[1..]| && LessFrom(env, tys[1..][i], vs[1..], ws[1..], i) {
          assert LessFrom(env, tys[i + 1], vs, ws, i + 1);
        }
      }
      if i: nat :| i < |tys| && LessFrom(env, tys[i], vs, ws, i) && i > 0 {
        assert vs[0] == vs[..i][0] == ws[..i][0] == ws[0];
        assert LessFrom(env, tys[1..][i - 1], vs[1..], ws[1..], i - 1);
      }
    }
  }

  /** Structs: by the first field that differs. */
  lemma StructLess(env: Env, fields: seq<Ty>, v: Val, w: Val)
    requires Plain(env, TStruct(fields), v) && Plain(env, TStruct(fields), w)
    ensures v.VSeq? && w.VSeq?
    ensures Less(env, TStruct(fields), v, w) <==>
      exists i: nat :: i < |fields| && LessFrom(env, fields[i], v.vs, w.vs, i)
  {
    StructMeans(env, fields, v);
    StructMeans(env, fields, w);
    SeqStep(env, TStruct(fields), v, w);
    hide Plain, AllPlain, Less, LexLess, Typed, Within, Enc;
    LexMeans(env, fields, v.vs, w.vs);
  }

  /** Arrays and vectors: at the first place where they differ the element is less, or there is none and the left
      one is shorter. */
  lemma ElementsLess(env: Env, ty: Ty, v: Val, w: Val)
    requires (ty.TArray? || ty.TVector?) && Plain(env, ty, v) && Plain(env, ty, w)
    ensures v.VSeq? && w.VSeq?
    ensures Less(env, ty, v, w) <==> v.vs < w.vs || exists i: nat :: LessFrom(env, ty.elem, v.vs, w.vs, i)
  {
    SeqStep(env, ty, v, w);
    var tys := Common(ty, v, w);
    assert |v.vs| <= |tys| && |w.vs| <= |tys| && forall i | 0 <= i < |tys| :: tys[i] == ty.elem;
    hide Plain, AllPlain, Less, LexLess, Typed, Common;
    LexMeans(env, tys, v.vs, w.vs);
    if i: nat :| LessFrom(env, ty.elem, v.vs, w.vs, i) {
      assert LessFrom(env, tys[i], v.vs, w.vs, i);
    }
  }

  /** Pointers: null comes before a set one, and set ones are in the order of what they point to. */
  lemma PointerLess(env: Env, elem: Ty, v: Val, w: Val)
    requires v.VSeq? && w.VSeq?
    ensures Less(env, TPointer(elem), v, w) <==>
      w.vs != [] && (v.vs == [] || Less(env, elem, v.vs[0], w.vs[0]))
  {
  }

  /** Unions: by the number of the discriminant, and then by the field of the arm that applies. */
  lemma UnionLess(env: Env, kind: TagKind, arms: seq<Spec<Ty>>, v: Val, w: Val, a: int, b: int)
    requires Typed(env, TUnion(kind, arms), v) && Typed(env, TUnion(kind, arms), w)
    requires v.VUnion? && w.VUnion? && StandsFor(kind, v.tag, a) && StandsFor(kind, w.tag, b)
    ensures a < b ==> Less(env, TUnion(kind, arms), v, w)
    ensures a > b ==> !Less(env, TUnion(kind, arms), v, w)
    ensures a == b ==> forall i: nat | Applies(arms, a, i) ::
      if arms[i].body == None then !Less(env, TUnion(kind, arms), v, w)
      else
        && |v.body| == 1 && |w.body| == 1
        && (Less(env, TUnion(kind, arms), v, w) <==> Less(env, arms[i].body.value, v.body[0], w.body[0]))
    ensures a == b && (forall i: nat :: !Applies(arms, a, i)) ==> !Less(env, TUnion(kind, arms), v, w)
  {
    var u := TUnion(kind, arms);
    assert TagValue(kind, v.tag) == a && TagValue(kind, w.tag) == b;
    if a == b {
      forall i: nat | Applies(arms, a, i)
        ensures if arms[i].body == None then ChildTys(u, v.tag) == []
          else |v.body| == 1 && |w.body| == 1 && ChildTys(u, v.tag) == [arms[i].body.value]
      {
        UnionMeans(env, kind, arms, v, a, i);
        UnionMeans(env, kind, arms, w, b, i);
        SelectMeans(arms, a, i);
      }
      if forall i: nat :: !Applies(arms, a, i) {
        if Select(arms, a).Some? {
          SelectMeans(arms, a, Select(arms, a).value);
          assert Applies(arms, a, Select(arms, a).value);
        }
        assert ChildTys(u, v.tag) == [];
      }
    }
  }
}
