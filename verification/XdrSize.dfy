/** serial_size (types.h): the size of an encoding, computed ahead with constants for types of fixed size. */
module XdrSize {
  import opened Endian
  import opened Wrappers
  import opened UnionGen
  import opened Xdr
  import opened XdrLaws

  /** has_fixed_size; a recursive occurrence is taken not to have one. */
  predicate HasFixed(ty: Ty) {
    match ty
    case TWord(_) => true
    case THyper(_) => true
    case TBool => true
    case TOpaque(_) => true
    case TArray(_, elem) => HasFixed(elem)
    case TStruct(fields) => AllFixed(fields)
    case _ => false
  }

  predicate AllFixed(tys: seq<Ty>) {
    tys == [] || (HasFixed(tys[0]) && AllFixed(tys[1..]))
  }

  /** fixed_size. */
  function FixedSize(ty: Ty): nat
    requires HasFixed(ty)
  {
    match ty
    case TWord(_) => 4
    case THyper(_) => 8
    case TBool => 4
    case TOpaque(n) => (n + 3) / 4 * 4
    case TArray(n, elem) => n * FixedSize(elem)
    case TStruct(fields) => FixedSum(fields)
  }

  function FixedSum(tys: seq<Ty>): nat
    requires AllFixed(tys)
  {
    if tys == [] then 0 else FixedSize(tys[0]) + FixedSum(tys[1..])
  }

  function Plus(a: Option<nat>, b: Option<nat>): Option<nat> {
    if a.Some? && b.Some? then Some(a.value + b.value) else None
  }

  /** serial_size(); None is the exception for a discriminant without an arm. */
  function Size(env: Env, ty: Ty, v: Val): Option<nat>
    requires Typed(env, ty, v)
    decreases v
  {
    var t := Resolve(env, ty);
    match t
    case TWord(_) => Some(4)
    case THyper(_) => Some(8)
    case TBool => Some(4)
    case TOpaque(n) => Some((n + 3) / 4 * 4)
    case TBytes(_) => Some((|v.s| + 7) / 4 * 4)
    case TArray(n, elem) =>
      if HasFixed(elem) then Some(n * FixedSize(elem)) else SumSize(env, Rep(elem, n), v.vs)
    case TVector(_, elem) =>
      if HasFixed(elem) then Some(4 + |v.vs| * FixedSize(elem))
      else Plus(Some(4), SumSize(env, Rep(elem, |v.vs|), v.vs))
    case TPointer(elem) => Plus(Some(4), SumSize(env, Rep(elem, |v.vs|), v.vs))
    case TStruct(fields) => StructSize(env, fields, v.vs)
    case TUnion(kind, arms) =>
      if Select(arms, TagValue(kind, v.tag)) == None then None
      else Plus(SumSize(env, ChildTys(t, v.tag), v.body), Some(4))
  }

  function SumSize(env: Env, tys: seq<Ty>, vs: seq<Val>): Option<nat>
    requires AllTyped(env, tys, vs)
    decreases vs
  {
    if vs == [] then Some(0) else Plus(Size(env, tys[0], vs[0]), SumSize(env, tys[1..], vs[1..]))
  }

  /** A struct whose remaining fields all have a fixed size stops adding up. */
  function StructSize(env: Env, tys: seq<Ty>, vs: seq<Val>): Option<nat>
    requires AllTyped(env, tys, vs)
    decreases vs
  {
    if AllFixed(tys) then Some(FixedSum(tys))
    else Plus(Size(env, tys[0], vs[0]), StructSize(env, tys[1..], vs[1..]))
  }

  lemma RoundUp(n: nat)
    ensures (n + 3) / 4 * 4 == n + Pad(n) && (n + 7) / 4 * 4 == 4 + n + Pad(n)
  {
  }

  lemma LeafLength(t: Ty, v: Val)
    requires LeafTyped(t, v)
    ensures match t
      case TOpaque(n) => |EncLeaf(t, v)| == (n + 3) / 4 * 4
      case TBytes(_) => |EncLeaf(t, v)| == (|v.s| + 7) / 4 * 4
      case THyper(_) => |EncLeaf(t, v)| == 8
      case _ => |EncLeaf(t, v)| == 4
  {
    if v.VBytes? {
      RoundUp(|v.s|);
    }
  }

  lemma FixedResolves(env: Env, ty: Ty, v: Val)
    requires Typed(env, ty, v) && HasFixed(ty)
    ensures Resolve(env, ty) == ty && !Leads(ty)
    ensures Leaf(ty) ==> |Enc(env, ty, v)| == FixedSize(ty) && Within(env, false, ty, v)
    ensures !Leaf(ty) ==> LeadWithin(false, ty, LeadOf(v))
    ensures ty.TStruct? ==> AllFixed(ty.fields) && FixedSize(ty) == FixedSum(ty.fields)
    ensures ty.TArray? ==> HasFixed(ty.elem) && FixedSize(ty) == ty.n * FixedSize(ty.elem)
    ensures ty.TArray? ==> ChildTys(ty, LeadOf(v)) == Rep(ty.elem, ty.n)
    ensures ty.TStruct? ==> ChildTys(ty, LeadOf(v)) == ty.fields
    ensures Leaf(ty) || ty.TStruct? || ty.TArray?
  {
    hide EncLeaf;
    if Leaf(ty) {
      LeafLength(ty, v);
    }
  }

  /** Every value of a type of fixed size is marshaled in that size. */
  lemma {:induction false} FixedExact(env: Env, ty: Ty, v: Val)
    requires Typed(env, ty, v) && HasFixed(ty)
    ensures |Enc(env, ty, v)| == FixedSize(ty) && Within(env, false, ty, v)
    decreases v
  {
    hide Enc, EncAll, Typed, AllTyped, Within, AllWithin, Depth, MaxDepth, FixedSize, HasFixed, ChildTys, LeadWithin;
    FixedResolves(env, ty, v);
    if !Leaf(ty) {
      Opened(env, ty, v);
      KidsSmaller(v);
      if ty.TStruct? {
        FixedAllExact(env, ty.fields, Kids(v));
      } else {
        FixedRepExact(env, ty.elem, ty.n, Kids(v));
      }
    }
  }

  lemma {:induction false} FixedAllExact(env: Env, tys: seq<Ty>, vs: seq<Val>)
    requires AllTyped(env, tys, vs) && AllFixed(tys)
    ensures |EncAll(env, tys, vs)| == FixedSum(tys) && AllWithin(env, false, tys, vs)
    decreases vs
  {
    hide Enc, Typed, Within, Depth, FixedSize, HasFixed;
    if vs != [] {
      AllUncons(env, tys, vs);
      FixedExact(env, tys[0], vs[0]);
      FixedAllExact(env, tys[1..], vs[1..]);
    }
  }

  lemma {:induction false} FixedRepExact(env: Env, elem: Ty, n: nat, vs: seq<Val>)
    requires AllTyped(env, Rep(elem, n), vs) && HasFixed(elem)
    ensures |EncAll(env, Rep(elem, n), vs)| == n * FixedSize(elem) && AllWithin(env, false, Rep(elem, n), vs)
    decreases vs
  {
    hide Enc, Typed, Within, Depth, FixedSize, HasFixed;
    if n > 0 {
      AllUncons(env, Rep(elem, n), vs);
      assert Rep(elem, n)[1..] == Rep(elem, n - 1);
      FixedExact(env, elem, vs[0]);
      FixedRepExact(env, elem, n - 1, vs[1..]);
      assert n * FixedSize(elem) == FixedSize(elem) + (n - 1) * FixedSize(elem);
    }
  }

  lemma SizeLeaf(env: Env, ty: Ty, v: Val)
    requires Typed(env, ty, v) && Leaf(Resolve(env, ty))
    ensures Within(env, false, ty, v) && Size(env, ty, v) == Some(|Enc(env, ty, v)|)
  {
    hide EncLeaf;
    LeafEnc(env, ty, v);
    LeafLength(Resolve(env, ty), v);
  }

  /** serial_size() one step down. */
  lemma SizeStep(env: Env, ty: Ty, v: Val)
    requires Typed(env, ty, v) && !Leaf(Resolve(env, ty))
    ensures var t := Resolve(env, ty); var tys, lead := ChildTys(t, LeadOf(v)), EncLead(t, LeadOf(v));
      && AllTyped(env, tys, Kids(v))
      && (t.TArray? || t.TVector? || t.TPointer? ==> tys == Rep(t.elem, |Kids(v)|))
      && (Size(env, ty, v) ==
            if t.TUnion? && !LeadWithin(false, t, LeadOf(v)) then None
            else if (t.TArray? || t.TVector?) && HasFixed(t.elem) then Some(|lead| + |Kids(v)| * FixedSize(t.elem))
            else if t.TStruct? then StructSize(env, tys, Kids(v))
            else Plus(Some(|lead|), SumSize(env, tys, Kids(v))))
  {
    hide AllTyped, SumSize, StructSize, FixedSize, HasFixed, Active, Select, Endian.BigEndian;
  }

  /** The size computed ahead is that of the encoding; it throws exactly if some union has no arm. */
  lemma {:induction false} SizeExact(env: Env, ty: Ty, v: Val)
    requires Typed(env, ty, v)
    ensures Size(env, ty, v) == if Within(env, false, ty, v) then Some(|Enc(env, ty, v)|) else None
    decreases v
  {
    hide Typed, AllTyped, Enc, EncAll, Within, AllWithin, Depth, MaxDepth, Size, SumSize, StructSize, FixedSize;
    hide HasFixed;
    hide Select, ChildTys, EncLead;
    var t := Resolve(env, ty);
    if Leaf(t) {
      SizeLeaf(env, ty, v);
    } else {
      Opened(env, ty, v);
      SizeStep(env, ty, v);
      KidsSmaller(v);
      var tys := ChildTys(t, LeadOf(v));
      if (t.TArray? || t.TVector?) && HasFixed(t.elem) {
        FixedRepExact(env, t.elem, |Kids(v)|, Kids(v));
      } else if t.TStruct? {
        StructExact(env, tys, Kids(v));
      } else {
        SumExact(env, tys, Kids(v));
      }
    }
  }

  lemma {:induction false} SumExact(env: Env, tys: seq<Ty>, vs: seq<Val>)
    requires AllTyped(env, tys, vs)
    ensures SumSize(env, tys, vs) == if AllWithin(env, false, tys, vs) then Some(|EncAll(env, tys, vs)|) else None
    decreases vs
  {
    hide Enc, Typed, Within, Depth, Size;
    if vs != [] {
      AllUncons(env, tys, vs);
      SizeExact(env, tys[0], vs[0]);
      SumExact(env, tys[1..], vs[1..]);
    }
  }

  lemma {:induction false} StructExact(env: Env, tys: seq<Ty>, vs: seq<Val>)
    requires AllTyped(env, tys, vs)
    ensures StructSize(env, tys, vs) == if AllWithin(env, false, tys, vs) then Some(|EncAll(env, tys, vs)|) else None
    decreases vs
  {
    assert vs == [] ==> AllFixed(tys);
    hide Enc, Typed, Within, Depth, Size, AllFixed, FixedSum;
    if AllFixed(tys) {
      FixedAllExact(env, tys, vs);
    } else {
      AllUncons(env, tys, vs);
      SizeExact(env, tys[0], vs[0]);
      StructExact(env, tys[1..], vs[1..]);
    }
  }

  lemma LeafAligned(env: Env, ty: Ty, v: Val)
    requires Typed(env, ty, v) && Leaf(Resolve(env, ty))
    ensures |Enc(env, ty, v)| % 4 == 0
  {
    hide EncLeaf;
    LeafEnc(env, ty, v);
    LeafLength(Resolve(env, ty), v);
  }

  /** Encodings are whole words. */
  lemma {:induction false} Aligned(env: Env, ty: Ty, v: Val)
    requires Typed(env, ty, v)
    ensures |Enc(env, ty, v)| % 4 == 0
    decreases v
  {
    hide Enc, EncAll, Typed, AllTyped, AllWithin, Within, Depth, MaxDepth, Select, ChildTys, Resolve, Leaf;
    var t := Resolve(env, ty);
    if Leaf(t) {
      LeafAligned(env, ty, v);
    } else {
      Opened(env, ty, v);
      KidsSmaller(v);
      AllAligned(env, ChildTys(t, LeadOf(v)), Kids(v));
    }
  }

  lemma {:induction false} AllAligned(env: Env, tys: seq<Ty>, vs: seq<Val>)
    requires AllTyped(env, tys, vs)
    ensures |EncAll(env, tys, vs)| % 4 == 0
    decreases vs
  {
    hide Enc, Typed, Within, Depth;
    if vs != [] {
      AllUncons(env, tys, vs);
      Aligned(env, tys[0], vs[0]);
      AllAligned(env, tys[1..], vs[1..]);
    }
  }
}
