/** The comparison operators of XDR types (types.h), for types without floating-point numbers. */
module XdrOrder {
  import opened Endian
  import opened UnionGen
  import opened Wrappers
  import opened Xdr
  import opened XdrLaws

  function Nodes(v: Val): (n: nat)
    ensures n > 0
    decreases v
  {
    if v.VSeq? then 1 + NodesAll(v.vs) else if v.VUnion? then 1 + NodesAll(v.body) else 1
  }

  function NodesAll(vs: seq<Val>): (n: nat)
    ensures vs != [] ==> Nodes(vs[0]) <= n
    decreases vs
  {
    if vs == [] then 0 else Nodes(vs[0]) + NodesAll(vs[1..])
  }

  // ---- the operators, on two values of type `ty` ------------------------------

  /** Strings and opaque data compare as unsigned bytes. */
  predicate BytesLess(a: seq<byte>, b: seq<byte>) {
    b != [] && (a == [] || a[0] < b[0] || (a[0] == b[0] && BytesLess(a[1..], b[1..])))
  }

  function HyperValue(num: Num, h: u64): int {
    if num == Signed && h >= 0x8000_0000_0000_0000 then h - 0x1_0000_0000_0000_0000 else h
  }

  predicate LeafLess(t: Ty, v: Val, w: Val) {
    if t.TWord? && v.VWord? && w.VWord? then
      if t.num == Signed then SignedOf(v.w) < SignedOf(w.w) else v.w < w.w
    else if t.THyper? && v.VHyper? && w.VHyper? then HyperValue(t.num, v.h) < HyperValue(t.num, w.h)
    else if v.VBool? && w.VBool? then !v.b && w.b
    else v.VBytes? && w.VBytes? && BytesLess(v.s, w.s)
  }

  /** operator<: unions compare discriminants first, pointers put null first; arrays, vectors
      and structs compare lexicographically. */
  predicate Less(env: Env, ty: Ty, v: Val, w: Val)
    decreases Nodes(v) + Nodes(w), 0
  {
    var t := Resolve(env, ty);
    if Leaf(t) then LeafLess(t, v, w)
    else if t.TUnion? && v.VUnion? && w.VUnion? then
      var a, b, tys := TagValue(t.kind, v.tag), TagValue(t.kind, w.tag), ChildTys(t, v.tag);
      if a < b then true
      else if b < a then false
      else tys != [] && v.body != [] && w.body != [] && Less(env, tys[0], v.body[0], w.body[0])
    else if t.TPointer? && v.VSeq? && w.VSeq? then
      (v.vs == [] && w.vs != []) || (v.vs != [] && w.vs != [] && Less(env, t.elem, v.vs[0], w.vs[0]))
    else v.VSeq? && w.VSeq? && LexLess(env, Common(t, v, w), v.vs, w.vs)
  }

  /** The types of the fields, or of the elements of the longer of two values. */
  function Common(t: Ty, v: Val, w: Val): seq<Ty> {
    ChildTys(t, Max(LeadOf(v), LeadOf(w)))
  }

  /** std::lexicographical_compare, and struct_lt_helper where the lengths agree. */
  predicate LexLess(env: Env, tys: seq<Ty>, vs: seq<Val>, ws: seq<Val>)
    decreases NodesAll(vs) + NodesAll(ws), 1
  {
    if vs == [] || ws == [] then vs == [] && ws != []
    else if tys == [] then false
    else if Less(env, tys[0], vs[0], ws[0]) then true
    else if Less(env, tys[0], ws[0], vs[0]) then false
    else LexLess(env, tys[1..], vs[1..], ws[1..])
  }

  /** operator==. */
  predicate Equal(env: Env, ty: Ty, v: Val, w: Val)
    decreases v
  {
    var t := Resolve(env, ty);
    if t.TUnion? && v.VUnion? && w.VUnion? then
      var tys := ChildTys(t, v.tag);
      v.tag == w.tag && (tys == [] || (v.body != [] && w.body != [] && Equal(env, tys[0], v.body[0], w.body[0])))
    else if t.TPointer? && v.VSeq? && w.VSeq? then
      (v.vs == [] && w.vs == []) || (v.vs != [] && w.vs != [] && Equal(env, t.elem, v.vs[0], w.vs[0]))
    else if v.VSeq? && w.VSeq? then |v.vs| == |w.vs| && AllEqual(env, Common(t, v, w), v.vs, w.vs)
    else v == w
  }

  predicate AllEqual(env: Env, tys: seq<Ty>, vs: seq<Val>, ws: seq<Val>)
    requires |vs| == |ws|
    decreases vs
  {
    vs == [] || (tys != [] && Equal(env, tys[0], vs[0], ws[0]) && AllEqual(env, tys[1..], vs[1..], ws[1..]))
  }

  // ---- values without floats -------------------------------------------------

  predicate NoFloat(ty: Ty) {
    match ty
    case TWord(num) => num != Floating
    case THyper(num) => num != Floating
    case TArray(_, elem) => NoFloat(elem)
    case TVector(_, elem) => NoFloat(elem)
    case TPointer(elem) => NoFloat(elem)
    case TStruct(fields) => forall i | 0 <= i < |fields| :: NoFloat(fields[i])
    case TUnion(_, arms) => forall i | 0 <= i < |arms| :: ArmNoFloat(arms[i])
    case _ => true
  }

  predicate ArmNoFloat(arm: Spec<Ty>) {
    arm.body.Some? ==> NoFloat(arm.body.value)
  }

  predicate CleanEnv(env: Env) {
    forall n | n in env :: NoFloat(env[n])
  }

  /** A value of a type without floats. */
  predicate Plain(env: Env, ty: Ty, v: Val) {
    CleanEnv(env) && NoFloat(ty) && Typed(env, ty, v)
  }

  /** Values of the first of the types in `tys`. */
  predicate AllPlain(env: Env, tys: seq<Ty>, vs: seq<Val>) {
    |vs| <= |tys| && forall i | 0 <= i < |vs| :: Plain(env, tys[i], vs[i])
  }

  lemma ChildrenNoFloat(env: Env, ty: Ty, n: nat)
    requires CleanEnv(env) && NoFloat(ty)
    ensures forall i | 0 <= i < |ChildTys(Resolve(env, ty), n)| :: NoFloat(ChildTys(Resolve(env, ty), n)[i])
  {
    var t := Resolve(env, ty);
    assert NoFloat(t);
    if t.TUnion? && n < WORD {
      var at := Active(t.arms, TagValue(t.kind, n));
      if at.Some? {
        assert ArmNoFloat(t.arms[at.value]);
      }
    }
  }

  /** Going down into a value without floats. */
  lemma KidsPlain(env: Env, ty: Ty, v: Val, n: nat)
    requires Plain(env, ty, v) && !Leaf(Resolve(env, ty))
    requires n == LeadOf(v) || (!Resolve(env, ty).TUnion? && n >= LeadOf(v))
    ensures AllPlain(env, ChildTys(Resolve(env, ty), n), Kids(v))
    ensures ShapeTyped(Resolve(env, ty), v) && |ChildTys(Resolve(env, ty), LeadOf(v))| == |Kids(v)|
  {
    var t, vs := Resolve(env, ty), Kids(v);
    var tys, more := ChildTys(t, LeadOf(v)), ChildTys(t, n);
    Opened(env, ty, v);
    ChildrenNoFloat(env, ty, n);
    assert |tys| == |vs|;
    assert forall i | 0 <= i < |tys| :: i < |more| && more[i] == tys[i];
    hide Typed, AllTyped, ChildTys, NoFloat, Enc, Within, AllWithin, Depth;
    forall i | 0 <= i < |vs| ensures i < |more| && Plain(env, more[i], vs[i]) {
      AllTypedAt(env, tys, vs, i);
      assert more[i] == tys[i];
    }
  }

  // ---- the order -------------------------------------------------------------

  lemma {:induction false} BytesTrichotomy(a: seq<byte>, b: seq<byte>)
    ensures a == b ==> !BytesLess(a, b) && !BytesLess(b, a)
    ensures a != b ==> (BytesLess(a, b) <==> !BytesLess(b, a))
  {
    if a != [] && b != [] && a[0] == b[0] {
      BytesTrichotomy(a[1..], b[1..]);
      assert a == [a[0]] + a[1..] && b == [b[0]] + b[1..];
    }
  }

  lemma {:induction false} BytesTransitive(a: seq<byte>, b: seq<byte>, c: seq<byte>)
    requires BytesLess(a, b) && BytesLess(b, c)
    ensures BytesLess(a, c)
  {
    if a != [] && a[0] == b[0] == c[0] {
      BytesTransitive(a[1..], b[1..], c[1..]);
    }
  }

  lemma LeafTrichotomy(t: Ty, v: Val, w: Val)
    requires LeafTyped(t, v) && LeafTyped(t, w)
    ensures v == w ==> !LeafLess(t, v, w) && !LeafLess(t, w, v)
    ensures v != w ==> (LeafLess(t, v, w) <==> !LeafLess(t, w, v))
  {
    hide BytesLess;
    if v.VBytes? {
      BytesTrichotomy(v.s, w.s);
    }
  }

  lemma LeafTransitive(t: Ty, u: Val, v: Val, w: Val)
    requires LeafTyped(t, u) && LeafTyped(t, v) && LeafTyped(t, w) && LeafLess(t, u, v) && LeafLess(t, v, w)
    ensures LeafLess(t, u, w)
  {
    hide BytesLess;
    if v.VBytes? {
      BytesTransitive(u.s, v.s, w.s);
    }
  }

  lemma TagInjective(kind: TagKind, a: u32, b: u32)
    ensures TagValue(kind, a) == TagValue(kind, b) <==> a == b
  {
  }

  /** The operators one step down. A union with the same discriminant and a pointer compare like lists
      of at most one element. */
  lemma LessStep(env: Env, ty: Ty, v: Val, w: Val)
    requires Plain(env, ty, v) && Plain(env, ty, w) && !Leaf(Resolve(env, ty))
    ensures var t := Resolve(env, ty); var tys := Common(t, v, w);
      && (t.TUnion? ==> v.VUnion? && w.VUnion?)
      && (v == w <==> (t.TUnion? ==> v.tag == w.tag) && Kids(v) == Kids(w))
      && NodesAll(Kids(v)) < Nodes(v) && NodesAll(Kids(w)) < Nodes(w)
      && (t.TUnion? && v.tag != w.tag ==>
            (Less(env, ty, v, w) <==> TagValue(t.kind, v.tag) < TagValue(t.kind, w.tag)) && !Equal(env, ty, v, w))
      && (!t.TUnion? || v.tag == w.tag ==>
            && AllPlain(env, tys, Kids(v)) && AllPlain(env, tys, Kids(w))
            && (Less(env, ty, v, w) <==> LexLess(env, tys, Kids(v), Kids(w)))
            && (Equal(env, ty, v, w) <==> |Kids(v)| == |Kids(w)| && AllEqual(env, tys, Kids(v), Kids(w))))
  {
    var t := Resolve(env, ty);
    if t.TUnion? {
      UnionStep(env, ty, v, w);
    } else if t.TPointer? {
      PointerStep(env, ty, v, w);
    } else {
      SeqStep(env, ty, v, w);
    }
  }

  lemma OneElement(env: Env, tys: seq<Ty>, vs: seq<Val>, ws: seq<Val>)
    requires |vs| <= 1 && |ws| <= 1 && |vs| <= |tys| && |ws| <= |tys|
    ensures LexLess(env, tys, vs, ws) <==>
      (vs == [] && ws != []) || (vs != [] && ws != [] && Less(env, tys[0], vs[0], ws[0]))
    ensures |vs| == |ws| ==> (AllEqual(env, tys, vs, ws) <==> vs == [] || Equal(env, tys[0], vs[0], ws[0]))
  {
    hide Less, Equal;
  }

  lemma UnionStep(env: Env, ty: Ty, v: Val, w: Val)
    requires Plain(env, ty, v) && Plain(env, ty, w) && Resolve(env, ty).TUnion?
    ensures v.VUnion? && w.VUnion? && NodesAll(Kids(v)) < Nodes(v) && NodesAll(Kids(w)) < Nodes(w)
    ensures var t := Resolve(env, ty);
      && (v.tag != w.tag ==>
            (Less(env, ty, v, w) <==> TagValue(t.kind, v.tag) < TagValue(t.kind, w.tag)) && !Equal(env, ty, v, w))
      && (v.tag == w.tag ==>
            && AllPlain(env, Common(t, v, w), Kids(v)) && AllPlain(env, Common(t, v, w), Kids(w))
            && (Less(env, ty, v, w) <==> LexLess(env, Common(t, v, w), Kids(v), Kids(w)))
            && (Equal(env, ty, v, w) <==> |Kids(v)| == |Kids(w)| && AllEqual(env, Common(t, v, w), Kids(v), Kids(w))))
  {
    var t := Resolve(env, ty);
    KidsPlain(env, ty, v, LeadOf(v));
    KidsPlain(env, ty, w, LeadOf(w));
    hide Typed, AllTyped, NoFloat, AllPlain, LexLess, AllEqual;
    TagInjective(t.kind, v.tag, w.tag);
    if v.tag == w.tag {
      assert |ChildTys(t, v.tag)| <= 1;
      hide ChildTys;
      OneElement(env, Common(t, v, w), v.body, w.body);
    }
  }

  lemma PointerStep(env: Env, ty: Ty, v: Val, w: Val)
    requires Plain(env, ty, v) && Plain(env, ty, w) && Resolve(env, ty).TPointer?
    ensures v.VSeq? && w.VSeq? && NodesAll(Kids(v)) < Nodes(v) && NodesAll(Kids(w)) < Nodes(w)
    ensures var tys := Common(Resolve(env, ty), v, w);
      && AllPlain(env, tys, Kids(v)) && AllPlain(env, tys, Kids(w))
      && (Less(env, ty, v, w) <==> LexLess(env, tys, Kids(v), Kids(w)))
      && (Equal(env, ty, v, w) <==> |Kids(v)| == |Kids(w)| && AllEqual(env, tys, Kids(v), Kids(w)))
  {
    var n := Max(LeadOf(v), LeadOf(w));
    KidsPlain(env, ty, v, n);
    KidsPlain(env, ty, w, n);
    hide Typed, AllTyped, NoFloat, AllPlain, LexLess, AllEqual;
    OneElement(env, Common(Resolve(env, ty), v, w), v.vs, w.vs);
  }

  lemma SeqStep(env: Env, ty: Ty, v: Val, w: Val)
    requires Plain(env, ty, v) && Plain(env, ty, w)
    requires var t := Resolve(env, ty); !Leaf(t) && !t.TUnion? && !t.TPointer?
    ensures v.VSeq? && w.VSeq? && NodesAll(Kids(v)) < Nodes(v) && NodesAll(Kids(w)) < Nodes(w)
    ensures var tys := Common(Resolve(env, ty), v, w);
      && AllPlain(env, tys, Kids(v)) && AllPlain(env, tys, Kids(w))
      && (Less(env, ty, v, w) <==> LexLess(env, tys, Kids(v), Kids(w)))
      && (Equal(env, ty, v, w) <==> |Kids(v)| == |Kids(w)| && AllEqual(env, tys, Kids(v), Kids(w)))
  {
    var n := Max(LeadOf(v), LeadOf(w));
    KidsPlain(env, ty, v, n);
    KidsPlain(env, ty, w, n);
    hide Typed, AllTyped, NoFloat, AllPlain, LexLess, AllEqual, ChildTys;
  }

  lemma LeafPlain(env: Env, ty: Ty, v: Val, w: Val)
    requires Plain(env, ty, v) && Plain(env, ty, w) && Leaf(Resolve(env, ty))
    ensures var t := Resolve(env, ty);
      && LeafTyped(t, v) && LeafTyped(t, w)
      && (Less(env, ty, v, w) <==> LeafLess(t, v, w)) && (Equal(env, ty, v, w) <==> v == w)
  {
    hide LeafLess;
  }

  /** Exactly one of v < w, v == w and w < v holds. */
  lemma {:induction false} Trichotomy(env: Env, ty: Ty, v: Val, w: Val)
    requires Plain(env, ty, v) && Plain(env, ty, w)
    ensures v == w ==> !Less(env, ty, v, w) && !Less(env, ty, w, v)
    ensures v != w ==> (Less(env, ty, v, w) <==> !Less(env, ty, w, v))
    decreases Nodes(v) + Nodes(w), 0
  {
    hide Less, Equal, LexLess, AllEqual, Plain, AllPlain, ChildTys, LeafLess, LeafTyped, Nodes, NodesAll, Resolve;
    var t := Resolve(env, ty);
    if Leaf(t) {
      LeafPlain(env, ty, v, w);
      LeafPlain(env, ty, w, v);
      LeafTrichotomy(t, v, w);
    } else {
      LessStep(env, ty, v, w);
      LessStep(env, ty, w, v);
      if t.TUnion? && v.tag != w.tag {
        TagInjective(t.kind, v.tag, w.tag);
      } else {
        LexTrichotomy(env, Common(t, v, w), Kids(v), Kids(w));
      }
    }
  }

  lemma {:induction false} LexTrichotomy(env: Env, tys: seq<Ty>, vs: seq<Val>, ws: seq<Val>)
    requires AllPlain(env, tys, vs) && AllPlain(env, tys, ws)
    ensures vs == ws ==> !LexLess(env, tys, vs, ws) && !LexLess(env, tys, ws, vs)
    ensures vs != ws ==> (LexLess(env, tys, vs, ws) <==> !LexLess(env, tys, ws, vs))
    decreases NodesAll(vs) + NodesAll(ws), 1
  {
    hide Less, Plain, Nodes;
    if vs != [] && ws != [] {
      Trichotomy(env, tys[0], vs[0], ws[0]);
      LexTrichotomy(env, tys[1..], vs[1..], ws[1..]);
      assert vs == [vs[0]] + vs[1..] && ws == [ws[0]] + ws[1..];
    }
  }

  /** operator== is equality. */
  lemma {:induction false} EqualExact(env: Env, ty: Ty, v: Val, w: Val)
    requires Plain(env, ty, v) && Plain(env, ty, w)
    ensures Equal(env, ty, v, w) <==> v == w
    decreases Nodes(v) + Nodes(w), 0
  {
    hide Less, Equal, LexLess, AllEqual, Plain, AllPlain, ChildTys, LeafLess, LeafTyped, Nodes, NodesAll, Resolve;
    var t := Resolve(env, ty);
    if Leaf(t) {
      LeafPlain(env, ty, v, w);
    } else {
      LessStep(env, ty, v, w);
      if (t.TUnion? ==> v.tag == w.tag) && |Kids(v)| == |Kids(w)| {
        AllEqualExact(env, Common(t, v, w), Kids(v), Kids(w));
      }
    }
  }

  lemma {:induction false} AllEqualExact(env: Env, tys: seq<Ty>, vs: seq<Val>, ws: seq<Val>)
    requires AllPlain(env, tys, vs) && AllPlain(env, tys, ws) && |vs| == |ws|
    ensures AllEqual(env, tys, vs, ws) <==> vs == ws
    decreases NodesAll(vs) + NodesAll(ws), 1
  {
    hide Equal, Plain;
    if vs != [] {
      EqualExact(env, tys[0], vs[0], ws[0]);
      AllEqualExact(env, tys[1..], vs[1..], ws[1..]);
      assert vs == [vs[0]] + vs[1..] && ws == [ws[0]] + ws[1..];
    }
  }

  lemma {:induction false} LexPrefix(env: Env, tys: seq<Ty>, more: seq<Ty>, vs: seq<Val>, ws: seq<Val>)
    requires |vs| <= |tys| && |ws| <= |tys| && tys <= more
    ensures LexLess(env, tys, vs, ws) <==> LexLess(env, more, vs, ws)
    decreases vs
  {
    hide Less;
    if vs != [] && ws != [] {
      LexPrefix(env, tys[1..], more[1..], vs[1..], ws[1..]);
    }
  }

  lemma LexAt(env: Env, t: Ty, v: Val, w: Val, n: nat)
    requires n == Max(LeadOf(v), LeadOf(w)) || (!t.TUnion? && n >= Max(LeadOf(v), LeadOf(w)))
    requires |Kids(v)| <= |Common(t, v, w)| && |Kids(w)| <= |Common(t, v, w)|
    ensures LexLess(env, Common(t, v, w), Kids(v), Kids(w)) <==> LexLess(env, ChildTys(t, n), Kids(v), Kids(w))
  {
    hide LexLess;
    LexPrefix(env, Common(t, v, w), ChildTys(t, n), Kids(v), Kids(w));
  }

  lemma {:induction false} LexTransitive(env: Env, tys: seq<Ty>, us: seq<Val>, vs: seq<Val>, ws: seq<Val>)
    requires AllPlain(env, tys, us) && AllPlain(env, tys, vs) && AllPlain(env, tys, ws)
    requires LexLess(env, tys, us, vs) && LexLess(env, tys, vs, ws)
    ensures LexLess(env, tys, us, ws)
    decreases NodesAll(us) + NodesAll(vs) + NodesAll(ws), 1
  {
    hide Less, Plain;
    if us != [] {
      Trichotomy(env, tys[0], us[0], vs[0]);
      Trichotomy(env, tys[0], vs[0], ws[0]);
      Trichotomy(env, tys[0], us[0], ws[0]);
      if Less(env, tys[0], us[0], vs[0]) && Less(env, tys[0], vs[0], ws[0]) {
        Transitive(env, tys[0], us[0], vs[0], ws[0]);
      } else if us[0] == vs[0] == ws[0] {
        LexTransitive(env, tys[1..], us[1..], vs[1..], ws[1..]);
      }
    }
  }

  /** operator< is transitive. */
  lemma {:induction false} Transitive(env: Env, ty: Ty, u: Val, v: Val, w: Val)
    requires Plain(env, ty, u) && Plain(env, ty, v) && Plain(env, ty, w)
    requires Less(env, ty, u, v) && Less(env, ty, v, w)
    ensures Less(env, ty, u, w)
    decreases Nodes(u) + Nodes(v) + Nodes(w), 0
  {
    hide Less, Equal, LexLess, AllEqual, Plain, AllPlain, ChildTys, LeafLess, LeafTyped, Nodes, NodesAll, Resolve;
    hide TagValue;
    var t := Resolve(env, ty);
    if Leaf(t) {
      LeafPlain(env, ty, u, v);
      LeafPlain(env, ty, v, w);
      LeafPlain(env, ty, u, w);
      LeafTransitive(t, u, v, w);
    } else {
      LessStep(env, ty, u, v);
      LessStep(env, ty, v, w);
      LessStep(env, ty, u, w);
      if t.TUnion? && !(u.tag == v.tag == w.tag) {
        TagInjective(t.kind, u.tag, w.tag);
        TagInjective(t.kind, u.tag, v.tag);
        TagInjective(t.kind, v.tag, w.tag);
      } else {
        var n := Max(Max(LeadOf(u), LeadOf(v)), LeadOf(w));
        var tys := ChildTys(t, n);
        KidsPlain(env, ty, u, n);
        KidsPlain(env, ty, v, n);
        KidsPlain(env, ty, w, n);
        LexAt(env, t, u, v, n);
        LexAt(env, t, v, w, n);
        LexAt(env, t, u, w, n);
        LexTransitive(env, tys, Kids(u), Kids(v), Kids(w));
      }
    }
  }

  /** Exactly the equal values are incomparable. */
  lemma Incomparable(env: Env, ty: Ty, v: Val, w: Val)
    requires Plain(env, ty, v) && Plain(env, ty, w)
    ensures Equal(env, ty, v, w) <==> !Less(env, ty, v, w) && !Less(env, ty, w, v)
  {
    hide *;
    Trichotomy(env, ty, v, w);
    EqualExact(env, ty, v, w);
  }

  lemma Irreflexive(env: Env, ty: Ty, v: Val)
    requires Plain(env, ty, v)
    ensures !Less(env, ty, v, v)
  {
    hide *;
    Trichotomy(env, ty, v, v);
  }

  /** The main result: operator< is a strict total order whose incomparability is operator==. */
  lemma StrictTotalOrder(env: Env, ty: Ty, u: Val, v: Val, w: Val)
    requires Plain(env, ty, u) && Plain(env, ty, v) && Plain(env, ty, w)
    ensures !Less(env, ty, v, v)
    ensures Less(env, ty, u, v) && Less(env, ty, v, w) ==> Less(env, ty, u, w)
    ensures Equal(env, ty, v, w) <==> !Less(env, ty, v, w) && !Less(env, ty, w, v)
  {
    hide *;
    Irreflexive(env, ty, v);
    Incomparable(env, ty, v, w);
    if Less(env, ty, u, v) && Less(env, ty, v, w) {
      Transitive(env, ty, u, v, w);
    }
  }

  /** Values are equal under operator== exactly if their encodings are. */
  lemma EqualEncodings(env: Env, ty: Ty, v: Val, w: Val)
    requires Plain(env, ty, v) && Plain(env, ty, w)
    ensures Equal(env, ty, v, w) <==> Enc(env, ty, v) == Enc(env, ty, w)
  {
    hide Equal, Enc, Typed, NoFloat, CleanEnv;
    EqualExact(env, ty, v, w);
    if Enc(env, ty, v) == Enc(env, ty, w) {
      PrefixFree(env, ty, v, w, [], []);
    }
  }
}
