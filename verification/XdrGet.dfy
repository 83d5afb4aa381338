/** xdr_generic_get and xdr_from_msg (marshal.h, marshal.cc), with the load functions of types.h and of
    generated unions: unmarshaling into objects that may hold anything already. */
module XdrGet {
  import opened Endian
  import opened RecordMarking
  import opened UnionGen
  import opened Wrappers
  import opened Xdr
  import opened XdrLaws
  import opened XdrSize
  import XdrPut

  /** The outcome that the format prescribes, and the bytes it leaves. */
  ghost predicate Follows<T>(r: Result<T>, rest: seq<byte>, d: Decoded<T>) {
    match d
    case Done(v, left) => r == Ok(v) && rest == left
    case Failed(error) => r == Throws(error)
  }

  /** A decoder's result after `vs` have been decoded before. */
  function Prepend(vs: seq<Val>, d: Decoded<seq<Val>>): Decoded<seq<Val>> {
    match d
    case Done(ws, rest) => Done(vs + ws, rest)
    case Failed(error) => Failed(error)
  }

  lemma PrependStep(env: Env, tys: seq<Ty>, i: nat, vs: seq<Val>, s: seq<byte>, limit: nat)
    requires i < |tys|
    ensures var d := Dec(env, false, tys[i], s, limit);
      Prepend(vs, DecAll(env, false, tys[i..], s, limit)) ==
      if d.Failed? then Failed(d.error)
      else Prepend(vs + [d.value], DecAll(env, false, tys[i + 1..], d.rest, limit))
  {
    hide Dec;
    assert tys[i..][0] == tys[i] && tys[i..][1..] == tys[i + 1..];
    var d := Dec(env, false, tys[i], s, limit);
    if d.Done? {
      var ds := DecAll(env, false, tys[i + 1..], d.rest, limit);
      if ds.Done? {
        assert vs + ([d.value] + ds.value) == vs + [d.value] + ds.value;
      }
    }
  }

  /** Objects of these types; None is one that has just been constructed. */
  ghost predicate Objects(env: Env, tys: seq<Ty>, ts: seq<Option<Val>>) {
    |ts| <= |tys| && forall i | 0 <= i < |ts| && ts[i].Some? :: Typed(env, tys[i], ts[i].value)
  }

  function AsObjects(vs: seq<Val>): seq<Option<Val>> {
    seq(|vs|, i requires 0 <= i < |vs| => Some(vs[i]))
  }

  function Fresh(n: nat): seq<Option<Val>> {
    seq(n, i => None)
  }

  function Contents(ts: seq<Option<Val>>): seq<Val>
    requires forall t | t in ts :: t.Some?
  {
    seq(|ts|, i requires 0 <= i < |ts| => ts[i].value)
  }

  /** The objects that load() goes through, as the target holds them once a vector or pointer that is too
      long has been cut, and a union has changed its discriminant. */
  function Targets(t: Ty, lead: nat, target: Option<Val>): seq<Option<Val>> {
    match t
    case TVector(_, _) =>
      if target == None then []
      else if |Kids(target.value)| > lead then AsObjects(Kids(target.value)[..lead])
      else AsObjects(Kids(target.value))
    case TPointer(_) =>
      if target == None then []
      else if |Kids(target.value)| > lead then AsObjects(Kids(target.value)[..lead])
      else AsObjects(Kids(target.value))
    case TUnion(kind, arms) =>
      if target.Some? && FieldFor(arms, TagValue(kind, Word(lead)))
                      == FieldFor(arms, TagValue(kind, Word(LeadOf(target.value))))
      then AsObjects(Kids(target.value))
      else Fresh(|ChildTys(t, lead)|)
    case _ =>
      if target == None then Fresh(|ChildTys(t, lead)|) else AsObjects(Kids(target.value))
  }

  function Word(lead: nat): u32 {
    if lead < WORD then lead else 0
  }

  lemma KidsFit(env: Env, held: seq<Ty>, tys: seq<Ty>, kids: seq<Val>, n: nat)
    requires AllTyped(env, held, kids) && n <= |kids| && n <= |tys|
    requires forall i | 0 <= i < n && i < |held| :: held[i] == tys[i]
    ensures Objects(env, tys, AsObjects(kids[..n]))
  {
    hide AllTyped, Typed;
    forall i | 0 <= i < n ensures Typed(env, tys[i], kids[i]) {
      AllTypedAt(env, held, kids, i);
    }
  }

  /** A new discriminant with the old field number wants a field of the type that is there. */
  lemma SameField(t: Ty, a: u32, b: u32)
    requires t.TUnion? && FieldFor(t.arms, TagValue(t.kind, a)) == FieldFor(t.arms, TagValue(t.kind, b))
    ensures ChildTys(t, a) == ChildTys(t, b)
  {
    hide FieldFor, Active;
    SameNumber(t.arms, TagValue(t.kind, a), TagValue(t.kind, b));
  }

  lemma TargetsFit(env: Env, ty: Ty, lead: nat, target: Option<Val>)
    requires !Leaf(Resolve(env, ty)) && (Leads(Resolve(env, ty)) ==> lead < WORD)
    requires target.Some? ==> Typed(env, ty, target.value)
    ensures Objects(env, ChildTys(Resolve(env, ty), lead), Targets(Resolve(env, ty), lead, target))
  {
    hide Typed, AllTyped, Resolve;
    var t := Resolve(env, ty);
    if target.Some? {
      OldKids(env, ty, target.value);
      if t.TUnion? {
        UnionFits(env, t, lead, target.value);
      } else {
        SeqFits(env, t, lead, target.value);
      }
    }
  }

  lemma OldKids(env: Env, ty: Ty, v: Val)
    requires Typed(env, ty, v) && !Leaf(Resolve(env, ty))
    ensures var t := Resolve(env, ty); var tys := ChildTys(t, LeadOf(v));
      AllTyped(env, tys, Kids(v)) && |tys| == |Kids(v)| && ShapeTyped(t, v)
  {
  }

  lemma UnionFits(env: Env, t: Ty, lead: nat, v: Val)
    requires t.TUnion? && v.VUnion? && lead < WORD
    requires AllTyped(env, ChildTys(t, LeadOf(v)), Kids(v)) && |ChildTys(t, LeadOf(v))| == |Kids(v)|
    ensures Objects(env, ChildTys(t, lead), Targets(t, lead, Some(v)))
  {
    hide AllTyped, Typed, ChildTys, FieldFor;
    if FieldFor(t.arms, TagValue(t.kind, lead)) == FieldFor(t.arms, TagValue(t.kind, v.tag)) {
      SameField(t, lead, v.tag);
      KidsFit(env, ChildTys(t, v.tag), ChildTys(t, lead), v.body, |v.body|);
      assert v.body[..|v.body|] == v.body;
    }
  }

  lemma SeqFits(env: Env, t: Ty, lead: nat, v: Val)
    requires !Leaf(t) && !t.TUnion? && v.VSeq? && ShapeTyped(t, v)
    requires AllTyped(env, ChildTys(t, LeadOf(v)), Kids(v)) && |ChildTys(t, LeadOf(v))| == |Kids(v)|
    ensures Objects(env, ChildTys(t, lead), Targets(t, lead, Some(v)))
  {
    hide AllTyped, Typed, Objects;
    var n := if Leads(t) && |v.vs| > lead then lead else |v.vs|;
    KidsFit(env, ChildTys(t, LeadOf(v)), ChildTys(t, lead), v.vs, n);
    assert v.vs[..|v.vs|] == v.vs;
  }

  class Get {
    const bigEndian: bool
    const buf: seq<byte>
    const e: nat
    var p: nat
    var stackLimit: u32

    ghost predicate Valid()
      reads this`p
    {
      p <= e <= |buf| && p % 4 == 0 && e % 4 == 0
    }

    ghost function Rest(): seq<byte>
      requires Valid()
      reads this`p
    {
      buf[p..e]
    }

    constructor (bigEndian: bool, buf: seq<byte>, limit: u32)
      requires |buf| % 4 == 0
      ensures Valid() && this.bigEndian == bigEndian && Rest() == buf && stackLimit == limit && e == |buf|
    {
      this.bigEndian, this.buf, p, e, stackLimit := bigEndian, buf, 0, |buf|, limit;
    }

    /** get32(): loads a word in the host's order, and swaps it where that is little-endian. */
    method Get32() returns (v: u32)
      requires Valid() && p + 4 <= e
      modifies this`p
      ensures Valid() && GetWord(old(Rest())) == Done(v, Rest())
    {
      hide Endian.BigEndian, FromBigEndian, Swap32;
      NetworkOrderLoad(bigEndian, buf[p..p + 4]);
      v := Swap32le(bigEndian, Load(bigEndian, buf[p..p + 4]));
      assert Rest()[..4] == buf[p..p + 4];
      p := p + 4;
      assert old(Rest())[4..] == Rest();
    }

    /** get64(). */
    method Get64() returns (h: u64)
      requires Valid() && p + 8 <= e
      modifies this`p
      ensures Valid() && GetHyper(old(Rest())) == Done(h, Rest())
    {
      hide Endian.BigEndian, FromBigEndian, Swap32;
      var first := Get32();
      assert old(Rest())[4..8] == Rest()[..4];
      var second := Get32();
      var u0, u1 := if bigEndian then first else second, if bigEndian then second else first;
      var hi, lo: int := if bigEndian then u0 else u1, if bigEndian then u1 else u0;
      h := hi * WORD + lo;
      assert old(Rest())[8..] == Rest();
    }

    /** The while loop of get_bytes(): the padding must be zeros. */
    method GetPadding(n: nat) returns (ok: bool, len: nat)
      requires Valid() && n + Pad(n) <= e - p
      ensures len <= n + Pad(n)
      ensures ok <==> forall i | n <= i < n + Pad(n) :: Rest()[i] == 0
      ensures ok ==> len == n + Pad(n)
    {
      hide Pad;
      ghost var rest := Rest();
      len := n;
      while len % 4 != 0
        invariant n <= len <= n + Pad(n)
        invariant forall i | n <= i < len :: rest[i] == 0
        decreases n + Pad(n) - len
      {
        XdrPut.NoPadYet(n, len);
        assert rest[len] == buf[p + len];
        if buf[p + len] != 0 {
          assert Rest()[len] != 0;
          return false, len;
        }
        len := len + 1;
      }
      XdrPut.PadDone(n, len);
      return true, len;
    }

    /** get_bytes(): copies over the whole target, and insists on zeros as padding. */
    method GetData(target: seq<byte>) returns (r: Result<seq<byte>>)
      requires Valid() && p + |target| <= e
      modifies this`p
      ensures Valid() && Follows(r, Rest(), GetBytes(old(Rest()), |target|))
    {
      XdrPut.PaddingFits(e - p, |target|);
      if |target| == 0 {
        assert Rest()[..0] == [] && Rest()[0..] == Rest() && target == [];
        return Ok(target);
      }
      var copied := buf[p..p + |target|];
      var ok, len := GetPadding(|target|);
      if !ok {
        return Throws(ShouldBeZero);
      }
      assert Rest()[..|target|] == copied;
      p := p + len;
      assert old(Rest())[len..] == Rest();
      return Ok(copied);
    }

    /** operator() for a number or a bool: the target is overwritten. */
    method GetLeaf(t: Ty, target: Option<Val>) returns (r: Result<Val>)
      requires Valid() && Leaf(t) && (target.Some? ==> LeafTyped(t, target.value))
      modifies this`p
      ensures Valid() && Follows(r, Rest(), DecLeaf(false, t, old(Rest())))
    {
      hide GetWord, GetHyper, GetBytes;
      match t
      case TWord(_) =>
        if 4 > e - p {
          Short(old(Rest()));
          return Throws(Overflow);
        }
        var w := Get32();
        r := Ok(VWord(w));
      case THyper(_) =>
        if 8 > e - p {
          Short(old(Rest()));
          return Throws(Overflow);
        }
        var h := Get64();
        r := Ok(VHyper(h));
      case TBool =>
        if 4 > e - p {
          Short(old(Rest()));
          return Throws(Overflow);
        }
        var w := Get32();
        r := Ok(VBool(w != 0));
      case TOpaque(n) => r := GetOpaque(n, if target == None then Zeros(n) else target.value.s);
      case TBytes(max) => r := GetString(max, if target == None then [] else target.value.s);
    }

    method GetOpaque(n: nat, target: seq<byte>) returns (r: Result<Val>)
      requires Valid() && |target| == n
      modifies this`p
      ensures Valid() && Follows(r, Rest(), DecLeaf(false, TOpaque(n), old(Rest())))
    {
      XdrPut.PaddingFits(e - p, n);
      if |target| > e - p {
        return Throws(Overflow);
      }
      hide GetBytes;
      var b := GetData(target);
      return if b.Ok? then Ok(VBytes(b.value)) else Throws(b.error);
    }

    /** The target is resized, which throws if that exceeds its declared maximum, and overwritten. */
    method GetString(max: nat, target: seq<byte>) returns (r: Result<Val>)
      requires Valid()
      modifies this`p
      ensures Valid() && Follows(r, Rest(), DecLeaf(false, TBytes(max), old(Rest())))
    {
      hide GetWord, GetBytes;
      if 4 > e - p {
        Short(old(Rest()));
        return Throws(Overflow);
      }
      var size := Get32();
      if size > e - p || size > max {
        return Throws(Overflow);
      }
      var resized := if size <= |target| then target[..size] else target + Zeros(size - |target|);
      var b := GetData(resized);
      return if b.Ok? then Ok(VBytes(b.value)) else Throws(b.error);
    }

    /** operator() for any type. Whatever the target held before, the outcome is the one the format
        prescribes, and the limit is restored if it is a value. */
    method GetValue(env: Env, ty: Ty, target: Option<Val>) returns (r: Result<Val>)
      requires Valid() && (target.Some? ==> Typed(env, ty, target.value))
      modifies this`p, this`stackLimit
      ensures Valid() && Follows(r, Rest(), Dec(env, false, ty, old(Rest()), old(stackLimit)))
      ensures r.Ok? ==> stackLimit == old(stackLimit)
      decreases stackLimit, 0
    {
      hide Dec, DecAll, Typed, AllTyped, DecLeaf, DecLead;
      var t := Resolve(env, ty);
      if Leaf(t) {
        LeafGet(env, ty, target, Rest(), stackLimit);
        r := GetLeaf(t, target);
      } else {
        DecNodeError(env, ty, Rest(), stackLimit);
        if stackLimit == 0 {
          stackLimit := 0xffff_ffff;
          return Throws(StackOverflow);
        }
        stackLimit := stackLimit - 1;
        r := LoadInto(env, ty, target);
        if r.Ok? {
          stackLimit := stackLimit + 1;
        }
      }
    }

    /** xdr_traits<T>::load(). */
    method LoadInto(env: Env, ty: Ty, target: Option<Val>) returns (r: Result<Val>)
      requires Valid() && !Leaf(Resolve(env, ty)) && (target.Some? ==> Typed(env, ty, target.value))
      modifies this`p, this`stackLimit
      ensures Valid() && Follows(r, Rest(), Dec(env, false, ty, old(Rest()), old(stackLimit) + 1))
      ensures r.Ok? ==> stackLimit == old(stackLimit)
      decreases stackLimit, 3
    {
      hide Dec, DecAll, Typed, AllTyped, DecLead, ChildTys, Targets, Build, Resolve, Leaf, Leads, Objects;
      var t := Resolve(env, ty);
      DecNodeError(env, ty, Rest(), stackLimit + 1);
      var lead := GetLead(t);
      if lead.Throws? {
        return Throws(lead.error);
      }
      TargetsFit(env, ty, lead.value, target);
      var vs := LoadAll(env, ChildTys(t, lead.value), Targets(t, lead.value, target));
      return if vs.Ok? then Ok(Build(t, lead.value, vs.value)) else Throws(vs.error);
    }

    /** The number of elements, which must be in bounds, or the discriminant, which must have an arm. */
    method GetLead(t: Ty) returns (r: Result<nat>)
      requires Valid() && !Leaf(t) && !t.TRef?
      modifies this`p
      ensures Valid() && Follows(r, Rest(), DecLead(false, t, old(Rest())))
      ensures r.Ok? && Leads(t) ==> r.value < WORD
    {
      hide GetWord, Select;
      if !Leads(t) {
        return Ok(if t.TArray? then t.n else |t.fields|);
      }
      if 4 > e - p {
        Short(old(Rest()));
        return Throws(Overflow);
      }
      var w := Get32();
      match t
      case TVector(max, _) =>
        return if w > max then Throws(Overflow) else Ok(w);
      case TPointer(_) =>
        return if w > 1 then Throws(Overflow) else Ok(w);
      case TUnion(kind, arms) =>
        var which := if kind == TagBool && w != 0 then 1 else w;
        return if FieldFor(arms, TagValue(kind, which)) < 0 then Throws(BadDiscriminant) else Ok(which);
    }

    /** The elements, fields or arguments, one after the other, each into the object that is there;
        extend_at() appends one where there is none yet. */
    method LoadAll(env: Env, tys: seq<Ty>, targets: seq<Option<Val>>) returns (r: Result<seq<Val>>)
      requires Valid() && Objects(env, tys, targets)
      modifies this`p, this`stackLimit
      ensures Valid() && Follows(r, Rest(), DecAll(env, false, tys, old(Rest()), old(stackLimit)))
      ensures r.Ok? ==> stackLimit == old(stackLimit)
      decreases stackLimit, 2
    {
      hide Dec, DecAll, Typed;
      var ts := targets;
      ghost var vs: seq<Val> := [];
      assert tys[0..] == tys;
      PrependNothing(DecAll(env, false, tys, Rest(), stackLimit));
      for i := 0 to |tys|
        invariant Valid() && stackLimit == old(stackLimit) && Objects(env, tys, ts)
        invariant |vs| == i <= |ts| && forall j | 0 <= j < i :: ts[j] == Some(vs[j])
        invariant DecAll(env, false, tys, old(Rest()), stackLimit)
          == Prepend(vs, DecAll(env, false, tys[i..], Rest(), stackLimit))
      {
        PrependStep(env, tys, i, vs, Rest(), stackLimit);
        if i == |ts| {
          ts := ts + [None];
        }
        ghost var before := Rest();
        var v := GetValue(env, tys[i], ts[i]);
        if v.Throws? {
          return Throws(v.error);
        }
        DecSound(env, false, tys[i], before, stackLimit);
        ts := ts[i := Some(v.value)];
        vs := vs + [v.value];
      }
      assert ts[..] == AsObjects(vs);
      assert Contents(ts) == vs;
      assert tys[|tys|..] == [];
      AllNil(env, false, Rest(), stackLimit);
      assert vs + [] == vs;
      return Ok(Contents(ts));
    }
  }

  lemma PrependNothing(d: Decoded<seq<Val>>)
    ensures Prepend([], d) == d
  {
    if d.Done? {
      assert [] + d.value == d.value;
    }
  }

  lemma LeafGet(env: Env, ty: Ty, target: Option<Val>, s: seq<byte>, limit: nat)
    requires Leaf(Resolve(env, ty)) && (target.Some? ==> Typed(env, ty, target.value))
    ensures Dec(env, false, ty, s, limit) == DecLeaf(false, Resolve(env, ty), s)
    ensures target.Some? ==> LeafTyped(Resolve(env, ty), target.value)
  {
  }

  /** Where decoding a container or class goes wrong. */
  lemma DecNodeError(env: Env, ty: Ty, s: seq<byte>, limit: nat)
    requires !Leaf(Resolve(env, ty))
    ensures var t, d := Resolve(env, ty), DecLead(false, Resolve(env, ty), s);
      Dec(env, false, ty, s, limit) ==
      if limit == 0 then Failed(StackOverflow)
      else if d.Failed? then Failed(d.error)
      else
        var ds := DecAll(env, false, ChildTys(t, d.value), d.rest, limit - 1);
        if ds.Failed? then Failed(ds.error) else Done(Build(t, d.value, ds.value), ds.rest)
  {
  }

  lemma Short(s: seq<byte>)
    ensures |s| < 4 ==> GetWord(s) == Failed(Overflow)
    ensures |s| < 8 ==> GetHyper(s) == Failed(Overflow)
  {
  }

  /** What a whole message means for a list of types. */
  function Received(env: Env, tys: seq<Ty>, m: seq<byte>, limit: nat): Result<seq<Val>> {
    if |m| % 4 != 0 then Throws(BadMessageSize)
    else match DecAll(env, false, tys, m, limit)
      case Failed(error) => Throws(error)
      case Done(vs, rest) => if rest == [] then Ok(vs) else Throws(BadMessageSize)
  }

  /** xdr_from_msg(). */
  method FromMsg(bigEndian: bool, env: Env, tys: seq<Ty>, targets: seq<Option<Val>>, m: seq<byte>, limit: u32)
    returns (r: Result<seq<Val>>)
    requires |targets| == |tys| && Objects(env, tys, targets)
    ensures r == Received(env, tys, m, limit)
  {
    hide DecAll, Objects;
    if |m| % 4 != 0 {
      return Throws(BadMessageSize);
    }
    var get := new Get(bigEndian, m, limit);
    r := get.LoadAll(env, tys, targets);
    if r.Ok? && get.p != get.e {
      return Throws(BadMessageSize);
    }
  }

  /** A message that xdr_to_msg() made of some values is received as just these, under the reader's limit,
      exactly if they are within their declared bounds, which the writer did not check. */
  lemma MessageRound(env: Env, tys: seq<Ty>, vs: seq<Val>, limit: nat)
    requires AllTyped(env, tys, vs)
    ensures var r := Received(env, tys, EncAll(env, tys, vs), limit);
      if AllWithin(env, true, tys, vs) && MaxDepth(vs) <= limit then r == Ok(vs) else r.Throws?
  {
    hide DecAll, EncAll, AllWithin, MaxDepth, AllTyped;
    var m := EncAll(env, tys, vs);
    AllAligned(env, tys, vs);
    DecEncAll(env, false, tys, vs, [], limit);
    assert m + [] == m;
  }

  /** From values to a record and back, between hosts of either byte order, into objects in any state. */
  method Transmit(senderBig: bool, receiverBig: bool, env: Env, tys: seq<Ty>, vs: seq<Val>,
                  targets: seq<Option<Val>>, sendLimit: u32, receiveLimit: u32)
    returns (sent: Result<Message>, received: Option<Result<seq<Val>>>)
    requires AllTyped(env, tys, vs) && |targets| == |tys| && Objects(env, tys, targets)
    requires AllWithin(env, false, tys, vs) ==> |EncAll(env, tys, vs)| < LAST_FRAGMENT
    ensures sent.Ok? <==> AllWithin(env, false, tys, vs) && MaxDepth(vs) <= sendLimit
    ensures received.Some? <==> sent.Ok?
    ensures sent.Ok? ==>
      if AllWithin(env, true, tys, vs) && MaxDepth(vs) <= receiveLimit then received == Some(Ok(vs))
      else received.value.Throws?
  {
    hide EncAll, AllWithin, MaxDepth, AllTyped, Objects, Received;
    sent := XdrPut.ToMsg(senderBig, env, tys, vs, sendLimit);
    received := None;
    if sent.Ok? {
      var m := sent.value.raw[4..4 + sent.value.size];
      assert m == EncAll(env, tys, vs);
      var r := FromMsg(receiverBig, env, tys, targets, m, receiveLimit);
      MessageRound(env, tys, vs, receiveLimit);
      received := Some(r);
    }
  }
}
