/** The XDR codec (types.h, marshal.h, marshal.cc; RFC 4506): a deep embedding of the types the compiler
    generates, and the format as two functions on values, with the theorems that relate them. */
module Xdr {
  import opened Endian
  import opened Wrappers
  import opened UnionGen

  datatype Num = Signed | Unsigned | Floating
  datatype TagKind = TagInt | TagUint | TagBool

  /** Enums are signed words; strings and opaque vectors are TBytes. TRef stands only for a recursive
      occurrence of a struct or union. */
  datatype Ty =
    | TWord(num: Num)
    | THyper(num: Num)
    | TBool
    | TOpaque(n: nat)
    | TBytes(max: nat)
    | TArray(n: nat, elem: Ty)
    | TVector(max: nat, elem: Ty)
    | TPointer(elem: Ty)
    | TStruct(fields: seq<Ty>)
    | TUnion(kind: TagKind, arms: seq<Spec<Ty>>)
    | TRef(name: nat)

  /** Numbers are kept as raw words; a set pointer holds one value; the body of a union is empty
      or the one live field. */
  datatype Val =
    | VWord(w: u32)
    | VHyper(h: u64)
    | VBool(b: bool)
    | VBytes(s: seq<byte>)
    | VSeq(vs: seq<Val>)
    | VUnion(tag: u32, body: seq<Val>)

  /** The struct or union that each name stands for. */
  type Env = map<nat, Ty>

  function Resolve(env: Env, ty: Ty): (t: Ty)
    ensures !t.TRef?
  {
    if !ty.TRef? then ty
    else if ty.name in env && (env[ty.name].TStruct? || env[ty.name].TUnion?) then env[ty.name]
    else TStruct([])  // never declared, which the compiler rejects
  }

  /** The types marshaled without going one level deeper. */
  predicate Leaf(t: Ty) {
    t.TWord? || t.THyper? || t.TBool? || t.TOpaque? || t.TBytes?
  }

  function Rep(t: Ty, n: nat): (r: seq<Ty>)
    ensures |r| == n && forall i | 0 <= i < n :: r[i] == t
  {
    if n == 0 then [] else [t] + Rep(t, n - 1)
  }

  /** Two's complement. */
  function SignedOf(w: u32): (i: int)
    ensures -0x8000_0000 <= i < 0x8000_0000 && (i == w || i == w - WORD)
  {
    if w < 0x8000_0000 then w else w - WORD
  }

  function TagValue(kind: TagKind, tag: u32): int {
    if kind == TagInt then SignedOf(tag) else tag
  }

  /** The types inside a container or class, given the word that opens it: the number of
      elements, or the discriminant. */
  function ChildTys(t: Ty, lead: nat): seq<Ty> {
    match t
    case TArray(n, elem) => Rep(elem, n)
    case TVector(_, elem) => Rep(elem, lead)
    case TPointer(elem) => Rep(elem, lead)
    case TStruct(fields) => fields
    case TUnion(kind, arms) =>
      if lead >= WORD then []
      else (
        match Active(arms, TagValue(kind, lead))
        case Some(i) => [arms[i].body.value]
        case None => []
      )
    case _ => []
  }

  function Kids(v: Val): seq<Val> {
    match v
    case VSeq(vs) => vs
    case VUnion(_, body) => body
    case _ => []
  }

  function LeadOf(v: Val): nat {
    match v
    case VSeq(vs) => |vs|
    case VUnion(tag, _) => tag
    case _ => 0
  }

  // ---- well-typed values -----------------------------------------------------

  predicate LeafTyped(t: Ty, v: Val) {
    match t
    case TWord(_) => v.VWord?
    case THyper(_) => v.VHyper?
    case TBool => v.VBool?
    case TOpaque(n) => v.VBytes? && |v.s| == n
    case TBytes(_) => v.VBytes? && |v.s| < WORD
    case _ => false
  }

  predicate ShapeTyped(t: Ty, v: Val) {
    match t
    case TArray(n, _) => v.VSeq? && |v.vs| == n
    case TVector(_, _) => v.VSeq? && |v.vs| < WORD
    case TPointer(_) => v.VSeq? && |v.vs| <= 1
    case TStruct(fields) => v.VSeq?
    case TUnion(kind, _) => v.VUnion? && (kind == TagBool ==> v.tag <= 1)
    case _ => false
  }

  /** `v` can be held by a C++ object of type `ty`. The declared bounds do not restrict it, and
      a union may have a discriminant without an arm. */
  predicate Typed(env: Env, ty: Ty, v: Val)
    decreases v
  {
    var t := Resolve(env, ty);
    if Leaf(t) then LeafTyped(t, v)
    else ShapeTyped(t, v) && AllTyped(env, ChildTys(t, LeadOf(v)), Kids(v))
  }

  predicate AllTyped(env: Env, tys: seq<Ty>, vs: seq<Val>)
    decreases vs
  {
    && |tys| == |vs|
    && (vs != [] ==> Typed(env, tys[0], vs[0]) && AllTyped(env, tys[1..], vs[1..]))
  }

  predicate LeafWithin(bounds: bool, t: Ty, v: Val) {
    t.TBytes? && v.VBytes? && bounds ==> |v.s| <= t.max
  }

  predicate LeadWithin(bounds: bool, t: Ty, lead: nat) {
    match t
    case TVector(max, _) => bounds ==> lead <= max
    case TPointer(_) => bounds ==> lead <= 1
    case TUnion(kind, arms) => lead < WORD && Select(arms, TagValue(kind, lead)).Some?
    case _ => true
  }

  /** Every union in `v` has an arm for its discriminant and, if `bounds`, every string and vector
      is within its declared maximum. */
  predicate Within(env: Env, bounds: bool, ty: Ty, v: Val)
    requires Typed(env, ty, v)
    decreases v
  {
    var t := Resolve(env, ty);
    if Leaf(t) then LeafWithin(bounds, t, v)
    else LeadWithin(bounds, t, LeadOf(v)) && AllWithin(env, bounds, ChildTys(t, LeadOf(v)), Kids(v))
  }

  predicate AllWithin(env: Env, bounds: bool, tys: seq<Ty>, vs: seq<Val>)
    requires AllTyped(env, tys, vs)
    decreases vs
  {
    vs != [] ==> Within(env, bounds, tys[0], vs[0]) && AllWithin(env, bounds, tys[1..], vs[1..])
  }

  function Max(a: nat, b: nat): nat {
    if a < b then b else a
  }

  /** How many containers and classes are nested in each other. */
  function Depth(v: Val): nat
    decreases v
  {
    if v.VSeq? then 1 + MaxDepth(v.vs)
    else if v.VUnion? then 1 + MaxDepth(v.body)
    else 0
  }

  function MaxDepth(vs: seq<Val>): nat
    decreases vs
  {
    if vs == [] then 0 else Max(Depth(vs[0]), MaxDepth(vs[1..]))
  }

  // ---- encoding --------------------------------------------------------------

  function Pad(n: nat): (p: nat)
    ensures p < 4 && (n + p) % 4 == 0
  {
    (4 - n % 4) % 4
  }

  function Zeros(n: nat): (z: seq<byte>)
    ensures |z| == n && forall i | 0 <= i < n :: z[i] == 0
  {
    if n == 0 then [] else [0] + Zeros(n - 1)
  }

  function Padded(s: seq<byte>): (r: seq<byte>)
    ensures |r| % 4 == 0 && |r| == |s| + Pad(|s|)
  {
    s + Zeros(Pad(|s|))
  }

  function EncLeaf(t: Ty, v: Val): seq<byte>
    requires LeafTyped(t, v)
  {
    match t
    case TWord(_) => BigEndian(v.w)
    case THyper(_) => BigEndian64(v.h)
    case TBool => BigEndian(if v.b then 1 else 0)
    case TOpaque(_) => Padded(v.s)
    case TBytes(_) => BigEndian(|v.s|) + Padded(v.s)
  }

  /** Only a variable number of elements and a discriminant are marshaled in front of the rest. */
  predicate Leads(t: Ty) {
    t.TVector? || t.TPointer? || t.TUnion?
  }

  function EncLead(t: Ty, lead: nat): (s: seq<byte>)
    requires Leads(t) ==> lead < WORD
    ensures |s| == if Leads(t) then 4 else 0
  {
    if Leads(t) then BigEndian(lead) else []
  }

  function Enc(env: Env, ty: Ty, v: Val): seq<byte>
    requires Typed(env, ty, v)
    decreases v
  {
    var t := Resolve(env, ty);
    if Leaf(t) then EncLeaf(t, v)
    else EncLead(t, LeadOf(v)) + EncAll(env, ChildTys(t, LeadOf(v)), Kids(v))
  }

  function EncAll(env: Env, tys: seq<Ty>, vs: seq<Val>): seq<byte>
    requires AllTyped(env, tys, vs)
    decreases vs
  {
    if vs == [] then [] else Enc(env, tys[0], vs[0]) + EncAll(env, tys[1..], vs[1..])
  }

  // ---- decoding --------------------------------------------------------------

  /** The exceptions; NotCanonical is thrown by the strict decoder alone. */
  datatype Error = Overflow | StackOverflow | BadDiscriminant | ShouldBeZero | BadMessageSize | NotCanonical

  datatype Result<+T> = Ok(value: T) | Throws(error: Error)

  datatype Decoded<+T> = Done(value: T, rest: seq<byte>) | Failed(error: Error)

  function GetWord(s: seq<byte>): Decoded<u32>
  {
    if |s| < 4 then Failed(Overflow) else Done(FromBigEndian(s[..4]), s[4..])
  }

  function GetHyper(s: seq<byte>): Decoded<u64>
  {
    if |s| < 8 then Failed(Overflow)
    else
      var hi: int := FromBigEndian(s[..4]);
      Done(hi * WORD + FromBigEndian(s[4..8]), s[8..])
  }

  /** get_bytes(). The code checks only that `n` bytes are left; where the buffer ends on a word, the
      padding is then there too. */
  function GetBytes(s: seq<byte>, n: nat): Decoded<seq<byte>>
  {
    var m := n + Pad(n);
    if m > |s| then Failed(Overflow)
    else if forall i | n <= i < m :: s[i] == 0 then Done(s[..n], s[m..])
    else Failed(ShouldBeZero)
  }

  function DecLeaf(strict: bool, t: Ty, s: seq<byte>): Decoded<Val>
    requires Leaf(t)
  {
    match t
    case TWord(_) => (
      match GetWord(s)
      case Failed(e) => Failed(e)
      case Done(w, r) => Done(VWord(w), r)
    )
    case THyper(_) => (
      match GetHyper(s)
      case Failed(e) => Failed(e)
      case Done(h, r) => Done(VHyper(h), r)
    )
    case TBool => (
      match GetWord(s)
      case Failed(e) => Failed(e)
      case Done(w, r) => if strict && w > 1 then Failed(NotCanonical) else Done(VBool(w != 0), r)
    )
    case TOpaque(n) => (
      match GetBytes(s, n)
      case Failed(e) => Failed(e)
      case Done(b, r) => Done(VBytes(b), r)
    )
    case TBytes(max) =>
      match GetWord(s)
      case Failed(e) => Failed(e)
      case Done(n, r) =>
        if n > |r| || n > max then Failed(Overflow)
        else (
          match GetBytes(r, n)
          case Failed(e) => Failed(e)
          case Done(b, r) => Done(VBytes(b), r)
        )
  }

  /** The number of elements or the discriminant, once accepted. */
  function DecLead(strict: bool, t: Ty, s: seq<byte>): Decoded<nat>
  {
    match t
    case TArray(n, _) => Done(n, s)
    case TStruct(fields) => Done(|fields|, s)
    case TVector(max, _) => (
      match GetWord(s)
      case Failed(e) => Failed(e)
      case Done(n, r) => if n > max then Failed(Overflow) else Done(n, r)
    )
    case TPointer(_) => (
      match GetWord(s)
      case Failed(e) => Failed(e)
      case Done(n, r) => if n > 1 then Failed(Overflow) else Done(n, r)
    )
    case TUnion(kind, arms) => (
      match GetWord(s)
      case Failed(e) => Failed(e)
      case Done(w, r) =>
        if strict && kind == TagBool && w > 1 then Failed(NotCanonical)
        else
          var tag := if kind == TagBool && w != 0 then 1 else w;
          if Select(arms, TagValue(kind, tag)) == None then Failed(BadDiscriminant) else Done(tag, r)
    )
    case _ => Failed(Overflow)
  }

  function Build(t: Ty, lead: nat, vs: seq<Val>): Val {
    if t.TUnion? && lead < WORD then VUnion(lead, vs) else VSeq(vs)
  }

  /** What xdr_generic_get does to the bytes that are left, with `limit` levels to go. The strict
      decoder differs in taking only 0 and 1 for a bool. */
  function Dec(env: Env, strict: bool, ty: Ty, s: seq<byte>, limit: nat): Decoded<Val>
    decreases limit, 0, 0
  {
    var t := Resolve(env, ty);
    if Leaf(t) then DecLeaf(strict, t, s)
    else if limit == 0 then Failed(StackOverflow)
    else match DecLead(strict, t, s)
      case Failed(e) => Failed(e)
      case Done(lead, r) =>
        match DecAll(env, strict, ChildTys(t, lead), r, limit - 1)
        case Failed(e) => Failed(e)
        case Done(vs, r) => Done(Build(t, lead, vs), r)
  }

  function DecAll(env: Env, strict: bool, tys: seq<Ty>, s: seq<byte>, limit: nat): Decoded<seq<Val>>
    decreases limit, 1, |tys|
  {
    if tys == [] then Done([], s)
    else match Dec(env, strict, tys[0], s, limit)
      case Failed(e) => Failed(e)
      case Done(v, r) =>
        match DecAll(env, strict, tys[1..], r, limit)
        case Failed(e) => Failed(e)
        case Done(vs, r) => Done([v] + vs, r)
  }
}
