/** xdr_generic_put and xdr_to_msg (marshal.h, marshal.cc): marshaling into a fixed buffer. */
module XdrPut {
  import opened Endian
  import opened RecordMarking
  import opened UnionGen
  import opened Wrappers
  import opened Xdr
  import opened XdrLaws
  import opened XdrSize

  /** A buffer with `s` written into it at `at`. */
  function Splice(b: seq<byte>, at: nat, s: seq<byte>): (r: seq<byte>)
    requires at + |s| <= |b|
    ensures |r| == |b|
  {
    b[..at] + s + b[at + |s|..]
  }

  lemma SpliceMore(b: seq<byte>, at: nat, s: seq<byte>, t: seq<byte>)
    requires at + |s| + |t| <= |b|
    ensures Splice(Splice(b, at, s), at + |s|, t) == Splice(b, at, s + t)
  {
  }

  lemma ZerosMore(n: nat)
    ensures Zeros(n + 1) == Zeros(n) + [0]
  {
  }

  lemma SpliceNothing(b: seq<byte>, at: nat)
    requires at <= |b|
    ensures Splice(b, at, []) == b && Zeros(0) == [] && [] + Zeros(0) == []
  {
  }

  /** Nothing outside the buffer's free part has been touched. */
  ghost predicate Confined(before: seq<byte>, after: seq<byte>, p: nat, e: nat) {
    p <= e <= |before| == |after| && after[..p] == before[..p] && after[e..] == before[e..]
  }

  /** An attempt to marshal `s` at `from`, in the part of a buffer that ends at `e`. It succeeds exactly if
      unions have arms, the value is no deeper than allowed and there is room; each exception has its cause. */
  ghost predicate Attempt(r: Option<Error>, within: bool, shallow: bool, s: seq<byte>,
                          before: seq<byte>, from: nat, after: seq<byte>, to: nat, e: nat)
  {
    && from <= to <= e && Confined(before, after, from, e)
    && (r == None ==> within && shallow && to == from + |s| && after == Splice(before, from, s))
    && (r.Some? ==> r.value in {BadDiscriminant, StackOverflow, Overflow})
    && (r == Some(BadDiscriminant) ==> !within)
    && (r == Some(StackOverflow) ==> !shallow)
    && (r == Some(Overflow) ==> from + |s| > e)
  }

  lemma AttemptNothing(b: seq<byte>, p: nat, e: nat)
    requires p <= e <= |b|
    ensures Attempt(None, true, true, [], b, p, b, p, e)
  {
  }

  lemma AttemptFails(error: Error, within: bool, shallow: bool, s: seq<byte>, b: seq<byte>, p: nat, e: nat)
    requires p <= e <= |b|
    requires
      || (error == BadDiscriminant && !within) || (error == StackOverflow && !shallow)
      || (error == Overflow && p + |s| > e)
    ensures Attempt(Some(error), within, shallow, s, b, p, b, p, e)
  {
  }

  lemma AttemptWorks(s: seq<byte>, b: seq<byte>, p: nat, e: nat)
    requires p + |s| <= e <= |b|
    ensures Attempt(None, true, true, s, b, p, Splice(b, p, s), p + |s|, e)
  {
  }

  /** What an attempt comes to. */
  lemma AttemptMeans(r: Option<Error>, within: bool, shallow: bool, s: seq<byte>,
                     before: seq<byte>, from: nat, after: seq<byte>, to: nat, e: nat)
    requires Attempt(r, within, shallow, s, before, from, after, to, e)
    ensures r == None <==> within && shallow && from + |s| <= e
    ensures r == None ==> to == from + |s| && after == Splice(before, from, s)
  {
  }

  /** One success and a further attempt make up an attempt at both. */
  lemma AttemptMore(before: seq<byte>, from: nat, s: seq<byte>, mid: seq<byte>, p: nat, e: nat,
                    r: Option<Error>, within: bool, shallow: bool, t: seq<byte>, after: seq<byte>, to: nat)
    requires Attempt(None, true, true, s, before, from, mid, p, e)
    requires Attempt(r, within, shallow, t, mid, p, after, to, e)
    ensures Attempt(r, within, shallow, s + t, before, from, after, to, e)
  {
    assert after[..from] == after[..p][..from] == mid[..p][..from] == mid[..from];
    if r == None {
      SpliceMore(before, from, s, t);
    }
  }

  class Put {
    const bigEndian: bool      // the host's byte order
    const buf: array<byte>
    const e: nat               // the buffer's end
    var p: nat                 // where the next byte goes
    var stackLimit: u32

    ghost predicate Valid()
      reads this`p
    {
      p <= e <= buf.Length && p % 4 == 0 && e % 4 == 0
    }

    constructor (bigEndian: bool, buf: array<byte>, start: nat, end: nat, limit: u32)
      requires start <= end <= buf.Length && start % 4 == 0 && end % 4 == 0
      ensures Valid() && this.bigEndian == bigEndian && this.buf == buf && p == start && e == end && stackLimit == limit
    {
      this.bigEndian, this.buf, p, e, stackLimit := bigEndian, buf, start, end, limit;
    }

    /** put32(): stores the word in the host's order, swapped where that is little-endian. */
    method Put32(v: u32)
      requires Valid() && p + 4 <= e
      modifies this`p, buf
      ensures Valid() && p == old(p) + 4 && buf[..] == Splice(old(buf[..]), old(p), BigEndian(v))
    {
      hide Endian.BigEndian, FromBigEndian, Swap32, Store, Swap32le, Splice;
      NetworkOrder(bigEndian, v);
      var memory := Store(bigEndian, Swap32le(bigEndian, v));
      StoreWord(memory);
    }

    /** *p_++ = word, as it lies in memory. */
    method StoreWord(memory: seq<byte>)
      requires Valid() && p + 4 <= e && |memory| == 4
      modifies this`p, buf
      ensures Valid() && p == old(p) + 4 && buf[..] == Splice(old(buf[..]), old(p), memory)
    {
      buf[p], buf[p + 1], buf[p + 2], buf[p + 3] := memory[0], memory[1], memory[2], memory[3];
      p := p + 4;
      assert buf[..] == Splice(old(buf[..]), old(p), memory);
    }

    /** put64(): the halves of the number lie in memory in the host's order too. */
    method Put64(h: u64)
      requires Valid() && p + 8 <= e
      modifies this`p, buf
      ensures Valid() && p == old(p) + 8 && buf[..] == Splice(old(buf[..]), old(p), BigEndian64(h))
    {
      hide Endian.BigEndian;
      var hi, lo: u32 := h / WORD, h % WORD;
      var first, second := if bigEndian then hi else lo, if bigEndian then lo else hi;
      SpliceMore(buf[..], p, BigEndian(hi), BigEndian(lo));
      Put32(if bigEndian then first else second);
      Put32(if bigEndian then second else first);
    }

    /** One byte of padding. */
    method PutZero()
      requires p < e <= buf.Length
      modifies this`p, buf
      ensures p == old(p) + 1 && buf[..] == Splice(old(buf[..]), old(p), [0])
    {
      buf[p] := 0;
      p := p + 1;
      assert buf[..] == Splice(old(buf[..]), old(p), [0]);
    }

    /** memcpy(). */
    method Copy(s: seq<byte>)
      requires p + |s| <= e <= buf.Length
      modifies this`p, buf
      ensures p == old(p) + |s| && buf[..] == Splice(old(buf[..]), old(p), s)
    {
      forall i | 0 <= i < |s| {
        buf[p + i] := s[i];
      }
      p := p + |s|;
      assert buf[..] == Splice(old(buf[..]), old(p), s);
    }

    /** The while loop of put_bytes(): zeros up to a whole word. */
    method PutPadding(n: nat)
      requires p + Pad(n) <= e <= buf.Length
      modifies this`p, buf
      ensures p == old(p) + Pad(n) && buf[..] == Splice(old(buf[..]), old(p), Zeros(Pad(n)))
    {
      hide Splice, Pad, Zeros;
      ghost var before := buf[..];
      var len := n;
      SpliceNothing(before, p);
      while len % 4 != 0
        invariant n <= len <= n + Pad(n) && p == old(p) + len - n
        invariant buf[..] == Splice(before, old(p), Zeros(len - n))
        decreases n + Pad(n) - len
      {
        NoPadYet(n, len);
        SpliceMore(before, old(p), Zeros(len - n), [0]);
        ZerosMore(len - n);
        len := len + 1;
        PutZero();
      }
      PadDone(n, len);
    }

    /** put_bytes(): copies, and pads with zeros. */
    method PutBytes(s: seq<byte>)
      requires Valid() && p + |s| <= e
      modifies this`p, buf
      ensures Valid() && p == old(p) + |Padded(s)| && p <= e && buf[..] == Splice(old(buf[..]), old(p), Padded(s))
    {
      hide Splice, Pad, Zeros;
      PaddingFits(e - p, |s|);
      if |s| == 0 {
        PadDone(0, 0);
        SpliceNothing(buf[..], p);
        return;
      }
      SpliceMore(buf[..], p, s, Zeros(Pad(|s|)));
      Copy(s);
      PutPadding(|s|);
    }

    /** A number of elements or a discriminant. */
    method PutWord(v: u32) returns (r: Option<Error>)
      requires Valid()
      modifies this`p, buf
      ensures Valid() && Attempt(r, true, true, BigEndian(v), old(buf[..]), old(p), buf[..], p, e)
    {
      hide Endian.BigEndian;
      if 4 > e - p {
        return Some(Overflow);
      }
      Put32(v);
      return None;
    }

    method PutHyper(h: u64) returns (r: Option<Error>)
      requires Valid()
      modifies this`p, buf
      ensures Valid() && Attempt(r, true, true, BigEndian64(h), old(buf[..]), old(p), buf[..], p, e)
    {
      hide BigEndian64;
      if 8 > e - p {
        return Some(Overflow);
      }
      Put64(h);
      return None;
    }

    method PutOpaque(s: seq<byte>) returns (r: Option<Error>)
      requires Valid()
      modifies this`p, buf
      ensures Valid() && Attempt(r, true, true, Padded(s), old(buf[..]), old(p), buf[..], p, e)
    {
      PaddingFits(e - p, |s|);
      hide Padded, Pad;
      if |s| > e - p {
        return Some(Overflow);
      }
      PutBytes(s);
      return None;
    }

    method PutString(s: seq<byte>) returns (r: Option<Error>)
      requires Valid() && |s| < WORD
      modifies this`p, buf
      ensures Valid() && Attempt(r, true, true, BigEndian(|s|) + Padded(s), old(buf[..]), old(p), buf[..], p, e)
    {
      hide Endian.BigEndian;
      PaddingFits(e - p - 4, |s|);
      hide Padded, Pad, Attempt, Splice;
      if 4 + |s| > e - p {
        AttemptFails(Overflow, true, true, BigEndian(|s|) + Padded(s), buf[..], p, e);
        return Some(Overflow);
      }
      SpliceMore(buf[..], p, BigEndian(|s|), Padded(s));
      Put32(|s|);
      PutBytes(s);
      AttemptWorks(BigEndian(|s|) + Padded(s), old(buf[..]), old(p), e);
      return None;
    }

    /** operator() for numbers, bools, opaques and strings. */
    method PutLeaf(t: Ty, v: Val) returns (r: Option<Error>)
      requires Valid() && LeafTyped(t, v)
      modifies this`p, buf
      ensures Valid() && Attempt(r, true, true, EncLeaf(t, v), old(buf[..]), old(p), buf[..], p, e)
    {
      hide Endian.BigEndian, BigEndian64, Padded, Attempt;
      match t
      case TWord(_) => r := PutWord(v.w);
      case THyper(_) => r := PutHyper(v.h);
      case TBool => r := PutWord(if v.b then 1 else 0);
      case TOpaque(_) => r := PutOpaque(v.s);
      case TBytes(_) => r := PutString(v.s);
    }

    /** operator() for any type. It works exactly if every union has an arm, the value is no deeper than
        the limit, and there is room; declared bounds do not matter. The limit is then restored. */
    method PutValue(env: Env, ty: Ty, v: Val) returns (r: Option<Error>)
      requires Valid() && Typed(env, ty, v)
      modifies this`p, this`stackLimit, buf
      ensures Valid() && (r == None ==> stackLimit == old(stackLimit))
      ensures Attempt(r, Within(env, false, ty, v), Depth(v) <= old(stackLimit), Enc(env, ty, v),
                      old(buf[..]), old(p), buf[..], p, e)
      decreases v, 1
    {
      hide Enc, EncAll, Typed, AllTyped, Within, AllWithin, Depth, MaxDepth, Attempt;
      var t := Resolve(env, ty);
      if Leaf(t) {
        LeafPut(env, ty, v);
        r := PutLeaf(t, v);
      } else {
        Opened(env, ty, v);
        if stackLimit == 0 {
          AttemptFails(StackOverflow, Within(env, false, ty, v), false, Enc(env, ty, v), buf[..], p, e);
          stackLimit := 0xffff_ffff;
          return Some(StackOverflow);
        }
        stackLimit := stackLimit - 1;
        r := Save(env, ty, v);
        if r == None {
          stackLimit := stackLimit + 1;
        }
      }
    }

    /** xdr_traits<T>::save(). */
    method Save(env: Env, ty: Ty, v: Val) returns (r: Option<Error>)
      requires Valid() && Typed(env, ty, v) && !Leaf(Resolve(env, ty))
      modifies this`p, this`stackLimit, buf
      ensures Valid() && (r == None ==> stackLimit == old(stackLimit))
      ensures Attempt(r, Within(env, false, ty, v), Depth(v) <= old(stackLimit) + 1, Enc(env, ty, v),
                      old(buf[..]), old(p), buf[..], p, e)
      decreases v, 0
    {
      hide Enc, EncAll, EncLead, Typed, AllTyped, Within, AllWithin, Depth, MaxDepth, ChildTys, ShapeTyped;
      hide Resolve, Leaf, Leads, LeadWithin, Attempt;
      var t := Resolve(env, ty);
      Opened(env, ty, v);
      KidsSmaller(v);
      var lead := LeadOf(v);
      var tys := ChildTys(t, lead);
      r := SaveLead(t, lead, EncAll(env, tys, Kids(v)), AllWithin(env, false, tys, Kids(v)),
                    MaxDepth(Kids(v)) <= stackLimit);
      if r.Some? {
        return;
      }
      ghost var mid, at := buf[..], p;
      r := PutAll(env, tys, Kids(v));
      AttemptMore(old(buf[..]), old(p), EncLead(t, lead), mid, at, e, r, AllWithin(env, false, tys, Kids(v)),
        MaxDepth(Kids(v)) <= old(stackLimit), EncAll(env, tys, Kids(v)), buf[..], p);
    }

    /** The number of elements or the discriminant, which must have an arm. */
    method SaveLead(t: Ty, lead: nat, ghost more: seq<byte>, ghost within: bool, ghost shallow: bool)
      returns (r: Option<Error>)
      requires Valid() && !Leaf(t) && (Leads(t) ==> lead < WORD)
      modifies this`p, buf
      ensures Valid()
      ensures r == None ==>
        LeadWithin(false, t, lead) && Attempt(None, true, true, EncLead(t, lead), old(buf[..]), old(p), buf[..], p, e)
      ensures r.Some? ==>
        Attempt(r, LeadWithin(false, t, lead) && within, shallow, EncLead(t, lead) + more,
                old(buf[..]), old(p), buf[..], p, e)
    {
      hide Endian.BigEndian, Select;
      if !Leads(t) {
        AttemptNothing(buf[..], p, e);
        return None;
      }
      r := PutWord(lead);
      if r == None && t.TUnion? && Select(t.arms, TagValue(t.kind, lead)) == None {
        return Some(BadDiscriminant);
      }
    }

    /** One of these, after `done` has been marshaled from `from` on. */
    method PutNext(env: Env, ty: Ty, v: Val, ghost more: seq<byte>, ghost within: bool, ghost shallow: bool,
                   ghost done: seq<byte>, ghost before: seq<byte>, ghost from: nat) returns (r: Option<Error>)
      requires Valid() && Typed(env, ty, v) && Attempt(None, true, true, done, before, from, buf[..], p, e)
      requires (within ==> Within(env, false, ty, v)) && (shallow ==> Depth(v) <= stackLimit)
      modifies this`p, this`stackLimit, buf
      ensures Valid() && (r == None ==> stackLimit == old(stackLimit))
      ensures r == None ==> Within(env, false, ty, v) && Depth(v) <= stackLimit
      ensures r == None ==> Attempt(None, true, true, done + Enc(env, ty, v), before, from, buf[..], p, e)
      ensures r.Some? ==> Attempt(r, within, shallow, done + (Enc(env, ty, v) + more), before, from, buf[..], p, e)
      decreases v, 2
    {
      hide Enc, Typed, Within, Depth, Attempt;
      ghost var mid, at := buf[..], p;
      ghost var w, s := Within(env, false, ty, v), Depth(v) <= stackLimit;
      r := PutValue(env, ty, v);
      AttemptMore(before, from, done, mid, at, e, r, w, s, Enc(env, ty, v), buf[..], p);
      if r.Some? {
        AttemptWiden(r, w, s, done + Enc(env, ty, v), more, within, shallow, before, from, buf[..], p, e);
        assert done + Enc(env, ty, v) + more == done + (Enc(env, ty, v) + more);
      } else {
        AttemptMeans(r, w, s, Enc(env, ty, v), mid, at, buf[..], p, e);
      }
    }

    /** The elements, fields or arguments, one after the other. */
    method PutAll(env: Env, tys: seq<Ty>, vs: seq<Val>) returns (r: Option<Error>)
      requires Valid() && AllTyped(env, tys, vs)
      modifies this`p, this`stackLimit, buf
      ensures Valid() && (r == None ==> stackLimit == old(stackLimit))
      ensures Attempt(r, AllWithin(env, false, tys, vs), MaxDepth(vs) <= old(stackLimit), EncAll(env, tys, vs),
                      old(buf[..]), old(p), buf[..], p, e)
      decreases vs, 0
    {
      hide Enc, EncAll, Typed, AllTyped, Within, AllWithin, Depth, MaxDepth, Attempt;
      AllLength(env, tys, vs);
      ghost var done: seq<byte> := [];
      AttemptNothing(buf[..], p, e);
      for i := 0 to |vs|
        invariant Valid() && stackLimit == old(stackLimit)
        invariant Attempt(None, true, true, done, old(buf[..]), old(p), buf[..], p, e)
        invariant AllTyped(env, tys[i..], vs[i..]) && EncAll(env, tys, vs) == done + EncAll(env, tys[i..], vs[i..])
        invariant AllWithin(env, false, tys, vs) <==> AllWithin(env, false, tys[i..], vs[i..])
        invariant MaxDepth(vs) <= stackLimit <==> MaxDepth(vs[i..]) <= stackLimit
      {
        AllUncons(env, tys[i..], vs[i..]);
        assert tys[i..][1..] == tys[i + 1..] && vs[i..][1..] == vs[i + 1..];
        ghost var next := Enc(env, tys[i], vs[i]);
        r := PutNext(env, tys[i], vs[i], EncAll(env, tys[i + 1..], vs[i + 1..]), AllWithin(env, false, tys, vs),
          MaxDepth(vs) <= stackLimit, done, old(buf[..]), old(p));
        if r.Some? {
          return;
        }
        done := done + next;
      }
      assert tys[|vs|..] == [] && vs[|vs|..] == [];
      AllNil(env, true, [], 0);
      assert done + [] == done;
      r := None;
    }
  }

  lemma LeafPut(env: Env, ty: Ty, v: Val)
    requires Typed(env, ty, v) && Leaf(Resolve(env, ty))
    ensures LeafTyped(Resolve(env, ty), v) && Enc(env, ty, v) == EncLeaf(Resolve(env, ty), v)
    ensures Within(env, false, ty, v) && Depth(v) == 0
  {
  }

  /** What fails on a part fails on the whole. */
  lemma AttemptWiden(r: Option<Error>, within: bool, shallow: bool, s: seq<byte>, t: seq<byte>, within': bool,
                     shallow': bool, before: seq<byte>, from: nat, after: seq<byte>, to: nat, e: nat)
    requires r.Some? && Attempt(r, within, shallow, s, before, from, after, to, e)
    requires (within' ==> within) && (shallow' ==> shallow)
    ensures Attempt(r, within', shallow', s + t, before, from, after, to, e)
  {
  }

  /** Checking the length without its padding is enough where the room is a whole number of words. */
  lemma PaddingFits(room: int, n: nat)
    requires room % 4 == 0
    ensures n <= room <==> n + Pad(n) <= room
  {
  }

  lemma NoPadYet(n: nat, len: nat)
    requires n <= len <= n + Pad(n) && len % 4 != 0
    ensures len < n + Pad(n)
  {
  }

  lemma PadDone(n: nat, len: nat)
    requires n <= len <= n + Pad(n) && len % 4 == 0
    ensures len == n + Pad(n)
  {
  }

  /** xdr_to_msg(): the message is allocated in the size computed ahead, which marshaling fills exactly
      (`p_ == e_`). What comes out is a whole record. */
  method ToMsg(bigEndian: bool, env: Env, tys: seq<Ty>, vs: seq<Val>, limit: u32) returns (r: Result<Message>)
    requires AllTyped(env, tys, vs)
    requires AllWithin(env, false, tys, vs) ==> |EncAll(env, tys, vs)| < LAST_FRAGMENT
    ensures r == Throws(BadDiscriminant) <==> !AllWithin(env, false, tys, vs)
    ensures r == Throws(StackOverflow) <==> AllWithin(env, false, tys, vs) && MaxDepth(vs) > limit
    ensures r.Ok? <==> AllWithin(env, false, tys, vs) && MaxDepth(vs) <= limit
    ensures r.Ok? ==> fresh(r.value) && r.value.Valid()
    ensures r.Ok? ==> r.value.Data() == EncAll(env, tys, vs) && r.value.Raw() == Frame(EncAll(env, tys, vs))
  {
    hide AllWithin, EncAll, MaxDepth, SumSize, AllTyped, Endian.BigEndian, Frame;
    SumExact(env, tys, vs);
    var size := SumSize(env, tys, vs);
    if size == None {
      return Throws(BadDiscriminant);
    }
    AllAligned(env, tys, vs);
    var m := new Message(bigEndian, size.value);
    var put := new Put(bigEndian, m.raw, 4, 4 + size.value, limit);
    ghost var before := m.raw[..];
    var thrown := put.PutAll(env, tys, vs);
    if thrown.Some? {
      return Throws(thrown.value);
    }
    assert put.p == put.e;
    FilledMessage(before, m.raw[..], EncAll(env, tys, vs));
    assert m.raw[..4] == before[..4] && m.Data() == EncAll(env, tys, vs);
    m.RawIsFrame();
    return Ok(m);
  }

  lemma FilledMessage(before: seq<byte>, after: seq<byte>, s: seq<byte>)
    requires |before| == 4 + |s| && after == Splice(before, 4, s)
    ensures after[..4] == before[..4] && after[4..] == s
  {
  }
}
