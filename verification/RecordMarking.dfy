/** Record marking (section 11 of RFC 5531), restricted to single-fragment records as
    message_t::alloc writes them, and a reference parser for a stream of such records. */
module RecordMarking {
  import opened Endian

  const LAST_FRAGMENT: u32 := 0x8000_0000

  /** A message's raw bytes: the length word with the last-fragment bit, and the data. */
  function Frame(m: seq<byte>): (f: seq<byte>)
    requires |m| < LAST_FRAGMENT
    ensures |f| == 4 + |m|
  {
    BigEndian(LAST_FRAGMENT + |m|) + m
  }

  ghost predicate Sendable(ms: seq<seq<byte>>, limit: nat) {
    forall k | 0 <= k < |ms| :: |ms[k]| < LAST_FRAGMENT && |ms[k]| <= limit
  }

  function Frames(ms: seq<seq<byte>>): seq<byte>
    requires forall k | 0 <= k < |ms| :: |ms[k]| < LAST_FRAGMENT
  {
    if ms == [] then [] else Frame(ms[0]) + Frames(ms[1..])
  }

  /** What a byte stream holds so far: the complete messages, the bytes after them, and
      whether those begin with a length word that is refused. */
  datatype Parsed = Parsed(msgs: seq<seq<byte>>, rest: seq<byte>, broken: bool)

  /** The length word that opens `s` announces a fragment to be continued, or too long a message. */
  predicate Refused(s: seq<byte>, limit: nat)
    requires |s| >= 4
  {
    var len := FromBigEndian(s[..4]);
    len < LAST_FRAGMENT || len - LAST_FRAGMENT > limit
  }

  function Announced(s: seq<byte>): nat
    requires |s| >= 4 && FromBigEndian(s[..4]) >= LAST_FRAGMENT
  {
    FromBigEndian(s[..4]) - LAST_FRAGMENT
  }

  /** A whole record opens `s`. */
  predicate Complete(s: seq<byte>, limit: nat) {
    |s| >= 4 && !Refused(s, limit) && |s| >= 4 + Announced(s)
  }

  ghost function Parse(s: seq<byte>, limit: nat): (p: Parsed) {
    if Complete(s, limit) then
      var n := 4 + Announced(s);
      var p := Parse(s[n..], limit);
      p.(msgs := [s[4..n]] + p.msgs)
    else
      Parsed([], s, |s| >= 4 && Refused(s, limit))
  }

  lemma {:induction false} FramesAppend(a: seq<seq<byte>>, b: seq<seq<byte>>)
    requires forall k | 0 <= k < |a| :: |a[k]| < LAST_FRAGMENT
    requires forall k | 0 <= k < |b| :: |b[k]| < LAST_FRAGMENT
    ensures Frames(a + b) == Frames(a) + Frames(b)
  {
    if a == [] {
      assert a + b == b;
    } else {
      assert (a + b)[1..] == a[1..] + b;
      FramesAppend(a[1..], b);
    }
  }

  /** A record's own length word is accepted, and announces it. */
  lemma FrameParses(m: seq<byte>, t: seq<byte>, limit: nat)
    requires |m| < LAST_FRAGMENT && |m| <= limit
    ensures var s := Frame(m) + t;
      && Complete(s, limit) && Announced(s) == |m| && s[4..4 + |m|] == m && s[4 + |m|..] == t
  {
    var s := Frame(m) + t;
    assert s[..4] == BigEndian(LAST_FRAGMENT + |m|);
    WordOfBytes(LAST_FRAGMENT + |m|);
  }

  /** Parsing undoes framing, whatever follows. */
  lemma {:induction false} ParseFrames(ms: seq<seq<byte>>, t: seq<byte>, limit: nat)
    requires Sendable(ms, limit)
    ensures var p := Parse(t, limit);
      Parse(Frames(ms) + t, limit) == Parsed(ms + p.msgs, p.rest, p.broken)
  {
    hide BigEndian, FromBigEndian, Refused;
    if ms == [] {
      assert Frames(ms) + t == t;
    } else {
      assert Frames(ms) + t == Frame(ms[0]) + (Frames(ms[1..]) + t);
      FrameParses(ms[0], Frames(ms[1..]) + t, limit);
      ParseFrames(ms[1..], t, limit);
    }
  }

  lemma RecordBytes(s: seq<byte>, limit: nat)
    requires Complete(s, limit)
    ensures |s| >= 4 && FromBigEndian(s[..4]) >= LAST_FRAGMENT && |s| >= 4 + Announced(s)
    ensures var n := 4 + Announced(s);
      && |s[4..n]| < LAST_FRAGMENT && |s[4..n]| <= limit
      && s == Frame(s[4..n]) + s[n..]
  {
    BytesOfWord(s[..4]);
    assert s[..4] + s[4..4 + Announced(s)] + s[4 + Announced(s)..] == s;
  }

  /** The stream is exactly the frames of the parsed messages and the rest. */
  lemma {:induction false} FramesOfParse(s: seq<byte>, limit: nat)
    ensures var p := Parse(s, limit);
      Sendable(p.msgs, limit) && s == Frames(p.msgs) + p.rest && !Complete(p.rest, limit)
    decreases |s|
  {
    hide Complete, Frame;
    if Complete(s, limit) {
      RecordBytes(s, limit);
      var n := 4 + Announced(s);
      var p := Parse(s[n..], limit);
      FramesOfParse(s[n..], limit);
      assert ([s[4..n]] + p.msgs)[1..] == p.msgs;
    } else {
      assert Frames([]) + s == s;
    }
  }

  /** More bytes never change what has been parsed; they are parsed after the rest. */
  lemma ParseAppend(s: seq<byte>, t: seq<byte>, limit: nat)
    ensures var p := Parse(s, limit); var q := Parse(p.rest + t, limit);
      Parse(s + t, limit) == Parsed(p.msgs + q.msgs, q.rest, q.broken)
  {
    var p := Parse(s, limit);
    FramesOfParse(s, limit);
    assert s + t == Frames(p.msgs) + (p.rest + t);
    ParseFrames(p.msgs, p.rest + t, limit);
  }

  /** Every prefix of a framed stream is accepted, and parses to a prefix of the messages. */
  lemma {:induction false} ParsePrefix(ms: seq<seq<byte>>, s: seq<byte>, limit: nat)
    requires Sendable(ms, limit) && s <= Frames(ms)
    ensures var p := Parse(s, limit); p.msgs <= ms && !p.broken
    ensures s == Frames(ms) ==> Parse(s, limit) == Parsed(ms, [], false)
  {
    if ms != [] {
      var f := Frame(ms[0]);
      if |s| < |f| {
        FramePrefix(ms[0], s, limit);
      } else {
        assert s == f + s[|f|..];
        FrameParses(ms[0], s[|f|..], limit);
        ParsePrefix(ms[1..], s[|f|..], limit);
      }
    }
  }

  lemma FramePrefix(m: seq<byte>, s: seq<byte>, limit: nat)
    requires |m| < LAST_FRAGMENT && |m| <= limit
    requires s < Frame(m)
    ensures Parse(s, limit) == Parsed([], s, false)
  {
    if |s| >= 4 {
      FrameParses(m, [], limit);
      assert s[..4] == (Frame(m) + [])[..4];
    }
  }

  /** message_t: a buffer with room for the length word, of which the first `size` bytes of data count. */
  class Message {
    const bigEndian: bool
    const raw: array<byte>
    var size: nat

    /** The length word is that of the data, with the last-fragment bit. */
    ghost predicate Valid()
      reads this`size, raw
    {
      size < LAST_FRAGMENT && 4 + size <= raw.Length && raw[..4] == BigEndian(LAST_FRAGMENT + size)
    }

    /** raw_data() up to raw_size(). */
    ghost function Raw(): seq<byte>
      requires 4 + size <= raw.Length
      reads this`size, raw
    {
      raw[..4 + size]
    }

    /** data() up to end(). */
    ghost function Data(): seq<byte>
      requires 4 + size <= raw.Length
      reads this`size, raw
    {
      raw[4..4 + size]
    }

    /** What is sent of a message is one whole record. */
    lemma RawIsFrame()
      requires Valid()
      ensures Raw() == Frame(Data())
    {
      assert Raw() == raw[..4] + raw[4..4 + size];
    }

    /** alloc(). */
    constructor (bigEndian: bool, size: nat)
      requires size < LAST_FRAGMENT
      ensures Valid() && this.size == size && raw.Length == 4 + size && fresh(raw)
    {
      hide Endian.BigEndian, Swap32, FromBigEndian, Store, Swap32le;
      this.bigEndian, this.size := bigEndian, size;
      raw := new byte[4 + size];
      new;
      SetLength(size);
    }

    method SetLength(n: nat)
      requires n < LAST_FRAGMENT && raw.Length >= 4
      modifies raw
      ensures raw[..4] == BigEndian(LAST_FRAGMENT + n) && raw[4..] == old(raw[4..])
    {
      hide Endian.BigEndian, Swap32, FromBigEndian, Store, Swap32le;
      NetworkOrder(bigEndian, LAST_FRAGMENT + n);
      var memory := Store(bigEndian, Swap32le(bigEndian, LAST_FRAGMENT + n));
      raw[0], raw[1], raw[2], raw[3] := memory[0], memory[1], memory[2], memory[3];
      assert raw[..4] == memory;
    }

    /** shrink(): the message keeps the front of its data, and its length word follows. */
    method Shrink(newsize: nat) returns (outOfRange: bool)
      requires Valid()
      modifies this`size, raw
      ensures Valid() && (outOfRange <==> newsize > old(size))
      ensures Data() == if outOfRange then old(Data()) else old(Data())[..newsize]
    {
      if newsize > size {
        return true;
      }
      size := newsize;
      ghost var before := raw[4..];
      SetLength(newsize);
      assert Data() == raw[4..][..newsize] == before[..newsize];
      return false;
    }
  }
}
