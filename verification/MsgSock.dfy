/** msgsock.cc: messages over a non-blocking stream socket. The reader is cut short at
    any byte by `read` and `readv`, the writer at any byte by `writev`. */
module MsgSock {
  import opened Endian
  import opened RecordMarking

  // ---- the kernel ------------------------------------------------------------

  datatype ReadResult = Got(data: seq<byte>) | Again | End | Broken

  datatype WriteResult = Wrote(n: nat) | Blocked | Lost

  /** The bytes of an array of buffers, in order. */
  function Concat(q: seq<seq<byte>>): seq<byte> {
    if q == [] then [] else q[0] + Concat(q[1..])
  }

  /** One direction of a connection: the bytes its kernel has accepted, and how many of
      them have been read. Every call may take less than it is offered, unless the kernel
      is one that hands over whole what it has. */
  class Wire {
    const whole: bool
    const lively: bool  // whether every call takes something if it can, and none fails
    var sent: seq<byte>
    var taken: nat

    ghost predicate Valid()
      reads this
    {
      taken <= |sent|
    }

    ghost function Consumed(): seq<byte>
      requires Valid()
      reads this
    {
      sent[..taken]
    }

    constructor (whole: bool, lively: bool, sent: seq<byte>)
      ensures Valid() && this.whole == whole && this.lively == lively && this.sent == sent && taken == 0
    {
      this.whole, this.lively, this.sent, taken := whole, lively, sent, 0;
    }

    method Read(limit: nat) returns (r: ReadResult)
      requires Valid() && limit > 0
      modifies this`taken
      ensures Valid()
      ensures match r
        case Got(data) => 0 < |data| <= limit && Consumed() == old(Consumed()) + data
        case _ => taken == old(taken)
      ensures whole ==> if r.Got? then |r.data| == limit || taken == |sent| else taken == |sent|
      ensures lively ==> if old(taken) < |sent| then r.Got? else r == Again
    {
      var n: nat := *;
      if lively && !(0 < n <= limit && taken + n <= |sent|) {
        n := 1;
      }
      if whole {
        n := if limit < |sent| - taken then limit else |sent| - taken;
      }
      if 0 < n <= limit && taken + n <= |sent| {
        r := Got(sent[taken..taken + n]);
        taken := taken + n;
      } else {
        r :| r in {Again, End, Broken} && (lively ==> r == Again);
      }
    }

    method Write(iov: seq<seq<byte>>) returns (r: WriteResult)
      requires Valid()
      modifies this`sent
      ensures Valid() && Consumed() == old(Consumed())
      ensures match r
        case Wrote(n) => 0 < n <= |Concat(iov)| && sent == old(sent) + Concat(iov)[..n]
        case _ => sent == old(sent)
      ensures lively && Concat(iov) != [] ==> r.Wrote?
    {
      var n: nat := *;
      var data := Concat(iov);
      if lively && !(0 < n <= |data|) {
        n := 1;
      }
      if 0 < n <= |data| {
        r := Wrote(n);
        sent := sent + data[..n];
      } else {
        r :| r in {Blocked, Lost};
      }
    }
  }

  // ---- the reader ------------------------------------------------------------

  datatype Reason = Closed | ReadError | Fragment | TooLong | NoMemory

  /** An invocation of the receive callback: with a message, or with null. */
  datatype Event = Message(data: seq<byte>) | Failure(reason: Reason)

  function Delivered(events: seq<Event>): seq<seq<byte>> {
    if events == [] then []
    else
      var before := Delivered(events[..|events| - 1]);
      match events[|events| - 1]
      case Message(m) => before + [m]
      case Failure(_) => before
  }

  function Failures(events: seq<Event>): nat {
    if events == [] then 0
    else Failures(events[..|events| - 1]) + if events[|events| - 1].Failure? then 1 else 0
  }

  /** How often the events end in the report of too long a record. */
  function TooLongs(events: seq<Event>): (n: nat)
    ensures n <= |events| && forall k | |events| - n <= k < |events| :: events[k] == Failure(TooLong)
  {
    if events == [] || events[|events| - 1] != Failure(TooLong) then 0 else 1 + TooLongs(events[..|events| - 1])
  }

  lemma TooLongsMore(events: seq<Event>, e: Event)
    ensures TooLongs(events + [e]) == if e == Failure(TooLong) then TooLongs(events) + 1 else 0
  {
    assert (events + [e])[..|events|] == events;
  }

  /** What a length word brings that is accepted: its message, or that there is no memory for it. */
  predicate Accepting(e: Event) {
    e.Message? || e == Failure(NoMemory)
  }

  /** The events of `i` turns of the loop of msg_sock::input: one for each, except that a body that is still
      to come is owed its own, and one that had been begun before has brought one more. */
  ghost predicate Turns(events: seq<Event>, i: nat, begun: bool, owed: bool, overlong: bool) {
    && HalfTurn(events, i, begun, owed, overlong)
    && (overlong && i > 0 ==> TooLongs(events) > 0)
  }

  /** The same while the next turn has seen to the bytes, but not to the length word. */
  ghost predicate HalfTurn(events: seq<Event>, i: nat, begun: bool, owed: bool, overlong: bool) {
    && |events| == i + (if begun then 1 else 0) - (if owed then 1 else 0)
    && (forall k | 0 <= k < |events| - TooLongs(events) :: Accepting(events[k]))
    && (TooLongs(events) > 0 ==> overlong)
  }

  /** The body that was owed arrives, and maybe the next length word. */
  lemma TurnsBody(events: seq<Event>, i: nat, begun: bool, e: Event, overlong: bool)
    requires Turns(events, i, begun, true, false) && e.Message?
    ensures HalfTurn(events + [e], i, begun, false, overlong)
  {
    TooLongsMore(events, e);
  }

  /** Too long a message is reported once more. */
  lemma TurnTooLong(start: seq<Event>, half: seq<Event>, i: nat, begun: bool, owed: bool, overlong: bool)
    requires Turns(start, i, begun, owed, overlong) && HalfTurn(half, i, begun, false, true) && start <= half
    requires (overlong ==> half == start) && forall k | |start| <= k < |half| :: half[k] != Failure(TooLong)
    ensures Turns(half + [Failure(TooLong)], i + 1, begun, false, true)
    ensures TooLongs(half + [Failure(TooLong)]) == TooLongs(start) + 1
  {
    hide Accepting;
    TooLongsMore(half, Failure(TooLong));
    if half != start {
      assert half[|half| - 1] != Failure(TooLong);
    }
  }

  /** The body that the length word announces is owed. */
  lemma TurnOwed(half: seq<Event>, i: nat, begun: bool)
    requires HalfTurn(half, i, begun, false, false)
    ensures Turns(half, i + 1, begun, true, false) && TooLongs(half) == 0
  {
  }

  /** The length word has brought an event of its own. */
  lemma TurnBrought(half: seq<Event>, i: nat, begun: bool, e: Event)
    requires HalfTurn(half, i, begun, false, false) && Accepting(e)
    ensures Turns(half + [e], i + 1, begun, false, false) && TooLongs(half + [e]) == 0
  {
    TooLongsMore(half, e);
  }

  lemma SuffixMore(fired: seq<Event>, mid: seq<Event>, e: Event)
    requires fired <= mid
    ensures (mid + [e])[|fired|..] == mid[|fired|..] + [e]
  {
  }

  /** A whole turn: `before`, at the length word, and `after` it was seen to. */
  lemma TurnDone(fired: seq<Event>, before: seq<Event>, mid: seq<Event>, after: seq<Event>, i: nat, begun: bool,
                 owed: bool, overlong: bool, owed': bool, overlong': bool)
    requires fired <= before <= mid && Turns(before[|fired|..], i, begun, owed, overlong)
    requires HalfTurn(mid[|fired|..], i, begun, false, overlong') && (overlong ==> overlong' && mid == before)
    requires forall k | |before| <= k < |mid| :: mid[k] != Failure(TooLong)
    requires if overlong' then after == mid + [Failure(TooLong)] && !owed'
      else if owed' then after == mid
      else |after| == |mid| + 1 && mid <= after && Accepting(after[|mid|])
    ensures fired <= after && Turns(after[|fired|..], i + 1, begun, owed', overlong')
    ensures TooLongs(after[|fired|..]) == if overlong' then TooLongs(before[|fired|..]) + 1 else 0
  {
    hide Turns, HalfTurn, TooLongs, Accepting;
    var start, half := before[|fired|..], mid[|fired|..];
    if overlong' {
      TurnTooLong(start, half, i, begun, owed, overlong);
      SuffixMore(fired, mid, Failure(TooLong));
    } else if owed' {
      TurnOwed(half, i, begun);
    } else {
      var e := after[|mid|];
      TurnBrought(half, i, begun, e);
      SuffixMore(fired, mid, e);
      assert after == mid + [e];
    }
  }

  lemma TurnsClear(events: seq<Event>, fired: seq<Event>, i: nat, begun: bool, owed: bool)
    requires fired <= events && Turns(events[|fired|..], i, begun, owed, false)
    ensures forall k | |fired| <= k < |events| :: events[k] != Failure(TooLong)
  {
    forall k | |fired| <= k < |events| ensures events[k] != Failure(TooLong) {
      assert Accepting(events[|fired|..][k - |fired|]);
    }
  }

  lemma TurnsStart(begun: bool, overlong: bool)
    ensures Turns([], 0, begun, begun, overlong)
  {
  }

  /** What the turns of a call come to. */
  lemma TurnsEnd(events: seq<Event>, i: nat, begun: bool, owed: bool, overlong: bool)
    requires Turns(events, i, begun, owed, overlong) && (overlong ==> !owed)
    ensures forall k | 0 <= k < |events| - TooLongs(events) :: Accepting(events[k]) && events[k] != Failure(TooLong)
    ensures TooLongs(events) > 0 ==> overlong
    ensures overlong && i > 0 ==> TooLongs(events) > 0
    ensures overlong ==> |events| == i + if begun then 1 else 0
  {
  }

  /** Where none of the events is such a report. */
  lemma NoTooLongs(events: seq<Event>, fired: seq<Event>)
    requires fired <= events && forall k | |fired| <= k < |events| :: events[k] != Failure(TooLong)
    ensures TooLongs(events[|fired|..]) == 0
    ensures forall k | 0 <= k < |events| - |fired| :: events[|fired|..][k] != Failure(TooLong)
  {
  }

  lemma OneMore(events: seq<Event>, e: Event)
    ensures Delivered(events + [e]) == if e.Message? then Delivered(events) + [e.data] else Delivered(events)
    ensures Failures(events + [e]) == Failures(events) + if e.Failure? then 1 else 0
  {
    assert (events + [e])[..|events|] == events;
  }

  /** The messages delivered, and whatever the pending bytes hold, are what the consumed bytes hold. */
  ghost predicate CaughtUp(consumed: seq<byte>, delivered: seq<seq<byte>>, pending: seq<byte>, limit: nat) {
    var p := Parse(pending, limit);
    Parse(consumed, limit) == Parsed(delivered + p.msgs, p.rest, p.broken)
  }

  lemma CaughtUpRead(consumed: seq<byte>, delivered: seq<seq<byte>>, pending: seq<byte>, data: seq<byte>, limit: nat)
    requires CaughtUp(consumed, delivered, pending, limit)
    ensures CaughtUp(consumed + data, delivered, pending + data, limit)
  {
    hide Complete, Refused, Parse;
    ParseAppend(consumed, data, limit);
    ParseAppend(pending, data, limit);
    var p := Parse(pending, limit);
    var q := Parse(p.rest + data, limit);
    assert (delivered + p.msgs) + q.msgs == delivered + (p.msgs + q.msgs);
  }

  lemma CaughtUpDeliver(consumed: seq<byte>, delivered: seq<seq<byte>>, m: seq<byte>, left: seq<byte>, limit: nat)
    requires |m| < LAST_FRAGMENT && |m| <= limit
    requires CaughtUp(consumed, delivered, Frame(m) + left, limit)
    ensures CaughtUp(consumed, delivered + [m], left, limit)
  {
    FrameParses(m, left, limit);
    var p := Parse(left, limit);
    assert delivered + ([m] + p.msgs) == (delivered + [m]) + p.msgs;
  }

  /** With nothing complete pending, the receiver has delivered exactly what it consumed:
      the bytes consumed are the frames of the messages delivered, and the partial frame. */
  lemma CaughtUpAtRest(consumed: seq<byte>, delivered: seq<seq<byte>>, pending: seq<byte>, limit: nat)
    requires CaughtUp(consumed, delivered, pending, limit) && !Complete(pending, limit)
    ensures Sendable(delivered, limit) && consumed == Frames(delivered) + pending
    ensures Parse(consumed, limit) == Parsed(delivered, pending, |pending| >= 4 && Refused(pending, limit))
  {
    assert delivered + [] == delivered;
    FramesOfParse(consumed, limit);
  }

  /** What the kernel does with bytes that arrive for a buffer. */
  method CopyIn(a: array<byte>, at: nat, data: seq<byte>)
    requires at + |data| <= a.Length
    modifies a
    ensures a[..] == old(a[..at]) + data + old(a[at + |data|..])
  {
    forall i | 0 <= i < |data| {
      a[at + i] := data[i];
    }
  }

  /** What the two buffers of `readv`, taken as one, hold when the kernel has filled them. */
  lemma BodyArrived(header: seq<byte>, oldmsg: seq<byte>, msg: seq<byte>, len: seq<byte>, at: nat, data: seq<byte>)
    requires at < |oldmsg| == |msg| && |data| <= |msg| - at + 4 && |len| == 4
    requires var room := |msg| - at; var first := if |data| < room then |data| else room;
      msg == oldmsg[..at] + data[..first] + oldmsg[at + first..] && data[first..] <= len
    ensures (header + oldmsg[..at]) + data == header + (msg + len)[..at + |data|]
  {
    if at + |data| < |msg| {
      assert (msg + len)[..at + |data|] == oldmsg[..at] + data;
    } else {
      assert msg == oldmsg[..at] + data[..|msg| - at];
      assert (msg + len)[..at + |data|] == msg + len[..at + |data| - |msg|];
      assert data == data[..|msg| - at] + len[..at + |data| - |msg|];
    }
  }

  lemma BodySplit(header: seq<byte>, msg: seq<byte>, len: seq<byte>, n: nat)
    requires n <= |msg| + |len|
    ensures header + (msg + len)[..n] == if n < |msg| then header + msg[..n] else (header + msg) + len[..n - |msg|]
  {
    if n < |msg| {
      assert (msg + len)[..n] == msg[..n];
    } else {
      assert (msg + len)[..n] == msg + len[..n - |msg|];
    }
  }

  /** A frame that lacks bytes is not complete, and a frame of length zero needs no more. */
  lemma PartialFrame(n: nat, part: seq<byte>, limit: nat)
    requires n < LAST_FRAGMENT && n <= limit && |part| < n
    ensures !Complete(BigEndian(LAST_FRAGMENT + n) + part, limit)
  {
    var s := BigEndian(LAST_FRAGMENT + n) + part;
    assert s[..4] == BigEndian(LAST_FRAGMENT + n);
    WordOfBytes(LAST_FRAGMENT + n);
  }

  lemma LengthWord(s: seq<byte>)
    requires |s| == 4
    ensures s[..4] == s && BigEndian(FromBigEndian(s)) == s
  {
    BytesOfWord(s);
  }

  // ---- the writer's queue ----------------------------------------------------

  lemma {:induction false} ConcatAppend(a: seq<seq<byte>>, b: seq<seq<byte>>)
    ensures Concat(a + b) == Concat(a) + Concat(b)
  {
    if a == [] {
      assert a + b == b;
    } else {
      assert (a + b)[1..] == a[1..] + b;
      ConcatAppend(a[1..], b);
    }
  }

  lemma ConcatOne(raw: seq<byte>)
    ensures Concat([raw]) == raw
  {
    assert [raw][1..] == [];
  }

  /** The queue with the bytes before `start` of its front message gone. */
  ghost predicate QueueShape(q: seq<seq<byte>>, start: nat) {
    && (forall k | 0 <= k < |q| :: |q[k]| >= 4)
    && if q == [] then start == 0 else start < |q[0]|
  }

  ghost function Queued(q: seq<seq<byte>>, start: nat): seq<byte>
    requires QueueShape(q, start)
  {
    if q == [] then [] else q[0][start..] + Concat(q[1..])
  }

  lemma ConcatEmpty()
    ensures Concat([]) == []
  {
  }

  lemma ConcatDrop(q: seq<seq<byte>>, left: nat)
    requires q != [] && |q[0]| <= left <= |Concat(q)|
    ensures |Concat(q)| == |q[0]| + |Concat(q[1..])| && Concat(q)[left..] == Concat(q[1..])[left - |q[0]|..]
  {
    assert Concat(q) == q[0] + Concat(q[1..]);
    hide Concat;
  }

  /** Part of the front message goes, or all of it. */
  lemma QueuedFront(q: seq<seq<byte>>, start: nat, n: nat)
    requires q != [] && QueueShape(q, start) && n <= |Queued(q, start)|
    ensures var front, all := |q[0]| - start, Queued(q, start);
      if n < front then QueueShape(q, start + n) && Queued(q, start + n) == all[n..]
      else |Concat(q[1..])| == |all| - front && Concat(q[1..])[n - front..] == all[n..]
  {
    hide Concat;
  }

  lemma QueuedDrop(q: seq<seq<byte>>, left: nat)
    requires q != [] && QueueShape(q, left)
    ensures left <= |Concat(q)| && Concat(q)[left..] == Queued(q, left)
  {
    assert Concat(q) == q[0] + Concat(q[1..]);
    hide Concat;
  }

  lemma QueuedAppend(q: seq<seq<byte>>, start: nat, raw: seq<byte>)
    requires QueueShape(q, start) && |raw| >= 4
    ensures QueueShape(q + [raw], start)
    ensures Queued(q + [raw], start) == Queued(q, start) + raw
  {
    ConcatOne(raw);
    if q == [] {
      assert q + [raw] == [raw];
    } else {
      assert (q + [raw])[1..] == q[1..] + [raw];
      ConcatAppend(q[1..], [raw]);
    }
  }

  lemma QueuedPrefix(q: seq<seq<byte>>, start: nat, k: nat)
    requires QueueShape(q, start) && 0 < k <= |q|
    ensures [q[0][start..]] + q[1..k] != []
    ensures [] < Concat([q[0][start..]] + q[1..k]) <= Queued(q, start)
  {
    var first, some, more := q[0][start..], q[1..k], q[k..];
    var v := [first] + some;
    assert v[1..] == some;
    assert q[1..] == some + more;
    ConcatAppend(some, more);
    assert first + (Concat(some) + Concat(more)) == (first + Concat(some)) + Concat(more);
  }

  lemma FramesOne(m: seq<byte>)
    requires |m| < LAST_FRAGMENT
    ensures Frames([m]) == Frame(m)
  {
    assert [m][1..] == [];
  }

  lemma NothingQueued(q: seq<seq<byte>>, start: nat)
    requires QueueShape(q, start)
    ensures q == [] <==> Queued(q, start) == []
    ensures Queued([], 0) == []
  {
  }

  lemma TakenFrom(now: seq<byte>, before: seq<byte>, offered: seq<byte>, queued: seq<byte>, n: nat)
    requires offered <= queued && n <= |offered| && now == before + offered[..n]
    ensures now == before + queued[..n] && now + queued[n..] == before + queued
  {
    assert offered[..n] == queued[..n];
    assert queued == queued[..n] + queued[n..];
  }

  class MsgSock {
    const bigEndianHost: bool
    const inbound: Wire
    const outbound: Wire
    const maxmsglen: nat
    const steady: bool      // allocations succeed, and callbacks leave the socket alone
    var destroyed: bool
    var events: seq<Event>  // the invocations of rcb_ so far

    const nextlen: array<byte>
    var rdmsg: array?<byte>
    var rdpos: nat
    var reading: bool       // a Read callback is registered

    var wqueue: seq<seq<byte>>
    var wsize: nat
    var wstart: nat
    var wfail: bool
    var writing: bool       // a Write callback is registered
    ghost var put: seq<seq<byte>>  // every message put and not dropped

    /** The partial frame held in nextlen_, rdmsg_ and rdpos_. */
    ghost function Pending(): seq<byte>
      reads this`rdmsg, this`rdpos, nextlen, rdmsg
      requires nextlen.Length == 4
      requires if rdmsg == null then rdpos <= 4 else rdpos <= rdmsg.Length < LAST_FRAGMENT
    {
      if rdmsg == null then nextlen[..rdpos] else BigEndian(LAST_FRAGMENT + rdmsg.Length) + rdmsg[..rdpos]
    }

    /** A kernel that takes something whenever it can has done so since `taken` bytes had been read. */
    ghost predicate Moves(taken: nat)
      reads inbound
    {
      inbound.taken >= taken && (inbound.lively && taken < |inbound.sent| ==> inbound.taken > taken)
    }

    ghost predicate ReadShape()
      reads this`rdmsg, this`rdpos, this`events, nextlen, rdmsg, inbound
    {
      && nextlen.Length == 4 && nextlen != rdmsg && inbound.Valid()
      && (if rdmsg == null then rdpos <= 4
          else rdpos < rdmsg.Length && rdmsg.Length < LAST_FRAGMENT && rdmsg.Length <= maxmsglen)
      && CaughtUp(inbound.Consumed(), Delivered(events), Pending(), maxmsglen)
      // a refusal is never reported of an acceptable length word
      && (Failure(Fragment) in events ==> Held() && FromBigEndian(nextlen[..]) < LAST_FRAGMENT)
      && (Failure(TooLong) in events ==> Overlong())
    }

    /** A length word has been read, and nothing after it. */
    ghost predicate Held()
      reads this`rdmsg, this`rdpos, nextlen
    {
      rdmsg == null && rdpos == 4 == nextlen.Length
    }

    /** It is the length word of too long a message. */
    ghost predicate Overlong()
      reads this`rdmsg, this`rdpos, nextlen
    {
      Held() && FromBigEndian(nextlen[..]) > LAST_FRAGMENT + maxmsglen
    }

    /** The reader between two calls. */
    ghost predicate ReadValid()
      reads this`rdmsg, this`rdpos, this`events, nextlen, rdmsg, inbound
    {
      ReadShape() && !Complete(Pending(), maxmsglen)
    }

    ghost function Buffers(): set<object>
      reads this`rdmsg
    {
      if rdmsg == null then {nextlen} else {nextlen, rdmsg}
    }

    constructor (bigEndianHost: bool, inbound: Wire, outbound: Wire, maxmsglen: nat, steady: bool)
      requires inbound != outbound && inbound.Valid() && inbound.Consumed() == [] && outbound.Valid()
      requires outbound.sent == []
      ensures ReadValid() && !destroyed && events == [] && fresh(Buffers()) && rdmsg == null && rdpos == 0
      ensures WriteValid() && put == [] && !Stalled()
      ensures this.inbound == inbound && this.outbound == outbound && this.maxmsglen == maxmsglen
      ensures this.steady == steady
    {
      this.bigEndianHost, this.inbound, this.outbound := bigEndianHost, inbound, outbound;
      this.maxmsglen, this.steady := maxmsglen, steady;
      destroyed, events := false, [];
      nextlen := new byte[4];
      rdmsg, rdpos, reading := null, 0, true;
      wqueue, wsize, wstart, wfail, writing, put := [], 0, 0, false, false, [];
      new;
      assert nextlen[..rdpos] == [];
      assert Delivered([]) + [] == [];
    }

    /** rcb_(...): the callback may delete the socket. */
    method Fire(e: Event)
      modifies this`events, this`destroyed
      ensures events == old(events) + [e]
      ensures Delivered(events) == if e.Message? then Delivered(old(events)) + [e.data] else Delivered(old(events))
      ensures Failures(events) == Failures(old(events)) + if e.Failure? then 1 else 0
      ensures old(destroyed) ==> destroyed
      ensures steady ==> destroyed == old(destroyed)
    {
      OneMore(events, e);
      events := events + [e];
      var deleted: bool := *;
      destroyed := destroyed || (deleted && !steady);
    }

    /** What `readv` does with its two buffers: the rest of the message, then the length word. */
    method Scatter(data: seq<byte>)
      requires rdmsg != null && nextlen != rdmsg && nextlen.Length == 4
      requires rdpos < rdmsg.Length && |data| <= rdmsg.Length - rdpos + 4
      modifies rdmsg, nextlen
      ensures var room := rdmsg.Length - rdpos; var first := if |data| < room then |data| else room;
        && rdmsg[..] == old(rdmsg[..rdpos]) + data[..first] + old(rdmsg[rdpos + first..])
        && nextlen[..] == data[first..] + old(nextlen[|data| - first..])
    {
      var room := rdmsg.Length - rdpos;
      var first := if |data| < room then |data| else room;
      CopyIn(rdmsg, rdpos, data[..first]);
      CopyIn(nextlen, 0, data[first..]);
      assert data[first..] == [] + data[first..];
    }

    /** One `readv` for the rest of the message and the next length word. */
    method ReadInto() returns (r: ReadResult)
      requires ReadValid() && rdmsg != null
      modifies this`rdpos, inbound`taken, rdmsg, nextlen
      ensures !r.Got? ==> ReadValid()
      ensures r.Got? ==>
        && inbound.Valid() && rdpos <= rdmsg.Length + 4
        && Failure(Fragment) !in events && Failure(TooLong) !in events
        && CaughtUp(inbound.Consumed(), Delivered(events),
                    BigEndian(LAST_FRAGMENT + rdmsg.Length) + (rdmsg[..] + nextlen[..])[..rdpos], maxmsglen)
      ensures inbound.whole && (!r.Got? || rdpos < rdmsg.Length + 4) ==> inbound.taken == |inbound.sent|
      ensures Moves(old(inbound.taken))
    {
      hide Parse, CaughtUp, Complete, BigEndian, Delivered, Failures, Frame;
      r := inbound.Read(rdmsg.Length - rdpos + 4);
      if r.Got? {
        ghost var before, oldmsg, at := Pending(), rdmsg[..], rdpos;
        CaughtUpRead(old(inbound.Consumed()), Delivered(events), before, r.data, maxmsglen);
        Scatter(r.data);
        BodyArrived(BigEndian(LAST_FRAGMENT + rdmsg.Length), oldmsg, rdmsg[..], nextlen[..], at, r.data);
        rdpos := rdpos + |r.data|;
      }
    }

    /** Lines 44-66 of msg_sock::input. */
    method ReadBody() returns (go: bool)
      requires ReadValid() && !destroyed && rdmsg != null
      modifies this`rdmsg, this`rdpos, this`events, this`destroyed, inbound`taken, rdmsg, nextlen
      ensures ReadShape()
      ensures rdmsg == null || rdmsg == old(rdmsg)
      ensures old(events) <= events && Failures(events) <= Failures(old(events)) + if go then 0 else 1
      ensures go ==> !destroyed
      ensures !go ==> destroyed || ReadValid()
      ensures steady ==> !destroyed
      ensures if go && rdmsg != null then events == old(events)
        else if go then |events| == |old(events)| + 1 && events[|old(events)|].Message?
        else |events| <= |old(events)| + 1 && forall k | |old(events)| <= k < |events| :: events[k] != Failure(TooLong)
      ensures !go && !destroyed ==> rdmsg != null
      ensures steady ==> forall k | |old(events)| <= k < |events| :: events[k] != Failure(NoMemory)
      ensures inbound.whole && !destroyed && (!go || rdmsg != null || rdpos < 4) ==> inbound.taken == |inbound.sent|
      ensures Moves(old(inbound.taken))
    {
      hide Parse, CaughtUp, Complete, BigEndian, FromBigEndian, Delivered, Failures;
      var r := ReadInto();
      if r == Again {
        return false;
      } else if !r.Got? {
        Fire(Failure(if r == End then Closed else ReadError));
        return false;
      }
      BodySplit(BigEndian(LAST_FRAGMENT + rdmsg.Length), rdmsg[..], nextlen[..], rdpos);
      go := true;
      if rdpos >= rdmsg.Length {
        rdpos := rdpos - rdmsg.Length;
        var m := rdmsg[..];
        rdmsg := null;
        CaughtUpDeliver(inbound.Consumed(), Delivered(events), m, nextlen[..rdpos], maxmsglen);
        Fire(Message(m));
        go := !destroyed;
      }
    }

    /** Lines 68-81: one `read` for the rest of the length word. */
    method ReadLength() returns (go: bool)
      requires ReadValid() && !destroyed && rdmsg == null && rdpos < 4
      modifies this`rdpos, this`events, this`destroyed, inbound`taken, nextlen
      ensures ReadShape()
      ensures old(events) <= events && Failures(events) <= Failures(old(events)) + if go then 0 else 1
      ensures go ==> !destroyed && events == old(events)
      ensures !go ==> destroyed || ReadValid()
      ensures steady ==> !destroyed
      ensures |events| <= |old(events)| + 1 && forall k | |old(events)| <= k < |events| :: events[k] != Failure(TooLong)
      ensures !go ==> rdpos < 4 && forall k | |old(events)| <= k < |events| :: events[k] != Failure(NoMemory)
      ensures inbound.whole && (!go || rdpos < 4) ==> inbound.taken == |inbound.sent|
      ensures Moves(old(inbound.taken))
    {
      hide Parse, CaughtUp, Complete, FromBigEndian, Delivered, Failures;
      var r := inbound.Read(4 - rdpos);
      if r == Again {
        return false;
      } else if !r.Got? {
        Fire(Failure(if r == End then Closed else ReadError));
        return false;
      }
      ghost var before := Pending();
      CaughtUpRead(old(inbound.Consumed()), Delivered(events), before, r.data, maxmsglen);
      CopyIn(nextlen, rdpos, r.data);
      rdpos := rdpos + |r.data|;
      assert before + r.data == Pending();
      go := true;
    }

    /** nextlen(): the length word in host order. */
    method NextLen() returns (len: u32)
      requires nextlen.Length == 4
      ensures len == FromBigEndian(nextlen[..])
    {
      NetworkOrderLoad(bigEndianHost, nextlen[..]);
      len := Swap32le(bigEndianHost, Load(bigEndianHost, nextlen[..]));
    }

    /** Lines 85-117 of msg_sock::input: a length word has been read. `go` tells whether the
        loop goes on. */
    method NextRecord() returns (go: bool)
      requires ReadShape() && !destroyed && Held()
      modifies this`rdmsg, this`rdpos, this`events, this`destroyed, this`reading
      ensures ReadValid()
      ensures steady ==> !destroyed && forall k | |old(events)| <= k < |events| :: events[k] != Failure(NoMemory)
      ensures rdmsg == null || fresh(rdmsg)
      ensures old(events) <= events && Failures(events) <= Failures(old(events)) + 1
      ensures var len := FromBigEndian(nextlen[..]);
        if len < LAST_FRAGMENT then events == old(events) + [Failure(Fragment)] && !go && reading == old(reading)
        else if len == LAST_FRAGMENT then events == old(events) + [Message([])] && go && reading == old(reading)
        else if len - LAST_FRAGMENT > maxmsglen then
          events == old(events) + [Failure(TooLong)] && go && !reading && rdmsg == null && rdpos == 4
        else
          && go && !Overlong() && reading == old(reading)
          && events == if rdmsg != null then old(events) else old(events) + [Failure(NoMemory)]
      ensures FromBigEndian(nextlen[..]) == LAST_FRAGMENT ==> rdpos == 0 && rdmsg == null
    {
      hide Parse, CaughtUp, Delivered, Failures, BigEndian, FromBigEndian;
      var len := NextLen();
      LengthWord(nextlen[..]);
      if len < LAST_FRAGMENT {
        Fire(Failure(Fragment));
        return false;
      }
      len := len - LAST_FRAGMENT;
      if len == 0 {
        assert nextlen[..] == Frame([]) + [];
        rdpos := 0;
        CaughtUpDeliver(inbound.Consumed(), Delivered(events), [], [], maxmsglen);
        Fire(Message([]));
        return true;
      }
      var why := NoMemory;
      if len <= maxmsglen {
        var granted: bool := *;
        if granted || steady {
          rdmsg := new byte[len];
        }
      } else {
        reading := false;
        why := TooLong;
      }
      if rdmsg != null {
        rdpos := 0;
        assert Pending() == nextlen[..];
        PartialFrame(len, [], maxmsglen);
      } else {
        Fire(Failure(why));
      }
      go := true;
    }

    /** The first half of a turn, lines 43-83 of msg_sock::input: whether a length word is held. */
    method See(ghost fired: seq<Event>, ghost i: nat, ghost begun: bool) returns (go: bool)
      requires ReadValid() && !destroyed
      requires fired <= events && Turns(events[|fired|..], i, begun, rdmsg != null, Overlong())
      modifies this`rdmsg, this`rdpos, this`events, this`destroyed, inbound`taken, Buffers()
      ensures ReadShape() && (rdmsg == null || rdmsg == old(rdmsg))
      ensures old(events) <= events && Failures(events) <= Failures(old(events)) + if go then 0 else 1
      ensures old(Overlong()) ==> go && Overlong() && events == old(events)
      ensures go ==> !destroyed && Held() && HalfTurn(events[|fired|..], i, begun, false, Overlong())
      ensures !go ==> destroyed || (ReadValid() && !Overlong())
      ensures forall k | |old(events)| <= k < |events| :: events[k] != Failure(TooLong)
      ensures steady ==> !destroyed && forall k | |old(events)| <= k < |events| :: events[k] != Failure(NoMemory)
      ensures !go && inbound.whole && !destroyed ==> inbound.taken == |inbound.sent|
      ensures if old(Held()) then go && inbound.taken == old(inbound.taken) && nextlen[..] == old(nextlen[..])
        else Moves(old(inbound.taken))
    {
      hide Parse, CaughtUp, Delivered, Failures, Frame, BigEndian, FromBigEndian, Complete, Refused;
      ghost var before := events[|fired|..];
      go := true;
      if rdmsg != null {
        go := ReadBody();
        if go && rdmsg == null {
          TurnsBody(before, i, begun, events[|old(events)|], Overlong());
          assert events[|fired|..] == before + [events[|old(events)|]];
        }
      } else if rdpos < 4 {
        go := ReadLength();
      }
      if go && (rdmsg != null || rdpos < 4) {
        StillPartial();
        go := false;
      }
    }

    /** One turn of the loop. */
    method Turn(ghost fired: seq<Event>, ghost i: nat, ghost begun: bool) returns (go: bool)
      requires ReadValid() && !destroyed
      requires fired <= events && Turns(events[|fired|..], i, begun, rdmsg != null, Overlong())
      modifies this`rdmsg, this`rdpos, this`events, this`destroyed, this`reading, inbound`taken, Buffers()
      ensures ReadShape() && (destroyed || ReadValid())
      ensures rdmsg == null || rdmsg == old(rdmsg) || fresh(rdmsg)
      ensures old(events) <= events && Failures(events) <= Failures(old(events)) + 1
      ensures old(Overlong()) ==> go && Overlong()
      ensures destroyed || Overlong() || reading == old(reading)
      ensures go ==>
        && Turns(events[|fired|..], i + 1, begun, rdmsg != null, Overlong()) && (Overlong() ==> !reading)
        && TooLongs(events[|fired|..]) == if Overlong() then TooLongs(old(events)[|fired|..]) + 1 else 0
      ensures !go ==>
        && (destroyed || !Overlong()) && (forall k | |fired| <= k < |events| :: events[k] != Failure(TooLong))
        && (inbound.whole && !destroyed ==> inbound.taken == |inbound.sent| || Failure(Fragment) in events)
      ensures steady ==> !destroyed && forall k | |old(events)| <= k < |events| :: events[k] != Failure(NoMemory)
      ensures steady ==>
        || Moves(old(inbound.taken)) || Overlong() || Failure(Fragment) in events
        || (go && old(Held()) && rdmsg != null && inbound.taken == old(inbound.taken))
    {
      hide Parse, CaughtUp, Delivered, Failures, Frame, BigEndian, FromBigEndian, Complete, Refused;
      assert !Overlong() ==> forall k | |fired| <= k < |events| :: events[k] != Failure(TooLong) by {
        if !Overlong() {
          TurnsClear(events, fired, i, begun, rdmsg != null);
        }
      }
      hide HalfTurn, Turns, TooLongs, Accepting;
      if Held() {
        HeldNotEmpty();
      }
      go := See(fired, i, begun);
      if !go {
        return;
      }
      ghost var mid := events;
      go := NextRecord();
      if !go {
        return;
      }
      TurnDone(fired, old(events), mid, events, i, begun, old(rdmsg) != null, old(Overlong()),
               rdmsg != null, Overlong());
    }

    /** msg_sock::input(). However the reads are cut short, the bytes consumed are the frames
        of the messages delivered and the partial frame held. Each turn of the loop sees to one length word.
        Too long a message is reported in the turn that gets to its length word and in all later ones: `words`
        words having been seen to before, 3 - words times. */
    method Input() returns (ghost words: nat)
      requires ReadValid() && !destroyed
      modifies this`rdmsg, this`rdpos, this`events, this`destroyed, this`reading, inbound`taken, Buffers()
      ensures ReadShape() && inbound.Valid() && (!destroyed ==> ReadValid())
      ensures rdmsg == null || rdmsg == old(rdmsg) || fresh(rdmsg)
      ensures old(events) <= events && Failures(events) <= Failures(old(events)) + 3
      // reports of too long a message come last
      ensures var added := events[|old(events)|..];
        && (forall k | 0 <= k < |added| - TooLongs(added) :: added[k] != Failure(TooLong))
        && (TooLongs(added) > 0 ==> Overlong() && !reading)
      // how many there are, and that the words before brought one event each, and a body begun before another
      ensures Overlong() && !destroyed ==>
        var added := events[|old(events)|..];
        && words < 3 && TooLongs(added) == 3 - words
        && |added| - TooLongs(added) == words + (if old(rdmsg) != null then 1 else 0)
        && forall k | 0 <= k < |added| - TooLongs(added) :: Accepting(added[k])
      ensures old(Overlong()) ==> Overlong() && words == 0
      // where nothing is cut short or fails, the call ends early only for want of bytes or at a fragment
      ensures steady ==> !destroyed && forall k | |old(events)| <= k < |events| :: events[k] != Failure(NoMemory)
      ensures destroyed || Overlong() || reading == old(reading)
      ensures steady ==> Moves(old(inbound.taken)) || Overlong() || Failure(Fragment) in events
      ensures steady && inbound.whole && Failure(Fragment) !in events && inbound.taken < |inbound.sent| ==>
        Turns(events[|old(events)|..], 3, old(rdmsg) != null, rdmsg != null, Overlong())
    {
      hide Parse, CaughtUp, Delivered, Failures, Frame, BigEndian, FromBigEndian, Complete, Refused;
      hide Turns, TooLongs, Accepting, MsgSock.Overlong, MsgSock.Held, MsgSock.Pending;
      ghost var fired, begun := events, rdmsg != null;
      var i := 0;
      words := 0;
      assert events[|fired|..] == [];
      TurnsStart(begun, Overlong());
      NoTooLongs(events, fired);
      while i < 3 && !destroyed
        invariant i <= 3 && ReadShape() && (!destroyed ==> ReadValid()) && (steady ==> !destroyed)
        invariant fired <= events && Failures(events) <= Failures(fired) + i
        invariant Turns(events[|fired|..], i, begun, rdmsg != null, Overlong())
        invariant if Overlong() && i > 0 then !reading else destroyed || reading == old(reading)
        invariant words == i - TooLongs(events[|fired|..])
        invariant old(Overlong()) ==> Overlong() && words == 0
        invariant rdmsg == null || rdmsg == old(rdmsg) || fresh(rdmsg)
        invariant steady ==> forall k | |fired| <= k < |events| :: events[k] != Failure(NoMemory)
        invariant steady ==>
          || Overlong() || Failure(Fragment) in events || Moves(old(inbound.taken))
          || (i <= 1 && inbound.taken == old(inbound.taken) && (i == 1 ==> rdmsg != null))
      {
        ghost var before := events;
        OverlongHeld();
        TurnsEnd(events[|fired|..], i, begun, rdmsg != null, Overlong());
        var go := Turn(fired, i, begun);
        assert forall k | 0 <= k < |before| :: events[k] == before[k];
        if !go {
          NoTooLongs(events, fired);
          return;
        }
        i := i + 1;
        words := i - TooLongs(events[|fired|..]);
      }
      OverlongHeld();
      TurnsEnd(events[|fired|..], i, begun, rdmsg != null, Overlong());
    }

    /** Only the length word of too long a message can be pending with such a length. */
    lemma MustBeOverlong(over: u32)
      requires ReadShape() && over > LAST_FRAGMENT + maxmsglen && |Pending()| >= 4 && Pending()[..4] == BigEndian(over)
      ensures Overlong()
    {
      hide Endian.BigEndian, FromBigEndian, CaughtUp;
      WordOfBytes(over);
      if rdmsg != null {
        WordOfBytes(LAST_FRAGMENT + rdmsg.Length);
        assert false;
      } else {
        assert nextlen[..4] == nextlen[..];
      }
    }

    /** The length word of an empty message is not left lying. */
    lemma HeldNotEmpty()
      requires ReadValid() && Held()
      ensures FromBigEndian(nextlen[..]) != LAST_FRAGMENT
    {
      hide CaughtUp, FromBigEndian;
      assert nextlen[..4] == nextlen[..];
    }

    lemma OverlongHeld()
      ensures Held() || Overlong() ==> rdmsg == null
    {
    }

    lemma StillPartial()
      requires ReadShape() && (rdmsg != null || rdpos < 4)
      ensures ReadValid()
    {
      if rdmsg != null {
        PartialFrame(rdmsg.Length, rdmsg[..rdpos], maxmsglen);
      }
    }

    // ---- writing -------------------------------------------------------------

    /** Until a write fails, what the kernel has accepted and what is queued are the frames of
        all messages put, `wsize` counts the queued bytes, and `wstart` lies in the front message. */
    ghost predicate WriteValid()
      reads this`wqueue, this`wsize, this`wstart, this`wfail, this`writing, this`put, outbound
    {
      && outbound.Valid()
      && (forall k | 0 <= k < |put| :: |put[k]| < LAST_FRAGMENT)
      && QueueShape(wqueue, wstart)
      && wsize == |Queued(wqueue, wstart)|
      && (wfail ==> wqueue == [])
      && (if wfail then outbound.sent <= Frames(put) else outbound.sent + Queued(wqueue, wstart) == Frames(put))
      && (writing ==> wsize > 0 || wfail)
    }

    /** Bytes are queued and nothing will ever write them. */
    ghost predicate Stalled()
      reads this`wsize, this`writing
    {
      wsize > 0 && !writing
    }

    /** msg_sock::pop_wbytes(). */
    method PopWbytes(n: nat)
      requires QueueShape(wqueue, wstart) && wsize == |Queued(wqueue, wstart)| && n <= wsize
      modifies this`wqueue, this`wsize, this`wstart
      ensures QueueShape(wqueue, wstart) && wsize == |Queued(wqueue, wstart)|
      ensures Queued(wqueue, wstart) == old(Queued(wqueue, wstart))[n..]
    {
      hide Concat, Queued;
      NothingQueued(wqueue, wstart);
      if n == 0 {
        return;
      }
      ghost var all := Queued(wqueue, wstart);
      QueuedFront(wqueue, wstart, n);
      wsize := wsize - n;
      var frontbytes := |wqueue[0]| - wstart;
      if n < frontbytes {
        wstart := wstart + n;
        return;
      }
      var left := n - frontbytes;
      wqueue := wqueue[1..];
      ConcatEmpty();
      while left > 0 && left >= |wqueue[0]|
        invariant forall k | 0 <= k < |wqueue| :: |wqueue[k]| >= 4
        invariant 0 <= left <= |Concat(wqueue)| && wsize == |Concat(wqueue)| - left
        invariant Concat(wqueue)[left..] == all[n..]
      {
        ConcatDrop(wqueue, left);
        left := left - |wqueue[0]|;
        wqueue := wqueue[1..];
      }
      wstart := left;
      if wqueue != [] {
        QueuedDrop(wqueue, left);
      }
    }

    /** Lines 160-172 of msg_sock::output: at most eight messages, the first without what is gone of it. */
    method Iovec() returns (v: seq<seq<byte>>)
      requires QueueShape(wqueue, wstart)
      ensures Concat(v) <= Queued(wqueue, wstart)
      ensures (v == [] <==> wqueue == []) && (wqueue != [] ==> Concat(v) != [])
    {
      var maxiov := 8;
      v := [];
      var i := 0;
      while i < maxiov && i < |wqueue|
        invariant 0 <= i <= maxiov && i <= |wqueue|
        invariant v == if i == 0 then [] else [wqueue[0][wstart..]] + wqueue[1..i]
      {
        if i > 0 {
          assert wqueue[1..i + 1] == wqueue[1..i] + [wqueue[i]];
          v := v + [wqueue[i]];
        } else {
          v := v + [wqueue[0][wstart..]];
        }
        i := i + 1;
      }
      if i > 0 {
        QueuedPrefix(wqueue, wstart, i);
      }
    }

    /** msg_sock::output(): one `writev` of at most eight messages. */
    method Output(cbset: bool) returns (ghost w: WriteResult)
      requires WriteValid() && cbset == writing
      modifies this`wqueue, this`wsize, this`wstart, this`wfail, this`writing, outbound`sent
      ensures WriteValid() && outbound.Valid() && outbound.Consumed() == old(outbound.Consumed())
      ensures old(wfail) ==> wfail
      ensures match w
        case Wrote(n) =>
          && 0 < n <= old(wsize) && wsize == old(wsize) - n && |outbound.sent| == |old(outbound.sent)| + n
          && outbound.sent == old(outbound.sent) + old(Queued(wqueue, wstart))[..n]
          && wfail == old(wfail) && writing == (wsize > 0)
        case Blocked => wqueue == old(wqueue) && wsize == old(wsize) && wfail == old(wfail) && writing == cbset
        case Lost => wfail && outbound.sent == old(outbound.sent)
      ensures outbound.lively && old(wsize) > 0 ==> w.Wrote?
    {
      hide Frames, Concat, Queued;
      var v := Iovec();
      ghost var queued := Queued(wqueue, wstart);
      NothingQueued(wqueue, wstart);
      var r := outbound.Write(v);
      w := r;
      if !r.Wrote? {
        if r == Lost {
          wfail := true;
          wsize, wstart := 0, 0;
          wqueue := [];
        }
        return;
      }
      TakenFrom(outbound.sent, old(outbound.sent), Concat(v), queued, r.n);
      PopWbytes(r.n);
      if wsize > 0 && !cbset {
        writing := true;
      } else if wsize == 0 && cbset {
        writing := false;
      }
    }

    /** msg_sock::putmsg(). */
    method PutMsg(m: seq<byte>) returns (ghost tried: bool, ghost w: WriteResult)
      requires WriteValid() && |m| < LAST_FRAGMENT
      modifies this`wqueue, this`wsize, this`wstart, this`wfail, this`writing, this`put, outbound`sent
      ensures WriteValid() && outbound.Valid() && outbound.Consumed() == old(outbound.Consumed())
      ensures old(wfail) ==> wfail
      ensures put == if old(wfail) then old(put) else old(put) + [m]
      ensures tried <==> !old(wfail) && old(wsize) == 0
      ensures !tried ==> outbound.sent == old(outbound.sent)
      // the one way to get stuck: the kernel takes nothing when the queue was empty
      ensures Stalled() <==> old(Stalled()) || (tried && w == Blocked)
    {
      hide Queued, Frames;
      tried, w := false, Lost;
      NothingQueued(wqueue, wstart);
      if wfail {
        return;
      }
      var wasEmpty := wsize == 0;
      QueuedAppend(wqueue, wstart, Frame(m));
      FramesAppend(put, [m]);
      FramesOne(m);
      put := put + [m];
      wsize := wsize + |Frame(m)|;
      wqueue := wqueue + [Frame(m)];
      if wasEmpty {
        tried := true;
        w := Output(false);
        NothingQueued(wqueue, wstart);
      }
    }
  }

  // ---- end to end ------------------------------------------------------------

  /** Whatever was written and read so far, the receiver has delivered a prefix of the
      messages put, in order, and refused nothing. When nothing is queued or on the way,
      it has delivered them all and holds no partial frame. */
  lemma EndToEnd(s: MsgSock, r: MsgSock)
    requires s.WriteValid() && r.ReadShape() && s.outbound == r.inbound
    requires Sendable(s.put, r.maxmsglen)
    ensures Delivered(r.events) <= s.put
    ensures Failure(Fragment) !in r.events && Failure(TooLong) !in r.events && !r.Overlong()
    ensures r.ReadValid() && !s.wfail && s.wsize == 0 && s.outbound.taken == |s.outbound.sent| ==>
      Delivered(r.events) == s.put && r.Pending() == []
  {
    hide Frames, Queued, Frame, Parse, Complete, Refused, Delivered, Concat;
    var consumed, pending := r.inbound.Consumed(), r.Pending();
    NothingQueued(s.wqueue, s.wstart);
    assert consumed <= s.outbound.sent <= Frames(s.put);
    ParsePrefix(s.put, consumed, r.maxmsglen);
    if r.ReadValid() {
      CaughtUpAtRest(consumed, Delivered(r.events), pending, r.maxmsglen);
    }
    if Failure(Fragment) in r.events || Failure(TooLong) in r.events || r.Overlong() {
      assert pending == r.nextlen[..] == pending[..4];
      RefusedBroken(pending, r.maxmsglen);
    }
  }

  lemma RefusedBroken(s: seq<byte>, limit: nat)
    requires |s| >= 4 && Refused(s, limit)
    ensures Parse(s, limit).broken
  {
  }

  /** The events of delivering some messages, and of some reports of too long a record. */
  function Brought(ms: seq<seq<byte>>, reports: nat): seq<Event> {
    seq(|ms|, k requires 0 <= k < |ms| => Message(ms[k])) + seq(reports, k => Failure(TooLong))
  }

  /** A stream of messages that ends in the length word of too long a one: what has been consumed when that
      word is held. */
  lemma AtRefusal(ms: seq<seq<byte>>, over: u32, limit: nat, consumed: seq<byte>, more: seq<byte>,
                  delivered: seq<seq<byte>>, pending: seq<byte>)
    requires Sendable(ms, limit) && over > LAST_FRAGMENT + limit
    requires consumed + more == Frames(ms) + BigEndian(over)
    requires CaughtUp(consumed, delivered, pending, limit) && !Complete(pending, limit)
    ensures delivered <= ms
    ensures |pending| >= 4 && (Refused(pending, limit) || pending[..4] == BigEndian(over)) ==>
      delivered == ms && pending == BigEndian(over) && more == []
    ensures more == [] ==> delivered == ms && pending == BigEndian(over)
  {
    hide Parse, Frames, Complete, Refused, Endian.BigEndian;
    var word := BigEndian(over);
    CaughtUpAtRest(consumed, delivered, pending, limit);
    RefusedWord(over, limit, []);
    ParseFrames(ms, word, limit);
    assert word + [] == word && ms + [] == ms;
    ParseAppend(consumed, more, limit);
    if |pending| >= 4 && (Refused(pending, limit) || pending[..4] == word) {
      if pending[..4] == word {
        RefusedWord(over, limit, pending[4..]);
        assert word + pending[4..] == pending;
      }
      RefusedStays(pending, more, limit);
    }
    if more == [] {
      assert consumed + [] == consumed;
    }
  }

  lemma RefusedWord(over: u32, limit: nat, more: seq<byte>)
    requires over > LAST_FRAGMENT + limit
    ensures var s := BigEndian(over) + more;
      Refused(s, limit) && !Complete(s, limit) && Parse(s, limit) == Parsed([], s, true)
  {
    hide Endian.BigEndian, FromBigEndian;
    WordOfBytes(over);
    assert (BigEndian(over) + more)[..4] == BigEndian(over);
  }

  lemma RefusedStays(s: seq<byte>, more: seq<byte>, limit: nat)
    requires |s| >= 4 && Refused(s, limit)
    ensures Parse(s, limit) == Parsed([], s, true) && Parse(s + more, limit) == Parsed([], s + more, true)
  {
    assert (s + more)[..4] == s[..4];
  }

  lemma {:induction false} AllMessages(events: seq<Event>)
    requires forall k | 0 <= k < |events| :: events[k].Message?
    ensures |Delivered(events)| == |events|
    ensures forall k | 0 <= k < |events| :: events[k] == Message(Delivered(events)[k])
  {
    if events != [] {
      var n := |events| - 1;
      AllMessages(events[..n]);
      assert forall k | 0 <= k < n :: events[k] == events[..n][k];
    }
  }

  lemma {:induction false} OnlyReports(events: seq<Event>, n: nat)
    requires n <= |events| && forall k | n <= k < |events| :: events[k] == Failure(TooLong)
    ensures Delivered(events) == Delivered(events[..n])
    decreases |events|
  {
    if n == |events| {
      assert events[..n] == events;
    } else {
      OnlyReports(events[..|events| - 1], n);
      assert events[..|events| - 1][..n] == events[..n];
    }
  }

  lemma BroughtAll(events: seq<Event>, n: nat)
    requires n <= |events| && (forall k | 0 <= k < n :: events[k].Message?)
    requires forall k | n <= k < |events| :: events[k] == Failure(TooLong)
    ensures |Delivered(events)| == n && events == Brought(Delivered(events), |events| - n)
  {
    OnlyReports(events, n);
    AllMessages(events[..n]);
    var b := Brought(Delivered(events), |events| - n);
    forall k | 0 <= k < |events| ensures events[k] == b[k] {
      if k < n {
        assert events[k] == events[..n][k];
      }
    }
  }

  /** When the call is over, nothing but the length word of too long a message can be pending. */
  lemma MustEnd(r: MsgSock, ms: seq<seq<byte>>, over: u32, more: seq<byte>)
    requires r.ReadValid() && |ms| <= 2 && Sendable(ms, r.maxmsglen) && over > LAST_FRAGMENT + r.maxmsglen
    requires r.inbound.Consumed() + more == Frames(ms) + BigEndian(over)
    requires forall k | 0 <= k < |r.events| :: r.events[k] != Failure(NoMemory)
    requires Failure(Fragment) in r.events || more == [] || Turns(r.events, 3, false, r.rdmsg != null, r.Overlong())
    ensures r.Overlong() && Delivered(r.events) == ms
  {
    hide Endian.BigEndian, FromBigEndian, Parse, CaughtUp, Complete, Frames, Frame, Delivered, Endian.Swap32;
    var consumed, pending, word := r.inbound.Consumed(), r.Pending(), BigEndian(over);
    AtRefusal(ms, over, r.maxmsglen, consumed, more, Delivered(r.events), pending);
    if r.Held() {
      assert pending == r.nextlen[..] && pending[..4] == pending;
    }
    if !r.Overlong() && more != [] && Failure(Fragment) !in r.events {
      AllMessages(r.events);
      assert Delivered(r.events) == ms && r.rdmsg != null;
      CaughtUpAtRest(consumed, ms, pending, r.maxmsglen);
      assert false;
    }
    assert pending == word;
    assert pending[..4] == word;
    r.MustBeOverlong(over);
  }

  /** On a socket where nothing is cut short or fails, too long a record behind at most two others, all of them
      there when input() is called: it is reported three times if it comes first, twice behind one other,
      and once behind two. */
  method OverlongArrives(ms: seq<seq<byte>>, over: u32, maxmsglen: nat, bigEndianHost: bool) returns (r: MsgSock)
    requires |ms| <= 2 && Sendable(ms, maxmsglen) && over > LAST_FRAGMENT + maxmsglen
    ensures r.events == Brought(ms, 3 - |ms|) && !r.reading
  {
    hide Endian.BigEndian, FromBigEndian, Parse, CaughtUp, Complete, Frames, Frame, Refused, Failures, Delivered;
    hide Turns, MsgSock.Overlong, MsgSock.Held, MsgSock.ReadShape, MsgSock.WriteValid;
    var wire := new Wire(true, true, Frames(ms) + BigEndian(over));
    var back := new Wire(false, false, []);
    r := new MsgSock(bigEndianHost, wire, back, maxmsglen, true);
    ghost var words := r.Input();
    ghost var consumed, more := wire.Consumed(), wire.sent[wire.taken..];
    assert consumed + more == Frames(ms) + BigEndian(over);
    assert r.events[0..] == r.events;
    MustEnd(r, ms, over, more);
    BroughtAll(r.events, |r.events| - TooLongs(r.events));
  }

  /** The reader is not disturbed by bytes that are sent and not yet read. */
  twostate lemma ReadKept(r: MsgSock)
    requires old(r.ReadShape()) && unchanged(r) && unchanged(r.nextlen) && (r.rdmsg != null ==> unchanged(r.rdmsg))
    requires r.inbound.Valid() && r.inbound.Consumed() == old(r.inbound.Consumed())
    ensures r.ReadShape() && (old(r.ReadValid()) ==> r.ReadValid())
  {
    hide CaughtUp, Complete;
  }

  /** The writer is not disturbed by bytes that are read. */
  twostate lemma WriteKept(s: MsgSock)
    requires old(s.WriteValid()) && unchanged(s)
    requires s.outbound.Valid() && s.outbound.sent == old(s.outbound.sent)
    ensures s.WriteValid()
  {
    hide Frames, Queued;
  }

  /** A session over one connection: puts, write callbacks and read callbacks in any order,
      every system call cut short anywhere. */
  method Session(msgs: seq<seq<byte>>, maxmsglen: nat, steps: nat, bigEndianHost: bool)
    returns (delivered: seq<seq<byte>>, refused: bool, drained: bool)
    requires Sendable(msgs, maxmsglen)
    ensures delivered <= msgs && !refused
    ensures drained ==> delivered == msgs
  {
    hide Delivered, CaughtUp, Complete, Refused, Parse, Frames, Frame, Queued, QueueShape, MsgSock.ReadShape;
    hide MsgSock.ReadValid, MsgSock.WriteValid;
    hide Turns, TooLongs, Accepting, Failures, MsgSock.Moves, MsgSock.Overlong, MsgSock.Held, MsgSock.Stalled;
    hide MsgSock.Pending;
    var wire := new Wire(false, false, []);
    var back := new Wire(false, false, []);
    var s := new MsgSock(bigEndianHost, back, wire, maxmsglen, false);
    var r := new MsgSock(bigEndianHost, wire, back, maxmsglen, false);
    var next, step := 0, 0;
    while step < steps && !r.destroyed
      invariant next <= |msgs| && s.put <= msgs[..next] && (!s.wfail ==> s.put == msgs[..next])
      invariant s.WriteValid() && r.ReadShape() && (!r.destroyed ==> r.ReadValid())
      invariant fresh(wire) && fresh(s) && fresh(r) && fresh(r.Buffers()) && s != r
      invariant s.outbound == r.inbound == wire && r.maxmsglen == maxmsglen
    {
      step := step + 1;
      label before:
      var choice: nat := *;
      if choice == 0 && next < |msgs| {
        ghost var tried, w := s.PutMsg(msgs[next]);
        next := next + 1;
        ReadKept@before(r);
      } else if choice == 1 && s.writing {
        ghost var w := s.Output(true);
        ReadKept@before(r);
      } else if r.reading {
        ghost var words := r.Input();
        WriteKept@before(s);
      }
    }
    EndToEnd(s, r);
    delivered := Delivered(r.events);
    refused := Failure(Fragment) in r.events || Failure(TooLong) in r.events;
    drained := next == |msgs| && !s.wfail && s.wsize == 0 && wire.taken == |wire.sent| && !r.destroyed;
  }

  /** Callbacks of a sender that has not stalled and of its receiver, in any order, while bytes are queued or on
      the way. Where every system call takes at least one byte, all messages put are delivered, after at most two
      calls for each byte queued and one for each on the way. */
  method Drain(s: MsgSock, r: MsgSock) returns (calls: nat)
    requires s != r && s.WriteValid() && s.outbound == r.inbound && s.outbound.lively && !s.wfail && !s.Stalled()
    requires r.ReadValid() && r.steady && !r.destroyed && r.reading && Sendable(s.put, r.maxmsglen)
    modifies s`wqueue, s`wsize, s`wstart, s`wfail, s`writing, s.outbound`sent, s.outbound`taken
    modifies r`rdmsg, r`rdpos, r`events, r`destroyed, r`reading, r.Buffers()
    ensures s.WriteValid() && r.ReadValid() && s.put == old(s.put) && Delivered(r.events) == s.put
    ensures s.wsize == 0 && r.Pending() == [] && !s.wfail && !r.destroyed
    ensures calls <= 2 * old(s.wsize) + |old(s.outbound.sent)| - old(s.outbound.taken)
  {
    hide Delivered, CaughtUp, Complete, Refused, Parse, Frames, Frame, Queued, QueueShape, Turns, TooLongs, Accepting;
    hide Failures;
    hide MsgSock.ReadShape, MsgSock.WriteValid, MsgSock.Overlong, MsgSock.Held, MsgSock.Pending;
    var wire := s.outbound;
    calls := 0;
    EndToEnd(s, r);
    SenderWire(s);
    while s.wsize > 0 || wire.taken < |wire.sent|
      invariant s.WriteValid() && r.ReadValid() && !s.wfail && !s.Stalled() && !r.destroyed && r.reading
      invariant fresh(r.Buffers() - old(r.Buffers())) && wire.Valid()
      invariant calls + 2 * s.wsize + |wire.sent| - wire.taken <= 2 * old(s.wsize) + |old(wire.sent)| - old(wire.taken)
      decreases 2 * s.wsize + |wire.sent| - wire.taken
    {
      calls := calls + 1;
      label before:
      var read: bool := *;
      if wire.taken < |wire.sent| && (read || s.wsize == 0) {
        ghost var words := r.Input();
        WriteKept@before(s);
      } else {
        ghost var w := s.Output(true);
        ReadKept@before(r);
      }
      EndToEnd(s, r);
    }
    EndToEnd(s, r);
  }

  lemma SenderWire(s: MsgSock)
    requires s.WriteValid()
    ensures s.outbound.Valid()
  {
  }
}
