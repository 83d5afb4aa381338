/** rpc_sock (msgsock.h, msgsock.cc): replies are matched to the callbacks of calls by
    the first word of the message, as it lies in memory. */
module RpcSock {
  import opened Endian
  import opened Wrappers
  import RpcMsg

  /** An invocation of a call's callback: with the reply, or with null. */
  datatype Firing = Firing(cb: nat, reply: Option<seq<byte>>)

  /** message_t::word(): a word of the message in memory order. */
  function Word(bigEndian: bool, m: seq<byte>, i: nat): u32
    requires 4 * i + 4 <= |m|
  {
    Load(bigEndian, m[4 * i..4 * i + 4])
  }

  /** The word that xid `x` is in memory once marshaled. */
  function Wire(bigEndian: bool, x: u32): u32 {
    Swap32le(bigEndian, x)
  }

  lemma WireIs(bigEndian: bool, x: u32)
    ensures Wire(bigEndian, x) == if bigEndian then x else Swap32(x)
  {
  }

  lemma WireInjective(bigEndian: bool, x: u32, y: u32)
    requires Wire(bigEndian, x) == Wire(bigEndian, y)
    ensures x == y
  {
    hide Swap32;
    if !bigEndian {
      SwapInjective(x, y);
    }
  }

  lemma MarshaledWord(bigEndian: bool, x: u32, rest: seq<byte>)
    ensures Word(bigEndian, BigEndian(x) + rest, 0) == Wire(bigEndian, x)
  {
    hide Swap32, Endian.BigEndian, FromBigEndian;
    var m := BigEndian(x) + rest;
    assert m[0..4] == BigEndian(x);
    NetworkOrderLoad(bigEndian, BigEndian(x));
    WordOfBytes(x);
    if !bigEndian {
      SwapTwice(Load(bigEndian, BigEndian(x)));
    }
  }

  /** The words of a message, as they lie in memory. */
  lemma {:induction false} WordAt(bigEndian: bool, ws: seq<u32>, rest: seq<byte>, i: nat)
    requires i < |ws|
    ensures var m := Words(ws) + rest; 4 * i + 4 <= |m| && Word(bigEndian, m, i) == Wire(bigEndian, ws[i])
  {
    hide Swap32, Endian.BigEndian, FromBigEndian, Wire;
    var m, more := Words(ws) + rest, Words(ws[1..]) + rest;
    assert m == BigEndian(ws[0]) + more;
    if i == 0 {
      MarshaledWord(bigEndian, ws[0], more);
    } else {
      WordAt(bigEndian, ws[1..], rest, i - 1);
      assert m[4 * i..4 * i + 4] == more[4 * (i - 1)..4 * (i - 1) + 4];
    }
  }

  /** The first two words of a message: the xid, and whether it is a call or a reply. */
  lemma FirstWords(bigEndian: bool, x: u32, kind: u32, rest: seq<byte>)
    ensures var m := BigEndian(x) + BigEndian(kind) + rest;
      && |m| >= 8 && Word(bigEndian, m, 0) == Wire(bigEndian, x) && Word(bigEndian, m, 1) == Wire(bigEndian, kind)
  {
    hide Endian.BigEndian, Wire, Word;
    assert [x, kind][1..] == [kind] && [kind][1..] == [];
    assert Words([kind]) == BigEndian(kind) + Words([]) == BigEndian(kind);
    assert Words([x, kind]) == BigEndian(x) + BigEndian(kind);
    WordAt(bigEndian, [x, kind], rest, 0);
    WordAt(bigEndian, [x, kind], rest, 1);
  }

  lemma OneKind(bigEndian: bool)
    ensures Wire(bigEndian, RpcMsg.CALL) != Wire(bigEndian, RpcMsg.REPLY)
  {
    hide Wire;
    if Wire(bigEndian, RpcMsg.CALL) == Wire(bigEndian, RpcMsg.REPLY) {
      WireInjective(bigEndian, RpcMsg.CALL, RpcMsg.REPLY);
    }
  }

  function Fired(log: seq<Firing>): set<nat> {
    set f | f in log :: f.cb
  }

  ghost predicate ReplyMatches(bigEndian: bool, f: Firing, issued: seq<u32>) {
    && f.cb < |issued|
    && (f.reply.Some? ==>
          && |f.reply.value| >= 8
          && Word(bigEndian, f.reply.value, 0) == Wire(bigEndian, issued[f.cb])
          && Word(bigEndian, f.reply.value, 1) == Wire(bigEndian, RpcMsg.REPLY))
  }

  /** What a table of callbacks says of them: each under its own xid, and neither invoked nor lost. */
  ghost predicate Waits(bigEndian: bool, table: map<u32, nat>, lost: set<nat>, log: seq<Firing>, issued: seq<u32>) {
    forall k | k in table ::
      table[k] < |issued| && k == Wire(bigEndian, issued[table[k]]) && table[k] !in Fired(log) && table[k] !in lost
  }

  /** Every callback given waits under its own xid, in `calls` or among those taken out of it, or was lost, or has
      been invoked: once, and with its own reply if with any. */
  ghost predicate Accounted(bigEndian: bool, calls: map<u32, nat>, held: map<u32, nat>, lost: set<nat>,
                            log: seq<Firing>, issued: seq<u32>)
  {
    && Waits(bigEndian, calls, lost, log, issued) && Waits(bigEndian, held, lost, log, issued)
    && (forall k | k in calls && k in held :: calls[k] != held[k])
    && (forall c | 0 <= c < |issued| ::
          var k := Wire(bigEndian, issued[c]);
          c in Fired(log) || c in lost || (k in calls && calls[k] == c) || (k in held && held[k] == c))
    && (forall c | c in lost :: c < |issued| && c !in Fired(log))
    && (forall i, j | 0 <= i < j < |log| :: log[i].cb != log[j].cb)
    && (forall f | f in log :: ReplyMatches(bigEndian, f, issued))
  }

  lemma FiredMore(log: seq<Firing>, f: Firing)
    ensures Fired(log + [f]) == Fired(log) + {f.cb}
  {
  }

  /** A callback is given, and waits under its word. */
  lemma AccountedIssue(bigEndian: bool, calls: map<u32, nat>, held: map<u32, nat>, lost: set<nat>,
                       log: seq<Firing>, issued: seq<u32>, x: u32)
    requires Accounted(bigEndian, calls, held, lost, log, issued) && Wire(bigEndian, x) !in calls
    ensures Accounted(bigEndian, calls[Wire(bigEndian, x) := |issued|], held, lost, log, issued + [x])
  {
    hide Wire;
    assert |issued| !in Fired(log);
  }

  /** A callback is given, and is lost since its word is taken. */
  lemma AccountedLose(bigEndian: bool, calls: map<u32, nat>, held: map<u32, nat>, lost: set<nat>,
                      log: seq<Firing>, issued: seq<u32>, x: u32)
    requires Accounted(bigEndian, calls, held, lost, log, issued)
    ensures Accounted(bigEndian, calls, held, lost + {|issued|}, log, issued + [x])
  {
    hide Wire;
    assert |issued| !in Fired(log);
  }

  /** A callback is taken out of `calls`. */
  lemma AccountedTake(bigEndian: bool, calls: map<u32, nat>, held: map<u32, nat>, lost: set<nat>,
                      log: seq<Firing>, issued: seq<u32>, key: u32)
    requires Accounted(bigEndian, calls, held, lost, log, issued) && key in calls && key !in held
    ensures Accounted(bigEndian, calls - {key}, held[key := calls[key]], lost, log, issued)
  {
    hide Wire;
  }

  /** A callback that was taken out is invoked. */
  lemma AccountedFire(bigEndian: bool, calls: map<u32, nat>, held: map<u32, nat>, key: u32, lost: set<nat>,
                      log: seq<Firing>, issued: seq<u32>, f: Firing)
    requires Accounted(bigEndian, calls, held[key := f.cb], lost, log, issued) && key !in held
    requires ReplyMatches(bigEndian, f, issued)
    ensures Accounted(bigEndian, calls, held, lost, log + [f], issued)
  {
    hide Wire;
    FiredMore(log, f);
    assert held[key := f.cb][key] == f.cb;
    assert forall k | k in held :: held[key := f.cb][k] == held[k];
  }

  /** No xid given out before is above the counter, so that a greater one is fresh. */
  lemma AboveIsFresh(bigEndian: bool, calls: map<u32, nat>, lost: set<nat>, log: seq<Firing>, issued: seq<u32>, x: u32)
    requires Waits(bigEndian, calls, lost, log, issued) && forall i | 0 <= i < |issued| :: issued[i] < x
    ensures Wire(bigEndian, x) !in calls
  {
    hide Wire;
    if Wire(bigEndian, x) in calls {
      WireInjective(bigEndian, issued[calls[Wire(bigEndian, x)]], x);
    }
  }

  /** All callbacks are taken out of `calls`. */
  lemma AccountedTakeAll(bigEndian: bool, calls: map<u32, nat>, lost: set<nat>, log: seq<Firing>, issued: seq<u32>)
    requires Accounted(bigEndian, calls, map[], lost, log, issued)
    ensures Accounted(bigEndian, map[], calls, lost, log, issued)
  {
    hide Wire;
  }

  lemma HeldValid(bigEndian: bool, calls: map<u32, nat>, held: map<u32, nat>, lost: set<nat>,
                  log: seq<Firing>, issued: seq<u32>, key: u32)
    requires Accounted(bigEndian, calls, held, lost, log, issued) && key in held
    ensures held[key] < |issued| && key == Wire(bigEndian, issued[held[key]])
    ensures ReplyMatches(bigEndian, Firing(held[key], None), issued)
  {
  }

  /** The xid that get_xid() comes to after `x`: the first above it that is not a key of `calls`, or 0
      if there is none. It looks for the host-order xid among words in memory order, and takes 0 unseen. */
  function NextXid(calls: map<u32, nat>, x: u32): (next: u32)
    ensures next == 0 || (x < next && next !in calls)
    ensures forall y: u32 | x < y && (next == 0 || y < next) :: y in calls
    decreases WORD - x
  {
    if x == WORD - 1 then 0 else if x + 1 in calls then NextXid(calls, x + 1) else x + 1
  }

  class RpcSock {
    const bigEndian: bool
    const hasServer: bool                 // servcb_ is set
    var xid: u32
    var calls: map<u32, nat>              // from the xid as it lies in memory to the callback
    var log: seq<Firing>                  // the callbacks invoked so far
    var sent: seq<seq<byte>>              // the messages handed to putmsg
    var received: seq<Option<seq<byte>>>  // what recv_call was invoked with
    var ncalls: nat                       // callbacks given so far, numbered in this order
    ghost var issued: seq<u32>            // the xid of each of these calls
    ghost var lostCalls: set<nat>         // those that send_call() lost
    ghost var wrapped: bool               // the xid counter has gone past its maximum

    /** The account while `held` callbacks have been taken out of `calls`. */
    ghost predicate Holds(held: map<u32, nat>)
      reads this
    {
      && ncalls == |issued| && Accounted(bigEndian, calls, held, lostCalls, log, issued)
      && (!wrapped ==> lostCalls == {} && forall i | 0 <= i < |issued| :: issued[i] <= xid)
    }

    ghost predicate Valid()
      reads this
    {
      Holds(map[])
    }

    constructor (bigEndian: bool, hasServer: bool)
      ensures Valid() && !wrapped && issued == [] && log == [] && calls == map[] && xid == 0 && lostCalls == {}
      ensures this.bigEndian == bigEndian && this.hasServer == hasServer
    {
      this.bigEndian, this.hasServer := bigEndian, hasServer;
      xid, calls, log, sent, received := 0, map[], [], [], [];
      ncalls, issued, lostCalls, wrapped := 0, [], {}, false;
    }

    /** get_xid(). */
    method GetXid() returns (x: u32)
      modifies this`xid, this`wrapped
      ensures x == xid == NextXid(calls, old(xid))
      ensures wrapped <==> old(wrapped) || x <= old(xid)
    {
      xid := if xid == WORD - 1 then 0 else xid + 1;
      wrapped := wrapped || xid == 0;
      while xid in calls && xid != 0
        invariant wrapped <==> old(wrapped) || xid == 0
        invariant xid != 0 ==> xid > old(xid)
        invariant NextXid(calls, old(xid)) == if xid in calls && xid != 0 then NextXid(calls, xid) else xid
        decreases if xid == 0 then 0 else WORD - xid
      {
        xid := if xid == WORD - 1 then 0 else xid + 1;
        wrapped := wrapped || xid == 0;
      }
      x := xid;
    }

    /** send_call(): `emplace` leaves an entry under the same word alone, and then the
        callback is lost. */
    method SendCall(b: seq<byte>, cb: nat) returns (lost: bool)
      requires |b| >= 4
      modifies this`calls, this`sent
      ensures var key := Word(bigEndian, b, 0);
        && (lost <==> key in old(calls))
        && calls == if lost then old(calls) else old(calls)[key := cb]
      ensures sent == old(sent) + [b]
    {
      var key := Word(bigEndian, b, 0);
      lost := key in calls;
      if !lost {
        calls := calls[key := cb];
      }
      sent := sent + [b];
    }

    /** A client's call: an xid, marshaled as the first word of the message. */
    method Invoke(rest: seq<byte>, ghost held: map<u32, nat>) returns (cb: nat, lost: bool)
      requires Holds(held)
      modifies this`xid, this`wrapped, this`calls, this`sent, this`issued, this`ncalls, this`lostCalls
      ensures Holds(held) && cb == old(ncalls) && issued == old(issued) + [xid]
      ensures lostCalls == if lost then old(lostCalls) + {cb} else old(lostCalls)
      ensures (wrapped <==> old(wrapped) || xid <= old(xid)) && (!wrapped ==> !lost)
      // which call is lost: on a little-endian host, maybe one whose xid waits for its reply
      ensures xid == NextXid(old(calls), old(xid))
      ensures bigEndian ==> (lost <==> xid == 0 && 0 in old(calls))
      ensures !bigEndian ==> (lost <==> Swap32(xid) in old(calls))
      ensures calls == if lost then old(calls) else old(calls)[Wire(bigEndian, xid) := cb]
    {
      hide Endian.BigEndian, Wire, Word, Waits;
      var x := GetXid();
      MarshaledWord(bigEndian, x, rest);
      WireIs(bigEndian, x);
      if !wrapped {
        AboveIsFresh(bigEndian, calls, lostCalls, log, issued, x);
      }
      if Wire(bigEndian, x) in calls {
        AccountedLose(bigEndian, calls, held, lostCalls, log, issued, x);
      } else {
        AccountedIssue(bigEndian, calls, held, lostCalls, log, issued, x);
      }
      hide Accounted;
      cb := ncalls;
      lost := SendCall(BigEndian(x) + rest, cb);
      ncalls := ncalls + 1;
      issued := issued + [x];
      if lost {
        lostCalls := lostCalls + {cb};
      }
    }

    /** cb(...): a callback is invoked, and may make any number of further calls unless the
        socket is being destroyed. */
    method Fire(cb: nat, reply: Option<seq<byte>>, alive: bool, ghost key: u32, ghost held: map<u32, nat>)
      requires Holds(held[key := cb]) && key !in held && ReplyMatches(bigEndian, Firing(cb, reply), issued)
      modifies this`xid, this`wrapped, this`calls, this`sent, this`issued, this`ncalls, this`log, this`lostCalls
      ensures Holds(held) && log == old(log) + [Firing(cb, reply)] && old(issued) <= issued
      ensures old(wrapped) ==> wrapped
      ensures !alive ==>
        calls == old(calls) && issued == old(issued) && wrapped == old(wrapped) && lostCalls == old(lostCalls)
    {
      hide Accounted, ReplyMatches;
      AccountedFire(bigEndian, calls, held, key, lostCalls, log, issued, Firing(cb, reply));
      log := log + [Firing(cb, reply)];
      if alive {
        var n: nat, i: nat := *, 0;
        while i < n
          invariant Holds(held) && old(issued) <= issued && (old(wrapped) ==> wrapped)
          invariant log == old(log) + [Firing(cb, reply)]
        {
          i := i + 1;
          var rest: seq<byte> := *;
          var next, lost := Invoke(rest, held);
        }
      }
    }

    /** recv_call(): without a server callback, a null message is dereferenced. */
    method RecvCall(b: Option<seq<byte>>) returns (nullDeref: bool)
      modifies this`received
      ensures received == old(received) + [b]
      ensures nullDeref <==> !hasServer && b == None
    {
      received := received + [b];
      nullDeref := !hasServer && b == None;
    }

    /** One round of abort_all_calls(), on the callbacks moved out of `calls`. */
    method AbortOne(k: u32, cb: nat, alive: bool, ghost waiting: map<u32, nat>)
      requires Holds(waiting) && k in waiting && waiting[k] == cb
      modifies this`xid, this`wrapped, this`calls, this`sent, this`issued, this`ncalls, this`log, this`lostCalls
      ensures Holds(waiting - {k}) && log == old(log) + [Firing(cb, None)] && old(issued) <= issued
      ensures Fired(log) == Fired(old(log)) + {cb}
      ensures old(wrapped) ==> wrapped
      ensures !alive ==>
        calls == old(calls) && issued == old(issued) && wrapped == old(wrapped) && lostCalls == old(lostCalls)
    {
      HeldValid(bigEndian, calls, waiting, lostCalls, log, issued, k);
      FiredMore(log, Firing(cb, None));
      hide Accounted, Fired, ReplyMatches, Wire;
      assert waiting == (waiting - {k})[k := cb];
      Fire(cb, None, alive, k, waiting - {k});
    }

    /** abort_all_calls(): every waiting callback is invoked with null. */
    method AbortAllCalls(alive: bool)
      requires Valid()
      modifies this`xid, this`wrapped, this`calls, this`sent, this`issued, this`ncalls, this`log, this`lostCalls
      ensures Valid() && old(log) <= log && old(issued) <= issued && (old(wrapped) ==> wrapped)
      ensures forall i | |old(log)| <= i < |log| :: log[i].reply == None
      ensures forall k | k in old(calls) :: old(calls)[k] in Fired(log)
      ensures !alive ==>
        calls == map[] && issued == old(issued) && wrapped == old(wrapped) && lostCalls == old(lostCalls)
    {
      hide Accounted, Fired;
      var rest := calls;
      AccountedTakeAll(bigEndian, calls, lostCalls, log, issued);
      calls := map[];
      assert Holds(rest);
      hide RpcSock.Holds;
      while rest != map[]
        invariant Holds(rest) && old(log) <= log && old(issued) <= issued && (old(wrapped) ==> wrapped)
        invariant forall i | |old(log)| <= i < |log| :: log[i].reply == None
        invariant forall k | k in old(calls) :: (k in rest && rest[k] == old(calls)[k]) || old(calls)[k] in Fired(log)
        invariant !alive ==>
          calls == map[] && issued == old(issued) && wrapped == old(wrapped) && lostCalls == old(lostCalls)
        decreases |rest|
      {
        var k :| k in rest;
        AbortOne(k, rest[k], alive, rest);
        rest := rest - {k};
      }
    }

    lemma KindByBytes(b: Option<seq<byte>>)
      ensures forall x: u32, rest | b == Some(BigEndian(x) + BigEndian(1) + rest) ::
        IsReply(b) && !IsCall(b) && Word(bigEndian, b.value, 0) == Wire(bigEndian, x)
      ensures forall x: u32, rest | b == Some(BigEndian(x) + BigEndian(0) + rest) :: IsCall(b) && !IsReply(b)
    {
      hide Endian.BigEndian, Wire, Word;
      OneKind(bigEndian);
      forall x: u32, rest | b == Some(BigEndian(x) + BigEndian(1) + rest)
        ensures IsReply(b) && !IsCall(b) && Word(bigEndian, b.value, 0) == Wire(bigEndian, x)
      {
        FirstWords(bigEndian, x, 1, rest);
      }
      forall x: u32, rest | b == Some(BigEndian(x) + BigEndian(0) + rest) ensures IsCall(b) && !IsReply(b) {
        FirstWords(bigEndian, x, 0, rest);
      }
    }

    lemma KindByWord(b: Option<seq<byte>>)
      ensures IsReply(b) || IsCall(b) ==> b.Some? && |b.value| >= 8
      ensures b.Some? && |b.value| >= 8 ==>
        && (IsReply(b) <==> Word(bigEndian, b.value, 1) == Swap32le(bigEndian, RpcMsg.REPLY))
        && (IsCall(b) <==> Word(bigEndian, b.value, 1) == Swap32le(bigEndian, RpcMsg.CALL))
      ensures !(IsReply(b) && IsCall(b))
    {
      hide Swap32, Word;
      OneKind(bigEndian);
    }

    /** recv_msg(). */
    method RecvMsg(b: Option<seq<byte>>) returns (nullDeref: bool)
      requires Valid()
      modifies this`xid, this`wrapped, this`calls, this`sent, this`issued, this`ncalls, this`log, this`lostCalls
      modifies this`received
      ensures Valid() && old(log) <= log && old(issued) <= issued && (old(wrapped) ==> wrapped)
      // on the bytes of a message: a reply goes to the callback that waits for its xid, if there is one, and to no
      // other, and a call to recv_call()
      ensures forall x: u32, rest :: b == Some(BigEndian(x) + BigEndian(1) + rest) ==>
        var k := Wire(bigEndian, x);
        && received == old(received)
        && log == old(log) + if k in old(calls) then [Firing(old(calls)[k], b)] else []
      ensures forall x: u32, rest :: b == Some(BigEndian(x) + BigEndian(0) + rest) ==>
        log == old(log) && calls == old(calls) && received == old(received) + [b]
      // a reply to an unknown call disturbs nothing
      ensures IsReply(b) && Word(bigEndian, b.value, 0) !in old(calls) ==>
        log == old(log) && calls == old(calls) && received == old(received)
      // a reply to a waiting call goes to its callback, and to no other
      ensures IsReply(b) && Word(bigEndian, b.value, 0) in old(calls) ==>
        log == old(log) + [Firing(old(calls)[Word(bigEndian, b.value, 0)], b)] && received == old(received)
      // without a server callback, garbage and the end of the stream make recv_call() use a null message
      ensures nullDeref <==> !hasServer && !IsReply(b) && !IsCall(b)
      ensures IsCall(b) ==> log == old(log) && calls == old(calls) && received == old(received) + [b]
      ensures !IsReply(b) && !IsCall(b) ==>
        && (forall k | k in old(calls) :: old(calls)[k] in Fired(log))
        && received == old(received) + [None]
    {
      KindByBytes(b);
      KindByWord(b);
      hide Accounted, Fired, Endian.BigEndian, Word, Swap32, IsReply, IsCall;
      nullDeref := false;
      if b == None || |b.value| < 8 {
        AbortAllCalls(true);
        nullDeref := RecvCall(None);
      } else if Word(bigEndian, b.value, 1) == Swap32le(bigEndian, RpcMsg.CALL) {
        nullDeref := RecvCall(b);
      } else if Word(bigEndian, b.value, 1) == Swap32le(bigEndian, RpcMsg.REPLY) {
        var key := Word(bigEndian, b.value, 0);
        if key !in calls {
          return;
        }
        var cb := calls[key];
        AccountedTake(bigEndian, calls, map[], lostCalls, log, issued, key);
        HeldValid(bigEndian, calls - {key}, map[key := cb], lostCalls, log, issued, key);
        calls := calls - {key};
        Fire(cb, b, true, key, map[]);
      } else {
        AbortAllCalls(true);
        nullDeref := RecvCall(None);
      }
    }

    predicate IsReply(b: Option<seq<byte>>) {
      b.Some? && |b.value| >= 8 && Word(bigEndian, b.value, 1) == Wire(bigEndian, RpcMsg.REPLY)
    }

    predicate IsCall(b: Option<seq<byte>>) {
      b.Some? && |b.value| >= 8 && Word(bigEndian, b.value, 1) == Wire(bigEndian, RpcMsg.CALL)
    }

    /** ~rpc_sock(): in every run, every callback ever given has by then been invoked exactly once, with the reply
        that carries its own xid or with null, if and only if send_call() has not lost it; until the xid counter
        wraps, it has lost none. */
    method Destroy()
      requires Valid()
      modifies this`xid, this`wrapped, this`calls, this`sent, this`issued, this`ncalls, this`log, this`lostCalls
      ensures old(log) <= log && issued == old(issued) && wrapped == old(wrapped) && lostCalls == old(lostCalls)
      ensures forall c | 0 <= c < |issued| :: c in Fired(log) <==> c !in lostCalls
      ensures forall i, j | 0 <= i < j < |log| :: log[i].cb != log[j].cb
      ensures forall f | f in log :: ReplyMatches(bigEndian, f, issued)
      ensures !wrapped ==> lostCalls == {}
    {
      AbortAllCalls(false);
    }
  }

  /** On a little-endian host the counter comes round to 0 while the first call still waits: its xid is given out
      again, and the second callback is lost. */
  method Collision(hasServer: bool, rest: seq<byte>) returns (r: RpcSock, first: nat, second: nat, lost: bool)
    ensures !r.bigEndian && r.issued == [1, 1] && first != second
    ensures lost && r.calls == map[Wire(false, 1) := first] && r.lostCalls == {second}
  {
    assert Wire(false, 1) == Swap32(1) == 0x100_0000;
    hide Accounted, Wire, Swap32;
    r := new RpcSock(false, hasServer);
    assert NextXid(r.calls, 0) == 1;
    first, lost := r.Invoke(rest, map[]);
    while r.xid != 0
      invariant r.wrapped <==> r.xid == 0
      decreases if r.xid == 0 then 0 else WORD - r.xid
      modifies r`xid, r`wrapped
    {
      var x := r.GetXid();
    }
    assert NextXid(r.calls, 0) == 1;
    second, lost := r.Invoke(rest, map[]);
  }
}
