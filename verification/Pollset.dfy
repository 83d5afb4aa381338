/** pollset: a dense vector of descriptors for poll(2) and a hash index into it, kept in
    step through registration, one-shot firing and compaction. */
module Pollset {
  import opened Wrappers

  type Callback = nat

  /** What a registration is for; `once` makes it one-shot. */
  datatype Op = Op(read: bool, write: bool, once: bool)

  datatype PollFd = PollFd(fd: int, pollin: bool, pollout: bool)
  {
    predicate Events() {
      pollin || pollout
    }
  }

  datatype FdState = FdState(rcb: Option<Callback>, wcb: Option<Callback>, idx: int, roneshot: bool, woneshot: bool)
  {
    predicate Active() {
      rcb.Some? || wcb.Some?
    }
  }

  /** The same registration, wherever it is in the vector. */
  predicate Same(a: FdState, b: FdState) {
    a == b.(idx := a.idx)
  }

  /** A callback that was run for a descriptor, with what was registered when it started. */
  datatype Firing = Firing(fd: int, read: bool, cb: Callback, once: bool, registered: Option<Callback>)

  ghost predicate Bijection(pollfds: seq<PollFd>, state: map<int, FdState>) {
    && (forall s | s in state :: 0 <= state[s].idx < |pollfds| && pollfds[state[s].idx].fd == s)
    && (forall i | 0 <= i < |pollfds| :: pollfds[i].fd in state && state[pollfds[i].fd].idx == i)
  }

  /** A descriptor is polled for exactly what it has callbacks for. */
  ghost predicate Agree(pollfds: seq<PollFd>, state: map<int, FdState>) {
    forall i | 0 <= i < |pollfds| && pollfds[i].fd in state ::
      && (pollfds[i].pollin <==> state[pollfds[i].fd].rcb.Some?)
      && (pollfds[i].pollout <==> state[pollfds[i].fd].wcb.Some?)
  }

  /** The same, but for the operations `op` on descriptor `s`. */
  ghost predicate AgreeBut(pollfds: seq<PollFd>, state: map<int, FdState>, s: int, op: Op) {
    forall i | 0 <= i < |pollfds| && pollfds[i].fd in state ::
      var p, fs := pollfds[i], state[pollfds[i].fd];
      && ((p.fd == s && op.read) || (p.pollin <==> fs.rcb.Some?))
      && ((p.fd == s && op.write) || (p.pollout <==> fs.wcb.Some?))
  }

  /** `now` lacks only descriptors of `before` that have no callback, and has the rest unchanged. */
  ghost predicate OnlyIdleGone(before: map<int, FdState>, now: map<int, FdState>) {
    && (forall s | s in now :: s in before && Same(now[s], before[s]))
    && (forall s | s in before && s !in now :: !before[s].Active())
  }

  lemma NoneGone(state: map<int, FdState>)
    ensures OnlyIdleGone(state, state)
  {
  }

  lemma OneGone(before: map<int, FdState>, now: map<int, FdState>, s: int)
    requires OnlyIdleGone(before, now) && s in now && !now[s].Active()
    ensures OnlyIdleGone(before, now - {s})
  {
  }

  lemma OneMoved(before: map<int, FdState>, now: map<int, FdState>, s: int, i: int)
    requires OnlyIdleGone(before, now) && s in now
    ensures OnlyIdleGone(before, now[s := now[s].(idx := i)])
  {
  }

  /** The descriptor at `i`, which has no callback, is overwritten by the last one. */
  lemma SwapWithLast(pollfds: seq<PollFd>, state: map<int, FdState>, i: nat, moved: seq<PollFd>,
                     left: map<int, FdState>)
    requires Bijection(pollfds, state) && Agree(pollfds, state) && i < |pollfds| - 1
    requires var last := pollfds[|pollfds| - 1];
      && moved == pollfds[i := last][..|pollfds| - 1]
      && left == (state - {pollfds[i].fd})[last.fd := state[last.fd].(idx := i)]
    ensures Bijection(moved, left) && Agree(moved, left)
  {
  }

  lemma DropLast(pollfds: seq<PollFd>, state: map<int, FdState>)
    requires Bijection(pollfds, state) && Agree(pollfds, state) && |pollfds| > 0
    ensures var n := |pollfds| - 1;
      Bijection(pollfds[..n], state - {pollfds[n].fd}) && Agree(pollfds[..n], state - {pollfds[n].fd})
  {
  }

  /** The entry and the state of one descriptor change. */
  lemma Updated(pollfds: seq<PollFd>, state: map<int, FdState>, s: int, before: Op, p: PollFd, fs: FdState, after: Op)
    requires Bijection(pollfds, state) && AgreeBut(pollfds, state, s, before)
    requires s in state && p.fd == s && fs.idx == state[s].idx
    requires after.read || (p.pollin <==> fs.rcb.Some?)
    requires after.write || (p.pollout <==> fs.wcb.Some?)
    ensures 0 <= fs.idx < |pollfds|
    ensures Bijection(pollfds[fs.idx := p], state[s := fs])
    ensures AgreeBut(pollfds[fs.idx := p], state[s := fs], s, after)
  {
  }

  /** A descriptor is added. */
  lemma Added(pollfds: seq<PollFd>, state: map<int, FdState>, s: int, fs: FdState)
    requires Bijection(pollfds, state) && Agree(pollfds, state) && s !in state
    requires fs.rcb == fs.wcb == None && fs.idx == |pollfds|
    ensures Bijection(pollfds + [PollFd(s, false, false)], state[s := fs])
    ensures Agree(pollfds + [PollFd(s, false, false)], state[s := fs])
  {
  }

  lemma AgreeWeaken(pollfds: seq<PollFd>, state: map<int, FdState>, s: int, op: Op)
    requires Agree(pollfds, state)
    ensures AgreeBut(pollfds, state, s, op)
  {
  }

  lemma AgreeStrengthen(pollfds: seq<PollFd>, state: map<int, FdState>, s: int)
    requires AgreeBut(pollfds, state, s, Op(false, false, false))
    ensures Agree(pollfds, state)
  {
  }

  lemma NoEntry(pollfds: seq<PollFd>, state: map<int, FdState>, s: int, op: Op)
    requires Bijection(pollfds, state) && AgreeBut(pollfds, state, s, op) && s !in state
    ensures Agree(pollfds, state)
  {
  }

  lemma Entry(pollfds: seq<PollFd>, state: map<int, FdState>, s: int, op: Op)
    requires Bijection(pollfds, state) && AgreeBut(pollfds, state, s, op) && s in state
    ensures var fs := state[s];
      && 0 <= fs.idx < |pollfds| && pollfds[fs.idx].fd == s
      && (op.read || (pollfds[fs.idx].pollin <==> fs.rcb.Some?))
      && (op.write || (pollfds[fs.idx].pollout <==> fs.wcb.Some?))
  {
  }

  lemma EntryAt(pollfds: seq<PollFd>, state: map<int, FdState>, i: nat)
    requires Bijection(pollfds, state) && Agree(pollfds, state) && i < |pollfds|
    ensures var s := pollfds[i].fd;
      && s in state && state[s].idx == i
      && (pollfds[i].pollin <==> state[s].rcb.Some?) && (pollfds[i].pollout <==> state[s].wcb.Some?)
      && AgreeBut(pollfds, state, s, Op(false, false, false))
  {
  }

  lemma Distinct(pollfds: seq<PollFd>, state: map<int, FdState>, i: nat)
    requires Bijection(pollfds, state) && i < |pollfds|
    ensures forall j | 0 <= j < i :: pollfds[j].fd != pollfds[i].fd
  {
  }

  ghost function Fds(pollfds: seq<PollFd>): (fds: seq<int>)
    ensures |fds| == |pollfds| && forall i | 0 <= i < |fds| :: fds[i] == pollfds[i].fd
  {
    seq(|pollfds|, i requires 0 <= i < |pollfds| => pollfds[i].fd)
  }

  lemma AllActive(pollfds: seq<PollFd>, state: map<int, FdState>)
    requires Bijection(pollfds, state) && Agree(pollfds, state)
    requires forall j | 0 <= j < |pollfds| :: pollfds[j].Events()
    ensures forall s | s in state :: state[s].Active()
  {
    forall s | s in state ensures state[s].Active() {
      EntryAt(pollfds, state, state[s].idx);
    }
  }

  // ---- what a call of poll() has done ----------------------------------------

  /** What poll(2) returns: how many of the first `i` descriptors it reports ready. */
  function Ready(readable: seq<bool>, writable: seq<bool>, i: nat): nat
    requires i <= |readable| == |writable|
  {
    if i == 0 then 0 else Ready(readable, writable, i - 1) + if readable[i - 1] || writable[i - 1] then 1 else 0
  }

  /** The rest are not ready once all that were reported have been seen. */
  lemma {:induction false} ReadyRest(readable: seq<bool>, writable: seq<bool>, i: nat, n: nat)
    requires i <= n <= |readable| == |writable|
    ensures Ready(readable, writable, i) <= Ready(readable, writable, n)
    ensures Ready(readable, writable, i) == Ready(readable, writable, n) ==>
      forall j | i <= j < n :: !readable[j] && !writable[j]
  {
    if i < n {
      ReadyRest(readable, writable, i, n - 1);
    }
  }

  predicate IsReady(readable: seq<bool>, writable: seq<bool>, i: nat, read: bool)
    requires i < |readable| == |writable|
  {
    if read then readable[i] else writable[i]
  }

  /** The callback registered for an operation. */
  function Registered(fs: FdState, read: bool): Option<Callback> {
    if read then fs.rcb else fs.wcb
  }

  /** Registrations that no callback has touched are as they were. */
  ghost predicate Kept(before: map<int, FdState>, now: map<int, FdState>, touched: set<(int, bool)>) {
    forall s, read | s in before && (s, read) !in touched ::
      s in now && Registered(now[s], read) == Registered(before[s], read)
  }

  /** What ran since `start` was what was registered by then, with one-shot ones gone, and ran for one of the
      descriptors `fds`, for none twice for the same operation. */
  ghost predicate Orderly(log: seq<Firing>, start: nat, fds: seq<int>) {
    && (forall k | start <= k < |log| ::
          log[k].fd in fds && log[k].registered == if log[k].once then None else Some(log[k].cb))
    && (forall k, l | start <= k < l < |log| :: log[k].fd != log[l].fd || (log[k].read && !log[l].read))
  }

  /** A callback ran for one of the first `i` descriptors, and that was ready for it. */
  ghost predicate Caused(f: Firing, fds: seq<int>, readable: seq<bool>, writable: seq<bool>, i: nat)
    requires i <= |fds| == |readable| == |writable|
  {
    exists j: nat | j < i :: f.fd == fds[j] && IsReady(readable, writable, j, f.read)
  }

  ghost predicate Explained(log: seq<Firing>, start: nat, fds: seq<int>, readable: seq<bool>, writable: seq<bool>,
                            i: nat)
    requires i <= |fds| == |readable| == |writable|
  {
    forall k | start <= k < |log| :: Caused(log[k], fds, readable, writable, i)
  }

  /** The callback `cb` of a descriptor ran. */
  ghost predicate Served(log: seq<Firing>, start: nat, fd: int, read: bool, cb: Option<Callback>) {
    exists k | start <= k < |log| :: log[k].fd == fd && log[k].read == read && Some(log[k].cb) == cb
  }

  /** Of the first `i` descriptors, those that were ready have been served, as far as no callback has
      touched them. */
  ghost predicate AllServed(log: seq<Firing>, start: nat, fds: seq<int>, before: map<int, FdState>,
                            readable: seq<bool>, writable: seq<bool>, touched: set<(int, bool)>, i: nat)
    requires i <= |fds| == |readable| == |writable|
  {
    forall j: nat, read | j < i && IsReady(readable, writable, j, read) ::
      && fds[j] in before
      && (Registered(before[fds[j]], read).Some? && (fds[j], read) !in touched ==>
            Served(log, start, fds[j], read, Registered(before[fds[j]], read)))
  }

  /** The registrations of the descriptors that are still to come. */
  ghost function ToCome(before: map<int, FdState>, fds: seq<int>, i: nat): map<int, FdState>
    requires i <= |fds|
  {
    before - (set fd | fd in fds[..i])
  }

  /** After `i` turns of the loop of pollset::poll. */
  ghost predicate Polled(log: seq<Firing>, start: nat, fds: seq<int>, before: map<int, FdState>, now: map<int, FdState>,
                         readable: seq<bool>, writable: seq<bool>, touched: set<(int, bool)>, i: nat)
    requires i <= |fds| == |readable| == |writable|
  {
    && Orderly(log, start, fds[..i]) && Explained(log, start, fds, readable, writable, i)
    && AllServed(log, start, fds, before, readable, writable, touched, i) && Kept(ToCome(before, fds, i), now, touched)
  }

  /** What has been explained: whatever ran, ran for an entry that was ready for it. */
  lemma RanMeans(log: seq<Firing>, start: nat, fds: seq<int>, readable: seq<bool>, writable: seq<bool>, k: nat)
    requires |fds| == |readable| == |writable| && Explained(log, start, fds, readable, writable, |fds|)
    requires start <= k < |log|
    ensures exists j: nat :: j < |fds| && fds[j] == log[k].fd && if log[k].read then readable[j] else writable[j]
  {
    assert Caused(log[k], fds, readable, writable, |fds|);
  }

  /** What has been served: the callbacks registered for an entry that was readable or writable have run. */
  lemma ServedMeans(log: seq<Firing>, start: nat, fds: seq<int>, before: map<int, FdState>,
                    readable: seq<bool>, writable: seq<bool>, touched: set<(int, bool)>, j: nat)
    requires |fds| == |readable| == |writable| && j < |fds|
    requires AllServed(log, start, fds, before, readable, writable, touched, |fds|)
    ensures readable[j] || writable[j] ==> fds[j] in before
    ensures readable[j] && before[fds[j]].rcb.Some? && (fds[j], true) !in touched ==> exists k: nat ::
      start <= k < |log| && log[k].fd == fds[j] && log[k].read && log[k].cb == before[fds[j]].rcb.value
    ensures writable[j] && before[fds[j]].wcb.Some? && (fds[j], false) !in touched ==> exists k: nat ::
      start <= k < |log| && log[k].fd == fds[j] && !log[k].read && log[k].cb == before[fds[j]].wcb.value
  {
    assert readable[j] ==> IsReady(readable, writable, j, true);
    assert writable[j] ==> IsReady(readable, writable, j, false);
  }

  lemma PolledStart(log: seq<Firing>, fds: seq<int>, before: map<int, FdState>, readable: seq<bool>,
                    writable: seq<bool>)
    requires |fds| == |readable| == |writable|
    ensures Polled(log, |log|, fds, before, before, readable, writable, {}, 0)
  {
  }

  lemma OrderlyMore(log: seq<Firing>, log': seq<Firing>, start: nat, fds: seq<int>, fd: int)
    requires start <= |log| && log <= log' && Orderly(log, start, fds) && Orderly(log', |log|, [fd]) && fd !in fds
    ensures Orderly(log', start, fds + [fd])
  {
    assert forall k | 0 <= k < |log| :: log'[k] == log[k];
  }

  lemma ExplainedMore(log: seq<Firing>, log': seq<Firing>, start: nat, fds: seq<int>, readable: seq<bool>,
                      writable: seq<bool>, i: nat)
    requires i < |fds| == |readable| == |writable| && start <= |log| && log <= log'
    requires Explained(log, start, fds, readable, writable, i)
    requires forall k | |log| <= k < |log'| :: log'[k].fd == fds[i] && IsReady(readable, writable, i, log'[k].read)
    ensures Explained(log', start, fds, readable, writable, i + 1)
  {
    forall k | start <= k < |log'| ensures Caused(log'[k], fds, readable, writable, i + 1) {
      if k < |log| {
        assert Caused(log[k], fds, readable, writable, i);
      }
    }
  }

  lemma ServedMore(log: seq<Firing>, log': seq<Firing>, start: nat, fds: seq<int>, before: map<int, FdState>,
                   mid: map<int, FdState>, readable: seq<bool>, writable: seq<bool>, touched: set<(int, bool)>,
                   touched': set<(int, bool)>, i: nat)
    requires i < |fds| == |readable| == |writable| && start <= |log| && log <= log' && touched <= touched'
    requires fds[i] in before && fds[i] in mid && fds[i] !in fds[..i] && Kept(ToCome(before, fds, i), mid, touched)
    requires AllServed(log, start, fds, before, readable, writable, touched, i)
    requires forall read | IsReady(readable, writable, i, read) && (read || (fds[i], false) !in touched') ::
      Registered(mid[fds[i]], read).Some? ==> Served(log', |log|, fds[i], read, Registered(mid[fds[i]], read))
    ensures AllServed(log', start, fds, before, readable, writable, touched', i + 1)
  {
    forall j: nat, read | j < i + 1 && IsReady(readable, writable, j, read)
      && Registered(before[fds[j]], read).Some? && (fds[j], read) !in touched'
      ensures Served(log', start, fds[j], read, Registered(before[fds[j]], read))
    {
      if j < i {
        var cb := Registered(before[fds[j]], read);
        var k :| start <= k < |log| && log[k].fd == fds[j] && log[k].read == read && Some(log[k].cb) == cb;
        assert log'[k] == log[k];
      } else {
        assert fds[i] in ToCome(before, fds, i);
        assert Registered(mid[fds[i]], read) == Registered(before[fds[i]], read);
        assert Served(log', |log|, fds[i], read, Registered(mid[fds[i]], read));
      }
    }
  }

  lemma KeptMore(fds: seq<int>, before: map<int, FdState>, mid: map<int, FdState>, now: map<int, FdState>,
                 touched: set<(int, bool)>, touched': set<(int, bool)>, i: nat)
    requires i < |fds| && touched <= touched' && Kept(ToCome(before, fds, i), mid, touched)
    requires Kept(mid - {fds[i]}, now, touched')
    ensures Kept(ToCome(before, fds, i + 1), now, touched')
  {
    assert fds[..i + 1] == fds[..i] + [fds[i]];
  }

  lemma PolledTurn(log: seq<Firing>, log': seq<Firing>, start: nat, fds: seq<int>, before: map<int, FdState>,
                   mid: map<int, FdState>, now: map<int, FdState>, readable: seq<bool>, writable: seq<bool>,
                   touched: set<(int, bool)>, touched': set<(int, bool)>, i: nat)
    requires i < |fds| == |readable| == |writable| && start <= |log| && log <= log' && touched <= touched'
    requires fds[i] in before && fds[i] in mid && fds[i] !in fds[..i]
    requires Polled(log, start, fds, before, mid, readable, writable, touched, i)
    requires Orderly(log', |log|, [fds[i]]) && Kept(mid - {fds[i]}, now, touched')
    requires forall k | |log| <= k < |log'| :: IsReady(readable, writable, i, log'[k].read)
    requires forall read | IsReady(readable, writable, i, read) && (read || (fds[i], false) !in touched') ::
      Registered(mid[fds[i]], read).Some? ==> Served(log', |log|, fds[i], read, Registered(mid[fds[i]], read))
    ensures Polled(log', start, fds, before, now, readable, writable, touched', i + 1)
  {
    assert forall k | |log| <= k < |log'| :: log'[k].fd in [fds[i]];
    hide Kept, AllServed, Served, Explained, ToCome, Orderly;
    assert fds[..i] + [fds[i]] == fds[..i + 1];
    OrderlyMore(log, log', start, fds[..i], fds[i]);
    ExplainedMore(log, log', start, fds, readable, writable, i);
    ServedMore(log, log', start, fds, before, mid, readable, writable, touched, touched', i);
    KeptMore(fds, before, mid, now, touched, touched', i);
  }

  /** When all that were reported ready have been seen, there is no more to do. */
  lemma PolledEnd(log: seq<Firing>, start: nat, fds: seq<int>, before: map<int, FdState>, now: map<int, FdState>,
                  readable: seq<bool>, writable: seq<bool>, touched: set<(int, bool)>, i: nat)
    requires i <= |fds| == |readable| == |writable| && Ready(readable, writable, i) == Ready(readable, writable, |fds|)
    requires Polled(log, start, fds, before, now, readable, writable, touched, i)
    ensures Orderly(log, start, fds) && Explained(log, start, fds, readable, writable, |fds|)
    ensures AllServed(log, start, fds, before, readable, writable, touched, |fds|)
  {
    ReadyRest(readable, writable, i, |fds|);
    forall k | start <= k < |log| ensures Caused(log[k], fds, readable, writable, |fds|) {
      assert Caused(log[k], fds, readable, writable, i);
    }
  }

  class Pollset {
    var pollfds: seq<PollFd>
    var state: map<int, FdState>
    var log: seq<Firing>
    ghost var touched: set<(int, bool)>  // the operations registered or removed since poll(2) returned

    ghost predicate Valid()
      reads this
    {
      Bijection(pollfds, state) && Agree(pollfds, state)
    }

    constructor ()
      ensures Valid() && state == map[] && log == []
    {
      pollfds, state, log, touched := [], map[], [], {};
    }

    /** fd_cb_helper(), up to the event bit: the entry of `s`, made if there is none. */
    method FdCbHelper(s: int, op: Op) returns (idx: nat)
      requires Valid() && op.read != op.write
      modifies this`pollfds, this`state
      ensures Bijection(pollfds, state) && AgreeBut(pollfds, state, s, op)
      ensures s in state && state[s].idx == idx < |pollfds|
      ensures if op.read then pollfds[idx].pollin else pollfds[idx].pollout
      ensures |pollfds| >= |old(pollfds)| && forall i | 0 <= i < |old(pollfds)| :: pollfds[i].fd == old(pollfds)[i].fd
      ensures state.Keys == old(state).Keys + {s}
      ensures forall t | t in old(state) && t != s :: state[t] == old(state)[t]
      ensures var was := if s in old(state) then old(state)[s] else state[s].(rcb := None, wcb := None);
        state[s] == if op.read then was.(roneshot := op.once) else was.(woneshot := op.once)
    {
      hide Bijection, AgreeBut, Agree;
      if s !in state {
        Added(pollfds, state, s, FdState(None, None, |pollfds|, false, false));
        state := state[s := FdState(None, None, |pollfds|, false, false)];
        pollfds := pollfds + [PollFd(s, false, false)];
      }
      AgreeWeaken(pollfds, state, s, op);
      AgreeWeaken(pollfds, state, s, Op(false, false, false));
      Entry(pollfds, state, s, Op(false, false, false));
      idx := state[s].idx;
      Updated(pollfds, state, s, op,
              if op.read then pollfds[idx].(pollin := true) else pollfds[idx].(pollout := true),
              if op.read then state[s].(roneshot := op.once) else state[s].(woneshot := op.once), op);
      if op.read {
        state := state[s := state[s].(roneshot := op.once)];
        pollfds := pollfds[idx := pollfds[idx].(pollin := true)];
      } else {
        state := state[s := state[s].(woneshot := op.once)];
        pollfds := pollfds[idx := pollfds[idx].(pollout := true)];
      }
    }

    /** fd_cb() with a callback, which may turn out to be null. */
    method FdCb(s: int, op: Op, cb: Option<Callback>)
      requires Valid() && op.read != op.write
      modifies this`pollfds, this`state, this`touched
      ensures Valid() && |pollfds| >= |old(pollfds)| && touched == old(touched) + {(s, op.read)}
      ensures forall i | 0 <= i < |old(pollfds)| :: pollfds[i].fd == old(pollfds)[i].fd
      ensures state.Keys == old(state).Keys + {s}
      ensures forall t | t in old(state) && t != s :: state[t] == old(state)[t]
      ensures var was := if s in old(state) then old(state)[s] else state[s].(rcb := None, wcb := None);
        state[s] == if op.read then was.(rcb := cb, roneshot := op.once) else was.(wcb := cb, woneshot := op.once)
    {
      hide Bijection, AgreeBut, Agree;
      var idx := FdCbHelper(s, op);
      touched := touched + {(s, op.read)};
      Entry(pollfds, state, s, op);
      Updated(pollfds, state, s, op, pollfds[idx],
              if op.read then state[s].(rcb := cb) else state[s].(wcb := cb),
              if cb == None then op else Op(false, false, false));
      assert pollfds == pollfds[idx := pollfds[idx]];
      state := state[s := if op.read then state[s].(rcb := cb) else state[s].(wcb := cb)];
      if cb == None {
        FdRemove(s, op);
      } else {
        AgreeStrengthen(pollfds, state, s);
      }
    }

    /** fd_cb() with nullptr; the one call where an operation may be both Read and Write. */
    method FdRemove(s: int, op: Op)
      requires Bijection(pollfds, state) && AgreeBut(pollfds, state, s, op)
      modifies this`pollfds, this`state, this`touched
      ensures Valid() && |pollfds| == |old(pollfds)|
      ensures touched == old(touched) +
        (set read | read in {false, true} && (if read then op.read else op.write) :: (s, read))
      ensures forall i | 0 <= i < |pollfds| :: pollfds[i].fd == old(pollfds)[i].fd
      ensures state == if s !in old(state) then old(state) else
        var was := old(state)[s];
        old(state)[s := was.(rcb := if op.read then None else was.rcb, wcb := if op.write then None else was.wcb)]
    {
      hide Bijection, AgreeBut, Agree;
      touched := touched + (set read | read in {false, true} && (if read then op.read else op.write) :: (s, read));
      if s !in state {
        NoEntry(pollfds, state, s, op);
        return;
      }
      var idx := state[s].idx;
      Entry(pollfds, state, s, op);
      ghost var p, fs := pollfds[idx], state[s];
      Updated(pollfds, state, s, op,
              p.(pollin := !op.read && p.pollin, pollout := !op.write && p.pollout),
              fs.(rcb := if op.read then None else fs.rcb, wcb := if op.write then None else fs.wcb),
              Op(false, false, false));
      if op.read {
        pollfds := pollfds[idx := pollfds[idx].(pollin := false)];
        state := state[s := state[s].(rcb := None)];
      }
      if op.write {
        pollfds := pollfds[idx := pollfds[idx].(pollout := false)];
        state := state[s := state[s].(wcb := None)];
      }
      assert pollfds == old(pollfds)[idx := p.(pollin := !op.read && p.pollin, pollout := !op.write && p.pollout)];
      assert state == old(state)[
        s := fs.(rcb := if op.read then None else fs.rcb, wcb := if op.write then None else fs.wcb)];
      AgreeStrengthen(pollfds, state, s);
    }

    /** consolidate(): drops exactly the descriptors without a callback, and changes no other
        registration. The states it erases have no callback, as ~fd_state() asserts. */
    method Consolidate()
      requires Valid()
      modifies this`pollfds, this`state
      ensures Valid() && OnlyIdleGone(old(state), state)
      ensures forall s | s in state :: state[s].Active()
    {
      hide Bijection, Agree, OnlyIdleGone;
      NoneGone(state);
      while |pollfds| > 0 && !pollfds[|pollfds| - 1].Events()
        invariant Valid() && OnlyIdleGone(old(state), state)
        decreases |pollfds|
      {
        var fd := pollfds[|pollfds| - 1].fd;
        EntryAt(pollfds, state, |pollfds| - 1);
        DropLast(pollfds, state);
        if fd in state {
          assert !state[fd].Active();  // ~fd_state()
          OneGone(old(state), state, fd);
          state := state - {fd};
        }
        pollfds := pollfds[..|pollfds| - 1];
      }
      var i := |pollfds|;
      if i >= 2 {
        i := i - 2;
        while i >= 0
          invariant -1 <= i <= |pollfds| - 2
          invariant Valid() && OnlyIdleGone(old(state), state)
          invariant forall j | i < j < |pollfds| :: pollfds[j].Events()
        {
          if !pollfds[i].Events() {
            var fd, last := pollfds[i].fd, pollfds[|pollfds| - 1];
            EntryAt(pollfds, state, i);
            EntryAt(pollfds, state, |pollfds| - 1);
            SwapWithLast(pollfds, state, i, pollfds[i := last][..|pollfds| - 1],
                         (state - {fd})[last.fd := state[last.fd].(idx := i)]);
            if fd in state {
              assert !state[fd].Active();  // ~fd_state()
              OneGone(old(state), state, fd);
              state := state - {fd};
            }
            OneMoved(old(state), state, last.fd, i);
            pollfds := pollfds[i := last];
            state := state[last.fd := state[last.fd].(idx := i)];
            pollfds := pollfds[..|pollfds| - 1];
          }
          i := i - 1;
        }
      }
      AllActive(pollfds, state);
    }

    /** A callback runs; it may register and remove callbacks at will, but not poll. */
    method RunCallback(fd: int, read: bool, cb: Callback, once: bool)
      requires Valid() && fd in state
      modifies this
      ensures Valid() && old(state).Keys <= state.Keys && |pollfds| >= |old(pollfds)|
      ensures forall i | 0 <= i < |old(pollfds)| :: pollfds[i].fd == old(pollfds)[i].fd
      ensures log == old(log) + [Firing(fd, read, cb, once, old(Registered(state[fd], read)))]
      ensures Kept(old(state), state, touched) && old(touched) <= touched
    {
      hide Bijection, Agree, AgreeBut;
      log := log + [Firing(fd, read, cb, once, Registered(state[fd], read))];
      var n: nat, k: nat := *, 0;
      while k < n
        invariant Valid() && old(state).Keys <= state.Keys && |pollfds| >= |old(pollfds)|
        invariant forall i | 0 <= i < |old(pollfds)| :: pollfds[i].fd == old(pollfds)[i].fd
        invariant log == old(log) + [Firing(fd, read, cb, once, old(Registered(state[fd], read)))]
        invariant Kept(old(state), state, touched) && old(touched) <= touched
      {
        k := k + 1;
        var s: int, op: Op, next: Option<Callback> := *, *, *;
        if op.read != op.write && next.Some? {
          FdCb(s, op, next);
        } else {
          AgreeWeaken(pollfds, state, s, op);
          FdRemove(s, op);
        }
      }
    }

    /** Lines 240-246 and 249-256 of pollset::poll: one operation of one descriptor. A one-shot callback is
        gone before it runs. */
    method Serve(i: nat, read: bool)
      requires Valid() && i < |pollfds| && pollfds[i].fd in state && Registered(state[pollfds[i].fd], read).Some?
      modifies this
      ensures Valid() && |pollfds| >= |old(pollfds)|
      ensures forall j | 0 <= j < |old(pollfds)| :: pollfds[j].fd == old(pollfds)[j].fd
      ensures var fd := old(pollfds)[i].fd;
        var fs := old(state)[fd];
        var cb, once := Registered(fs, read), if read then fs.roneshot else fs.woneshot;
        && log == old(log) + [Firing(fd, read, cb.value, once, if once then None else cb)]
        && Kept(old(state), state, touched + {(fd, read)}) && old(touched) <= touched
    {
      hide Bijection, Agree, AgreeBut;
      EntryAt(pollfds, state, i);
      var fd := pollfds[i].fd;
      var cb, p, fs := Registered(state[fd], read).value, pollfds[i], state[fd];
      var once := if read then fs.roneshot else fs.woneshot;
      if once {
        p := if read then p.(pollin := false) else p.(pollout := false);
        fs := if read then fs.(rcb := None) else fs.(wcb := None);
        Updated(pollfds, state, fd, Op(false, false, false), p, fs, Op(false, false, false));
        state := state[fd := fs];
        pollfds := pollfds[i := p];
        AgreeStrengthen(pollfds, state, fd);
      }
      RunCallback(fd, read, cb, once);
    }

    /** Lines 233-256 of pollset::poll: one descriptor. Its read callback runs if it is readable; its write callback
        if it is writable, unless the read callback has meddled with it. */
    method Dispatch(i: nat, readable: bool, writable: bool)
      requires Valid() && i < |pollfds|
      modifies this
      ensures Valid() && |pollfds| >= |old(pollfds)|
      ensures forall j | 0 <= j < |old(pollfds)| :: pollfds[j].fd == old(pollfds)[j].fd
      ensures old(log) <= log && Orderly(log, |old(log)|, [old(pollfds)[i].fd])
      ensures forall k | |old(log)| <= k < |log| :: if log[k].read then readable else writable
      ensures var fd := old(pollfds)[i].fd;
        fd in old(state) && forall read | (if read then readable else writable) && (read || (fd, false) !in touched) ::
          var cb := Registered(old(state)[fd], read);
          cb.Some? ==> Served(log, |old(log)|, fd, read, cb)
      ensures Kept(old(state) - {old(pollfds)[i].fd}, state, touched) && old(touched) <= touched
    {
      hide Bijection, Agree, AgreeBut;
      EntryAt(pollfds, state, i);
      ghost var fd := pollfds[i].fd;
      if readable && state[pollfds[i].fd].rcb.Some? {
        Serve(i, true);
        assert log[|old(log)|].read && log[|old(log)|].fd in [fd];
      }
      EntryAt(pollfds, state, i);
      ghost var mid := log;
      if writable && state[pollfds[i].fd].wcb.Some? {
        Serve(i, false);
        assert forall k | 0 <= k < |mid| :: log[k] == mid[k];
        assert log[|mid|].fd in [fd];
      }
    }

    /** poll(): whatever poll(2) reports. Every callback that runs is one that was registered for a
        ready descriptor, one-shot ones are gone by then, no descriptor is served twice for
        the same operation, and every ready one is served for each operation that no callback has
        touched meanwhile. Afterwards only descriptors with callbacks are left. */
    method Poll(readable: seq<bool>, writable: seq<bool>, interrupted: bool)
      requires Valid() && |readable| == |writable| == |pollfds|
      modifies this
      ensures Valid() && old(log) <= log
      ensures interrupted ==> log == old(log) && state == old(state)
      ensures !interrupted ==>
        var fds := Fds(old(pollfds));
        && (forall s | s in state :: state[s].Active())
        && Orderly(log, |old(log)|, fds) && Explained(log, |old(log)|, fds, readable, writable, |fds|)
        && AllServed(log, |old(log)|, fds, old(state), readable, writable, touched, |fds|)
    {
      assert forall j | 0 <= j < |pollfds| :: pollfds[j].fd in state;
      hide Bijection, Agree, AgreeBut, Polled, Explained, AllServed, Served, Kept, Registered, Orderly;
      if interrupted {
        return;
      }
      touched := {};
      var maxpoll := |pollfds|;
      var r := Ready(readable, writable, maxpoll);
      ghost var fds := Fds(pollfds);
      PolledStart(log, fds, state, readable, writable);
      var i := 0;
      while r > 0 && i < maxpoll
        invariant 0 <= i <= maxpoll <= |pollfds| && Valid()
        invariant forall j | 0 <= j < maxpoll :: pollfds[j].fd == fds[j]
        invariant r == Ready(readable, writable, maxpoll) - Ready(readable, writable, i)
        invariant old(log) <= log && Polled(log, |old(log)|, fds, old(state), state, readable, writable, touched, i)
        decreases maxpoll - i
      {
        ghost var before, mid, was := log, state, touched;
        Distinct(pollfds, state, i);
        if readable[i] || writable[i] {
          r := r - 1;
        }
        Dispatch(i, readable[i], writable[i]);
        PolledTurn(before, log, |old(log)|, fds, old(state), mid, state, readable, writable, was, touched, i);
        i := i + 1;
      }
      PolledEnd(log, |old(log)|, fds, old(state), state, readable, writable, touched, i);
      Consolidate();
    }
  }
}
