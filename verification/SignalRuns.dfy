/** Whole runs of the signal hand-off: what holds in all of them, where the code falls short, and what the
    eraser's wait is worth. */
module SignalRuns {
  import opened Signals
  import opened Wrappers

  ghost predicate Leads(s: State, steps: seq<Step>, t: State, disciplined: bool) {
    if steps == [] then s == t
    else
      var n := |steps| - 1;
      exists u :: Leads(s, steps[..n], u, disciplined) && Enabled(u, steps[n])
        && (disciplined ==> Disciplined(u, steps[n])) && t == Do(u, steps[n])
  }

  /** In every run, whatever the program does: the invariant. */
  lemma {:induction false} RunInv(steps: seq<Step>, t: State, disciplined: bool)
    requires Leads(Initial, steps, t, disciplined)
    ensures Inv(t) && (disciplined ==> Calm(t))
    decreases |steps|
  {
    hide Inv, Calm, Do, Enabled, Disciplined;
    if steps == [] {
      InitialInv();
    } else {
      var n := |steps| - 1;
      var u :| Leads(Initial, steps[..n], u, disciplined) && Enabled(u, steps[n])
        && (disciplined ==> Disciplined(u, steps[n])) && t == Do(u, steps[n]);
      RunInv(steps[..n], u, disciplined);
      NextInv(u, steps[n]);
      if disciplined {
        NextCalm(u, steps[n]);
      }
    }
  }

  /** In every run, every signal caught has been delivered, raised again, or is flagged; and a flagged signal
      under an owner has a Signal byte in the owner's pipe, or signal_pending_ is set and the pass still to come
      to it, also across a steal, where the new owner is about to be woken; unless the flag was set, since
      that owner took over, by a handler under which it had been cleared. */
  lemma NoSignalLost(steps: seq<Step>, t: State, sig: Sig)
    requires Leads(Initial, steps, t, false)
    ensures var v := SigAt(t, sig);
      && v.caught + v.extra == v.ran + v.raised + (if v.flag != 0 then 1 else 0)
      && (v.flag == 2 && v.owner.Some? && !v.stale ==>
            var p, w := v.owner.value, PsAt(t, v.owner.value);
            || true in w.pipe || (w.pending && ToCome(w.pass, sig))
            || t.lock == ByRegister(p, sig, Owned) || t.lock == ByRegister(p, sig, MustWake))
      && (v.flag == 2 && v.owner.Some? && !v.stale && t.lock == Free ==>
            true in PsAt(t, v.owner.value).pipe || PsAt(t, v.owner.value).pending)
  {
    RunInv(steps, t, false);
    var v := SigAt(t, sig);
    At(t, sig, if v.owner.Some? then v.owner.value else 0);
  }

  /** In every run: when erase_signal_cb() is about to return, no handler holds the former owner, nor any
      other, unless the flag was cleared under it. */
  lemma ErasedIsReleased(steps: seq<Step>, t: State)
    requires Leads(Initial, steps, t, false) && t.lock.ByErase? && t.lock.estage == EraseLeaving
    ensures SigAt(t, t.lock.sig).owner == None
    ensures var v := SigAt(t, t.lock.sig); v.handler.Loaded? && v.handler.owner.Some? ==> v.cut
  {
    RunInv(steps, t, false);
    At(t, t.lock.sig, 0);
  }

  /** In every run: a handler that holds a destroyed pollset got hold of it before its signal was stolen,
      or the flag was cleared under it. */
  lemma ClosedIsReleased(steps: seq<Step>, t: State, sig: Sig, p: Ps)
    requires Leads(Initial, steps, t, false) && PsAt(t, p).closed && SigAt(t, sig).handler == Loaded(Some(p))
    ensures (sig, p) in t.inFlight || SigAt(t, sig).cut
  {
    RunInv(steps, t, false);
    At(t, sig, p);
  }

  /** In a disciplined run no flag is ever cleared under a handler, so that the three theorems hold without
      exception. */
  lemma DisciplinedRun(steps: seq<Step>, t: State, sig: Sig, p: Ps)
    requires Leads(Initial, steps, t, true)
    ensures var v, w := SigAt(t, sig), PsAt(t, p);
      && !v.cut && v.caught == v.ran + v.raised + (if v.flag != 0 then 1 else 0)
      && (v.flag == 2 && v.owner == Some(p) && t.lock == Free ==> true in w.pipe || w.pending)
      && (t.lock.ByErase? && t.lock.sig == sig && t.lock.estage == EraseLeaving ==> v.handler != Loaded(Some(p)))
      && (w.closed && v.handler == Loaded(Some(p)) ==> (sig, p) in t.inFlight)
  {
    RunInv(steps, t, true);
    CalmIs(t, sig, p);
    Undisciplined(steps, t);
    hide Leads, Inv, Calm;
    NoSignalLost(steps, t, sig);
    if t.lock.ByErase? && t.lock.sig == sig && t.lock.estage == EraseLeaving {
      ErasedIsReleased(steps, t);
    }
    if PsAt(t, p).closed && SigAt(t, sig).handler == Loaded(Some(p)) {
      ClosedIsReleased(steps, t, sig, p);
    }
  }

  lemma {:induction false} Undisciplined(steps: seq<Step>, t: State)
    requires Leads(Initial, steps, t, true)
    ensures Leads(Initial, steps, t, false)
    decreases |steps|
  {
    hide Do, Enabled, Disciplined;
    if steps != [] {
      var n := |steps| - 1;
      var u :| Leads(Initial, steps[..n], u, true) && Enabled(u, steps[n]) && Disciplined(u, steps[n])
        && t == Do(u, steps[n]);
      Undisciplined(steps[..n], u);
    }
  }

  // ---- where the code falls short --------------------------------------------

  lemma GoFrom(s: State, steps: seq<Step>, u: State, step: Step, disciplined: bool)
    returns (steps': seq<Step>, t: State)
    requires Enabled(u, step) && (disciplined ==> Disciplined(u, step))
    ensures t == Do(u, step) && (Leads(s, steps, u, disciplined) ==> Leads(s, steps', t, disciplined))
    ensures steps' == steps + [step]
  {
    hide Do, Enabled, Disciplined;
    steps', t := steps + [step], Do(u, step);
    assert steps'[..|steps|] == steps;
  }

  lemma Go(steps: seq<Step>, u: State, step: Step, disciplined: bool) returns (steps': seq<Step>, t: State)
    requires Enabled(u, step) && (disciplined ==> Disciplined(u, step))
    ensures t == Do(u, step) && (Leads(Initial, steps, u, disciplined) ==> Leads(Initial, steps', t, disciplined))
  {
    hide Leads, Do, Enabled, Disciplined;
    steps', t := GoFrom(Initial, steps, u, step, disciplined);
  }

  /** Signal `sig` is registered on `p`, which nobody owns so far and whose flag is clear. */
  lemma GoRegister(steps: seq<Step>, u: State, p: Ps, sig: Sig, disciplined: bool) returns (steps': seq<Step>, t: State)
    requires u.lock == Free && !PsAt(u, p).closed
    requires disciplined ==> PsAt(u, p).pass == Resting
    requires SigAt(u, sig).owner == None && SigAt(u, sig).flag == 0
    ensures Leads(Initial, steps, u, disciplined) ==> Leads(Initial, steps', t, disciplined)
    ensures t == State(u.sigs[sig := SigAt(u, sig).(owner := Some(p), installed := true, stale := false)],
                       u.pollsets, u.cbs + {(p, sig)}, Free, u.inFlight)
  {
    hide Leads;
    steps', t := Go(steps, u, ByRegistrar(RegStart(p, sig)), disciplined);
    steps', t := Go(steps', t, ByRegistrar(Own), disciplined);
    steps', t := Go(steps', t, ByRegistrar(Check), disciplined);
    steps', t := Go(steps', t, ByRegistrar(RegLeave), disciplined);
  }

  /** A signal's handler runs up to the point where it holds the owner. */
  lemma GoLoad(steps: seq<Step>, u: State, sig: Sig, disciplined: bool) returns (steps': seq<Step>, t: State)
    requires var v := SigAt(u, sig); v.installed && v.handler == Idle && v.flag == 0
    ensures Leads(Initial, steps, u, disciplined) ==> Leads(Initial, steps', t, disciplined)
    ensures var v := SigAt(u, sig);
      t == u.(sigs := u.sigs[sig := v.(flag := 1, handler := Loaded(v.owner), caught := v.caught + 1)])
  {
    hide Leads;
    steps', t := Go(steps, u, ByHandler(sig, Arrive), disciplined);
    steps', t := Go(steps', t, ByHandler(sig, Mark), disciplined);
    steps', t := Go(steps', t, ByHandler(sig, Load), disciplined);
  }

  /** Pollset `p` steals a signal from `q` while its handler holds `q`. */
  lemma GoSteal(steps: seq<Step>, u: State, p: Ps, q: Ps, sig: Sig) returns (steps': seq<Step>, t: State)
    requires u.lock == Free && p != q
    requires !PsAt(u, p).closed && PsAt(u, p).pass == Resting
    requires var v := SigAt(u, sig); v.owner == Some(q) && v.flag != 0
    ensures Leads(Initial, steps, u, true) ==> Leads(Initial, steps', t, true)
    ensures t.lock == Free
    ensures t.sigs == u.sigs[sig := SigAt(u, sig).(owner := Some(p), installed := true, stale := false)]
    ensures t.cbs == u.cbs - {(q, sig)} + {(p, sig)} && PsAt(t, q) == PsAt(u, q)
  {
    hide Leads;
    steps', t := Go(steps, u, ByRegistrar(RegStart(p, sig)), true);
    steps', t := Go(steps', t, ByRegistrar(Own), true);
    steps', t := Go(steps', t, ByRegistrar(Check), true);
    steps', t := Go(steps', t, ByRegistrar(RegWake), true);
    steps', t := Go(steps', t, ByRegistrar(RegLeave), true);
  }

  /** A disciplined run: the signal of pollset 0 is stolen while its handler holds pollset 0, which is then
      destroyed. Stealing does not wait for the handler, so the handler is about to write to a closed pipe. */
  lemma StolenInFlight() returns (steps: seq<Step>, t: State)
    ensures Leads(Initial, steps, t, true)
    ensures PsAt(t, 0).closed && SigAt(t, 1).handler == Loaded(Some(0))
  {
    hide Leads;
    LeadsNowhere(Initial, true);
    steps, t := GoRegister([], Initial, 0, 1, true);
    steps, t := GoLoad(steps, t, 1, true);
    steps, t := GoSteal(steps, t, 1, 0, 1);
    steps, t := Go(steps, t, ByPoller(0, Close), true);
  }

  /** The callback of `sig` is erased, up to the point where the eraser is about to return. */
  lemma GoErase(s: State, steps: seq<Step>, u: State, p: Ps, sig: Sig) returns (steps': seq<Step>, t: State)
    requires u.lock == Free
    requires SigAt(u, sig).owner == Some(p) && SigAt(u, sig).flag in {0, 2}
    ensures (Leads(s, steps, u, false) ==> Leads(s, steps', t, false)) && steps' == steps + ErasedBy(sig)
    ensures t.pollsets == u.pollsets && t.cbs == u.cbs - {(p, sig)} && t.lock == ByErase(sig, Some(p), EraseLeaving)
    ensures var v, w := SigAt(u, sig), SigAt(t, sig);
      w == (if v.flag != 0 then Cleared(v).(raised := v.raised + 1) else v).(owner := None, installed := false)
  {
    hide Leads;
    steps', t := GoFrom(s, steps, u, ByEraser(EraseStart(sig)), false);
    steps', t := GoFrom(s, steps', t, ByEraser(Disown), false);
    steps', t := GoFrom(s, steps', t, ByEraser(Spin), false);
    steps', t := GoFrom(s, steps', t, ByEraser(Test), false);
  }

  function ErasedBy(sig: Sig): seq<Step> {
    [ByEraser(EraseStart(sig)), ByEraser(Disown), ByEraser(Spin), ByEraser(Test)]
  }

  /** The handler of `sig` makes no step; everybody else may. */
  ghost predicate WithoutHandler(steps: seq<Step>, sig: Sig) {
    forall k | 0 <= k < |steps| :: !(steps[k].ByHandler? && steps[k].sig == sig)
  }

  /** The flag is 1, no pass is about to clear it, and an eraser that has come to it, if there is one, has not
      got past it. */
  ghost predicate Held(s: State, sig: Sig) {
    && SigAt(s, sig).flag == 1 && NotLookedAt(s, sig)
    && (s.lock.ByErase? && s.lock.sig == sig ==>
          s.lock.estage in if s.lock.former.Some? then {EraseEntered, Disowned} else {EraseEntered, EraseLeaving})
  }

  ghost predicate NotLookedAt(s: State, sig: Sig) {
    forall p: Ps :: PsAt(s, p).pass.Observed? ==> PsAt(s, p).pass.sig != sig
  }

  lemma StillNotLookedAt(s: State, step: Step, sig: Sig)
    requires NotLookedAt(s, sig) && SigAt(s, sig).flag == 1 && Enabled(s, step)
    ensures NotLookedAt(Do(s, step), sig)
  {
    var t := Do(s, step);
    forall p: Ps | PsAt(t, p).pass.Observed? ensures PsAt(t, p).pass.sig != sig {
      assert PsAt(s, p).pass.Observed? ==> PsAt(s, p).pass.sig != sig;
    }
  }

  lemma StillHeld(s: State, step: Step, sig: Sig)
    requires Held(s, sig) && Enabled(s, step) && !(step.ByHandler? && step.sig == sig)
    ensures Held(Do(s, step), sig)
  {
    StillNotLookedAt(s, step, sig);
    assert step.ByPoller? && step.q.Clear? ==> PsAt(s, step.p).pass.sig != sig;
    hide NotLookedAt;
  }

  lemma {:induction false} Waiting(u: State, more: seq<Step>, t: State, sig: Sig)
    requires Leads(u, more, t, false) && WithoutHandler(more, sig) && Held(u, sig)
    ensures Held(t, sig)
    decreases |more|
  {
    hide Held, Enabled, Do;
    if more != [] {
      var n := |more| - 1;
      var m :| Leads(u, more[..n], m, false) && Enabled(m, more[n]) && t == Do(m, more[n]);
      Waiting(u, more[..n], m, sig);
      StillHeld(m, more[n], sig);
    }
  }

  /** What the eraser's wait is worth, exactly. In any state of any run where the lock is free and a handler
      holds its signal's owner, a run without a step of this handler erases the signal if and only if the
      flag was cleared under the handler. */
  lemma EraserWaits(steps: seq<Step>, u: State, sig: Sig, p: Ps)
    requires Leads(Initial, steps, u, false) && u.lock == Free
    requires SigAt(u, sig).owner == Some(p) && SigAt(u, sig).handler == Loaded(Some(p))
    ensures SigAt(u, sig).cut <==>
      exists more, t ::
        Leads(u, more, t, false) && WithoutHandler(more, sig) && t.lock == ByErase(sig, Some(p), EraseLeaving)
  {
    hide Leads;
    RunInv(steps, u, false);
    At(u, sig, p);
    if SigAt(u, sig).cut {
      LeadsNowhere(u, false);
      var more, t := GoErase(u, [], u, p, sig);
    } else {
      forall q: Ps ensures !PsAt(u, q).pass.Observed? {
        At(u, sig, q);
      }
      forall more, t | Leads(u, more, t, false) && WithoutHandler(more, sig)
        ensures t.lock != ByErase(sig, Some(p), EraseLeaving)
      {
        Waiting(u, more, t, sig);
      }
    }
  }

  /** A handler finds the flag clear, and the signal is erased around it. */
  lemma GoBetween() returns (steps: seq<Step>, t: State)
    ensures Leads(Initial, steps, t, false)
    ensures t.lock == Free && SigAt(t, 1) == Signal(None, 0, false, Marked, 1, 0, 1, 0, true, false)
    ensures PsAt(t, 0) == PsAt(Initial, 0)
  {
    hide Leads;
    LeadsNowhere(Initial, false);
    steps, t := GoRegister([], Initial, 0, 1, false);
    steps, t := Go(steps, t, ByHandler(1, Arrive), false);
    steps, t := Go(steps, t, ByEraser(EraseStart(1)), false);
    steps, t := Go(steps, t, ByEraser(Disown), false);
    steps, t := Go(steps, t, ByEraser(Spin), false);
    assert SigAt(t, 1) == Signal(None, 0, false, Checked, 0, 0, 0, 0, false, false);
    steps, t := GoMarkInside(steps, t);
  }

  lemma GoMarkInside(steps: seq<Step>, u: State) returns (steps': seq<Step>, t: State)
    requires u.lock.ByErase? && u.lock.sig == 1 && u.lock.estage == Spun
    requires SigAt(u, 1) == Signal(None, 0, false, Checked, 0, 0, 0, 0, false, false)
    ensures (Leads(Initial, steps, u, false) ==> Leads(Initial, steps', t, false)) && t.lock == Free
    ensures t.pollsets == u.pollsets
    ensures SigAt(t, 1) == Signal(None, 0, false, Marked, 1, 0, 1, 0, true, false)
  {
    hide Leads;
    steps', t := Go(steps, u, ByHandler(1, Mark), false);
    steps', t := Go(steps', t, ByEraser(Test), false);
    steps', t := Go(steps', t, ByEraser(EraseLeave), false);
  }

  /** A handler that found the flag clear sets it between the eraser's two looks. The eraser clears the flag
      under it, so the next eraser sees nothing to wait for and leaves the handler holding the former owner. */
  lemma SetBetweenLooks() returns (steps: seq<Step>, t: State)
    ensures Leads(Initial, steps, t, false)
    ensures t.lock == ByErase(1, Some(0), EraseLeaving) && SigAt(t, 1).handler == Loaded(Some(0))
  {
    hide Leads;
    steps, t := GoBetween();
    steps, t := GoRegister(steps, t, 0, 1, false);
    steps, t := Go(steps, t, ByHandler(1, Load), false);
    steps, t := GoErase(Initial, steps, t, 0, 1);
  }

  /** The same handler finishes after its signal has been registered again: the signal raised again is flagged
      once more, and its new owner does not hear of it. */
  lemma FlaggedUnnoticed() returns (steps: seq<Step>, t: State)
    ensures Leads(Initial, steps, t, false)
    ensures var v := SigAt(t, 1); v.flag == 2 && v.owner == Some(0) && v.stale && v.caught == v.raised == v.extra == 1
    ensures t.lock == Free && PsAt(t, 0) == PsAt(Initial, 0)
  {
    hide Leads;
    steps, t := GoBetween();
    steps, t := Go(steps, t, ByHandler(1, Load), false);
    steps, t := Go(steps, t, ByHandler(1, Wake), false);
    steps, t := GoRegister(steps, t, 0, 1, false);
    steps, t := Go(steps, t, ByHandler(1, Finish), false);
  }

  /** A signal is caught from beginning to end. */
  lemma GoCatch(steps: seq<Step>, u: State, p: Ps, sig: Sig) returns (steps': seq<Step>, t: State)
    requires var v := SigAt(u, sig); v.installed && v.handler == Idle && v.flag == 0 && !v.cut && v.owner == Some(p)
    ensures Leads(Initial, steps, u, false) ==> Leads(Initial, steps', t, false)
    ensures var v := SigAt(u, sig);
      t == Write(u, p, true).(sigs := u.sigs[sig := v.(flag := 2, caught := v.caught + 1, stale := false)])
  {
    hide Leads;
    steps', t := GoLoad(steps, u, sig, false);
    steps', t := Go(steps', t, ByHandler(sig, Wake), false);
    steps', t := Go(steps', t, ByHandler(sig, Finish), false);
  }

  /** Two signals are caught on pollset 0, and its pass runs the callback of the first. */
  lemma GoFirstCallback() returns (steps: seq<Step>, t: State)
    ensures Leads(Initial, steps, t, false)
    ensures SigAt(t, 2) == Signal(Some(0), 2, true, Idle, 1, 0, 0, 0, false, false) && t.lock == Free
    ensures t.cbs == {(0, 1), (0, 2)}
    ensures PsAt(t, 0).pass == InCallback({2}) && !PsAt(t, 0).closed
  {
    hide Leads;
    LeadsNowhere(Initial, false);
    steps, t := GoRegister([], Initial, 0, 1, false);
    steps, t := GoRegister(steps, t, 0, 2, false);
    steps, t := GoCatch(steps, t, 0, 1);
    steps, t := GoCatch(steps, t, 0, 2);
    steps, t := GoPass(steps, t);
  }

  lemma GoPass(steps: seq<Step>, u: State) returns (steps': seq<Step>, t: State)
    requires u.lock == Free && u.cbs == {(0, 1), (0, 2)}
    requires PsAt(u, 0) == Pollset([true, true], false, Resting, false)
    requires SigAt(u, 1).flag == SigAt(u, 2).flag == 2
    ensures Leads(Initial, steps, u, false) ==> Leads(Initial, steps', t, false)
    ensures SigAt(t, 2) == SigAt(u, 2) && t.lock == Free && t.cbs == u.cbs
    ensures PsAt(t, 0).pass == InCallback({2}) && !PsAt(t, 0).closed
  {
    hide Leads;
    assert PsAt(u, 0).pipe[..2] == [true, true];
    assert true in [true, true] by { assert [true, true][0]; }
    steps', t := Go(steps, u, ByPoller(0, Drain(2)), false);
    assert PsAt(t, 0).pending;
    steps', t := Go(steps', t, ByPoller(0, PassStart), false);
    assert (0, 1) in t.cbs && (0, 2) in t.cbs;
    assert PsAt(t, 0).pass == Scanning({1, 2}, {});
    steps', t := GoScan(steps', t);
  }

  lemma GoScan(steps: seq<Step>, u: State) returns (steps': seq<Step>, t: State)
    requires u.lock == ByPass(0) && u.cbs == {(0, 1), (0, 2)}
    requires PsAt(u, 0).pass == Scanning({1, 2}, {}) && !PsAt(u, 0).closed
    requires SigAt(u, 1).flag == SigAt(u, 2).flag == 2
    ensures Leads(Initial, steps, u, false) ==> Leads(Initial, steps', t, false)
    ensures SigAt(t, 2) == SigAt(u, 2) && t.lock == Free && t.cbs == u.cbs
    ensures PsAt(t, 0).pass == InCallback({2}) && !PsAt(t, 0).closed
  {
    hide Leads;
    steps', t := Go(steps, u, ByPoller(0, ScanOne(1)), false);
    assert PsAt(t, 0).pass == Scanning({2}, {1});
    steps', t := Go(steps', t, ByPoller(0, ScanOne(2)), false);
    assert PsAt(t, 0).pass == Scanning({}, {1, 2});
    steps', t := GoObserve(steps', t);
  }

  lemma GoObserve(steps: seq<Step>, u: State) returns (steps': seq<Step>, t: State)
    requires u.lock == ByPass(0) && u.cbs == {(0, 1), (0, 2)}
    requires PsAt(u, 0).pass == Scanning({}, {1, 2}) && !PsAt(u, 0).closed && SigAt(u, 1).flag == 2
    ensures Leads(Initial, steps, u, false) ==> Leads(Initial, steps', t, false)
    ensures SigAt(t, 2) == SigAt(u, 2) && t.lock == Free && t.cbs == u.cbs
    ensures PsAt(t, 0).pass == InCallback({2}) && !PsAt(t, 0).closed
  {
    hide Leads;
    steps', t := Go(steps, u, ByPoller(0, ScanEnd), false);
    steps', t := Go(steps', t, ByPoller(0, Observe(1)), false);
    assert PsAt(t, 0).pass == Observed(1, {2});
    steps', t := Go(steps', t, ByPoller(0, Clear), false);
  }

  /** A callback gives up the second signal and registers it again on the pollset whose pass is under way.
      The pass then clears the flag under a handler at work, with the same effect as above. */
  lemma RegisteredDuringPass() returns (steps: seq<Step>, t: State)
    ensures Leads(Initial, steps, t, false)
    ensures t.lock == ByErase(2, Some(0), EraseLeaving) && SigAt(t, 2).handler == Loaded(Some(0))
  {
    hide Leads;
    steps, t := GoFirstCallback();
    steps, t := GoErase(Initial, steps, t, 0, 2);
    steps, t := Go(steps, t, ByEraser(EraseLeave), false);
    assert SigAt(t, 2) == Signal(None, 0, false, Idle, 1, 0, 1, 0, false, false);
    steps, t := GoRegister(steps, t, 0, 2, false);
    assert (0, 2) in t.cbs;
    steps, t := Go(steps, t, ByPoller(0, Return), false);
    steps, t := Go(steps, t, ByPoller(0, Observe(2)), false);
    assert PsAt(t, 0).pass.Observed? && PsAt(t, 0).pass.sig == 2;
    steps, t := GoLoad(steps, t, 2, false);
    steps, t := Go(steps, t, ByPoller(0, Clear), false);
    assert SigAt(t, 2).flag == 0 && SigAt(t, 2).owner == Some(0);
    steps, t := GoErase(Initial, steps, t, 0, 2);
  }

  lemma LeadsNowhere(s: State, disciplined: bool)
    ensures Leads(s, [], s, disciplined)
  {
  }
}
