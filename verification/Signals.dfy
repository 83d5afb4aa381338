/** Signal hand-off (pollset_plus): a handler that may run at any time, pollsets that own
    signals, steal them from each other and give them up, and their polling threads. Steps
    interleave, sequentially consistent; one handler activation per signal number; pipes
    that are not full. */
module Signals {
  import opened Wrappers

  type Sig = nat
  type Ps = nat

  /** Where signal_handler() is for one signal number. */
  datatype Handler =
    | Idle
    | Checked                      // has found signal_flags[sig] to be 0
    | Marked                       // has set it to 1
    | Loaded(owner: Option<Ps>)    // has read signal_owners[sig]
    | Woken                        // has written its byte, if there was an owner

  /** One signal number: its entries in signal_owners and signal_flags, whether its action is
      signal_handler, and how often its flag was set, its callback run, and it raised again.
      The last three are history: callbacks run at a clear flag, and flags set once more by a handler
      that was `cut`; whether the flag was cleared under the handler now at work; and whether the
      flag was set by such a handler since the owner took over. */
  datatype Signal = Signal(owner: Option<Ps>, flag: nat, installed: bool, handler: Handler,
                           caught: nat, ran: nat, raised: nat, extra: nat, cut: bool, stale: bool)

  const Unused := Signal(None, 0, false, Idle, 0, 0, 0, 0, false, false)

  /** Where a polling thread is in run_subtype_handlers(). */
  datatype Pass =
    | Resting
    | Scanning(todo: set<Sig>, found: set<Sig>)  // collects the flagged signals, with the lock
    | Working(left: set<Sig>)                    // between two callbacks, with the lock
    | Observed(sig: Sig, left: set<Sig>)         // has seen the flag not to be 1, with the lock
    | InCallback(left: set<Sig>)                 // runs a callback, without the lock

  /** A pollset: its self-pipe (true is a Signal byte), signal_pending_, its polling thread,
      and whether it has been destroyed. */
  datatype Pollset = Pollset(pipe: seq<bool>, pending: bool, pass: Pass, closed: bool)

  datatype RegisterStage = RegEntered | Owned | MustWake | RegLeaving
  datatype EraseStage = EraseEntered | Disowned | Spun | EraseLeaving

  /** The holder of signal_owners_lock. */
  datatype Lock =
    | Free
    | ByPass(p: Ps)
    | ByRegister(p: Ps, sig: Sig, rstage: RegisterStage)
    | ByErase(sig: Sig, former: Option<Ps>, estage: EraseStage)

  datatype State = State(
    sigs: map<Sig, Signal>,
    pollsets: map<Ps, Pollset>,
    cbs: set<(Ps, Sig)>,        // the keys of every pollset's signal_cbs_
    lock: Lock,
    inFlight: set<(Sig, Ps)>    // signals stolen from a pollset while their handler held it
  )

  const Initial: State := State(map[], map[], {}, Free, {})

  function SigAt(s: State, sig: Sig): Signal {
    if sig in s.sigs then s.sigs[sig] else Unused
  }

  function PsAt(s: State, p: Ps): Pollset {
    if p in s.pollsets then s.pollsets[p] else Pollset([], false, Resting, false)
  }

  function SetSig(s: State, sig: Sig, v: Signal): State {
    s.(sigs := s.sigs[sig := v])
  }

  function SetPs(s: State, p: Ps, v: Pollset): State {
    s.(pollsets := s.pollsets[p := v])
  }

  function Write(s: State, p: Ps, signal: bool): State {
    SetPs(s, p, PsAt(s, p).(pipe := PsAt(s, p).pipe + [signal]))
  }

  // ---- the steps -------------------------------------------------------------

  /** signal_handler() */
  datatype HandlerStep = Arrive | Mark | Load | Wake | Finish

  /** The polling thread: run_pending_asyncs() reads the self-pipe, run_subtype_handlers()
      makes a pass, and ~pollset_plus() ends it. */
  datatype PollStep =
    | Drain(n: nat) | PassStart | ScanOne(sig: Sig) | ScanEnd | Skip(sig: Sig)
    | Observe(sig: Sig) | Clear | Return | PassEnd | Close

  /** signal_cb() with a callback, and erase_signal_cb(). */
  datatype RegisterStep = RegStart(p: Ps, sig: Sig) | Own | Check | RegWake | RegLeave
  datatype EraseStep = EraseStart(sig: Sig) | Disown | Spin | Test | EraseLeave

  datatype Step =
    | ByHandler(sig: Sig, h: HandlerStep)
    | ByPoller(p: Ps, q: PollStep)
    | ByRegistrar(r: RegisterStep)
    | ByEraser(e: EraseStep)
    | NormalWake(p: Ps)  // wake() for something else

  predicate HandlerEnabled(s: State, sig: Sig, step: HandlerStep) {
    var v := SigAt(s, sig);
    match step
    case Arrive => v.installed && v.handler == Idle
    case Mark => v.handler == Checked
    case Load => v.handler == Marked
    case Wake => v.handler.Loaded?
    case Finish => v.handler == Woken
  }

  predicate PollEnabled(s: State, p: Ps, step: PollStep) {
    var v := PsAt(s, p);
    match step
    case Drain(n) => v.pass == Resting && 0 < n <= 128 && n <= |v.pipe|
    case PassStart => s.lock == Free && v.pending && v.pass == Resting && !v.closed
    case ScanOne(sig) => v.pass.Scanning? && sig in v.pass.todo
    case ScanEnd => v.pass.Scanning? && v.pass.todo == {}
    case Skip(sig) => v.pass.Working? && sig in v.pass.left && (p, sig) !in s.cbs
    case Observe(sig) => v.pass.Working? && sig in v.pass.left && (p, sig) in s.cbs && SigAt(s, sig).flag % 2 == 0
    case Clear => v.pass.Observed?
    case Return => v.pass.InCallback? && s.lock == Free
    case PassEnd => v.pass.Working? && v.pass.left == {}
    case Close => s.lock == Free && v.pass == Resting && forall c | c in s.cbs :: c.0 != p
  }

  predicate RegisterEnabled(s: State, step: RegisterStep) {
    match step
    case RegStart(p, sig) => s.lock == Free && !PsAt(s, p).closed
    case Own => s.lock.ByRegister? && s.lock.rstage == RegEntered
    case Check => s.lock.ByRegister? && s.lock.rstage == Owned
    case RegWake => s.lock.ByRegister? && s.lock.rstage == MustWake
    case RegLeave => s.lock.ByRegister? && s.lock.rstage == RegLeaving
  }

  predicate EraseEnabled(s: State, step: EraseStep) {
    match step
    case EraseStart(sig) => s.lock == Free
    case Disown => s.lock.ByErase? && s.lock.estage == EraseEntered
    case Spin => s.lock.ByErase? && s.lock.estage == Disowned && SigAt(s, s.lock.sig).flag % 2 == 0
    case Test => s.lock.ByErase? && s.lock.estage == Spun
    case EraseLeave => s.lock.ByErase? && s.lock.estage == EraseLeaving
  }

  predicate Enabled(s: State, step: Step) {
    match step
    case ByHandler(sig, h) => HandlerEnabled(s, sig, h)
    case ByPoller(p, q) => PollEnabled(s, p, q)
    case ByRegistrar(r) => RegisterEnabled(s, r)
    case ByEraser(e) => EraseEnabled(s, e)
    case NormalWake(p) => true
  }

  /** The flag is cleared, maybe under a handler at work. */
  function Cleared(v: Signal): Signal {
    v.(flag := 0, cut := v.cut || v.flag == 1, stale := false)
  }

  function DoHandler(s: State, sig: Sig, step: HandlerStep): State
    requires HandlerEnabled(s, sig, step)
  {
    var v := SigAt(s, sig);
    match step
    case Arrive => SetSig(s, sig, v.(handler := if v.flag != 0 then Idle else Checked))
    case Mark => SetSig(s, sig, v.(handler := Marked, flag := 1, caught := v.caught + 1))
    case Load => SetSig(s, sig, v.(handler := Loaded(v.owner)))
    case Wake =>
      var s' := SetSig(s, sig, v.(handler := Woken));
      if v.handler.owner.Some? then Write(s', v.handler.owner.value, true) else s'
    case Finish =>
      SetSig(s, sig, v.(handler := Idle, flag := 2, cut := false, stale := v.cut,
                        extra := v.extra + if v.cut then 1 else 0))
  }

  function DoPoll(s: State, p: Ps, step: PollStep): State
    requires PollEnabled(s, p, step)
  {
    var v := PsAt(s, p);
    match step
    case Drain(n) => SetPs(s, p, v.(pipe := v.pipe[n..], pending := v.pending || true in v.pipe[..n]))
    case PassStart => SetPs(s, p, v.(pass := Scanning(set c | c in s.cbs && c.0 == p :: c.1, {}))).(lock := ByPass(p))
    case ScanOne(sig) =>
      var found := if SigAt(s, sig).flag != 0 then v.pass.found + {sig} else v.pass.found;
      SetPs(s, p, v.(pass := Scanning(v.pass.todo - {sig}, found)))
    case ScanEnd => SetPs(s, p, v.(pass := Working(v.pass.found)))
    case Skip(sig) => SetPs(s, p, v.(pass := Working(v.pass.left - {sig})))
    case Observe(sig) => SetPs(s, p, v.(pass := Observed(sig, v.pass.left - {sig})))
    case Clear =>
      var w := SigAt(s, v.pass.sig);
      SetSig(SetPs(s, p, v.(pass := InCallback(v.pass.left))), v.pass.sig,
             Cleared(w).(ran := w.ran + 1, extra := w.extra + if w.flag == 0 then 1 else 0)).(lock := Free)
    case Return => SetPs(s, p, v.(pass := Working(v.pass.left))).(lock := ByPass(p))
    case PassEnd => SetPs(s, p, v.(pass := Resting, pending := false)).(lock := Free)
    case Close => SetPs(s, p, v.(closed := true))
  }

  function DoRegister(s: State, step: RegisterStep): State
    requires RegisterEnabled(s, step)
  {
    match step
    case RegStart(p, sig) => s.(lock := ByRegister(p, sig, RegEntered))
    case Own =>
      var p, sig, v := s.lock.p, s.lock.sig, SigAt(s, s.lock.sig);
      if v.owner == Some(p) then s.(lock := ByRegister(p, sig, RegLeaving))
      else
        State(
          s.sigs[sig := v.(owner := Some(p), installed := true, stale := false)],
          s.pollsets,
          (if v.owner.Some? then s.cbs - {(v.owner.value, sig)} else s.cbs) + {(p, sig)},
          ByRegister(p, sig, Owned),
          if v.owner.Some? && v.handler == Loaded(v.owner) then s.inFlight + {(sig, v.owner.value)} else s.inFlight)
    case Check =>
      s.(lock := ByRegister(s.lock.p, s.lock.sig, if SigAt(s, s.lock.sig).flag != 0 then MustWake else RegLeaving))
    case RegWake => Write(s, s.lock.p, true).(lock := ByRegister(s.lock.p, s.lock.sig, RegLeaving))
    case RegLeave => s.(lock := Free)
  }

  function DoErase(s: State, step: EraseStep): State
    requires EraseEnabled(s, step)
  {
    match step
    case EraseStart(sig) => s.(lock := ByErase(sig, SigAt(s, sig).owner, EraseEntered))
    case Disown =>
      var sig, former, v := s.lock.sig, s.lock.former, SigAt(s, s.lock.sig);
      if former == None then s.(lock := ByErase(sig, former, EraseLeaving))
      else
        State(s.sigs[sig := v.(owner := None, installed := false)], s.pollsets,
              s.cbs - {(former.value, sig)}, ByErase(sig, former, Disowned), s.inFlight)
    case Spin => s.(lock := ByErase(s.lock.sig, s.lock.former, Spun))
    case Test =>
      var v := SigAt(s, s.lock.sig);
      SetSig(s, s.lock.sig, if v.flag != 0 then Cleared(v).(raised := v.raised + 1) else v)
        .(lock := ByErase(s.lock.sig, s.lock.former, EraseLeaving))
    case EraseLeave => s.(lock := Free)
  }

  function Do(s: State, step: Step): State
    requires Enabled(s, step)
  {
    match step
    case ByHandler(sig, h) => DoHandler(s, sig, h)
    case ByPoller(p, q) => DoPoll(s, p, q)
    case ByRegistrar(r) => DoRegister(s, r)
    case ByEraser(e) => DoErase(s, e)
    case NormalWake(p) => Write(s, p, false)
  }

  // ---- the invariant of all runs ---------------------------------------------

  predicate InHandler(h: Handler) {
    h == Marked || h.Loaded? || h == Woken
  }

  ghost predicate SigRule(sig: Sig, v: Signal, lock: Lock, inFlight: set<(Sig, Ps)>) {
    var h := v.handler;
    // 1 means that the handler is at work, unless the flag was cleared under it
    && v.flag <= 2 && (InHandler(h) && !v.cut <==> v.flag == 1) && (h == Checked ==> v.flag == 0)
    && (v.cut ==> InHandler(h) && v.flag == 0) && (v.stale ==> v.flag == 2)
    // whom the handler holds: the owner, one robbed while it held it, or one being given up
    && (h.Loaded? && h.owner.Some? && !v.cut ==>
          v.owner == h.owner || (sig, h.owner.value) in inFlight || lock == ByErase(sig, h.owner, Disowned))
    && (v.owner == None && h.Loaded? && h.owner.Some? && !v.cut ==>
          lock.ByErase? && lock.sig == sig && lock.estage == Disowned)
    && (lock.ByErase? && lock.sig == sig ==>
          if lock.estage == EraseEntered then lock.former == v.owner else v.owner == None)
    // a signal caught is delivered once, raised again, or still flagged
    && v.caught + v.extra == v.ran + v.raised + if v.flag != 0 then 1 else 0
  }

  ghost predicate PsRule(p: Ps, v: Pollset, lock: Lock) {
    && (lock == ByPass(p) <==> v.pass.Scanning? || v.pass.Working? || v.pass.Observed?)
    && (v.pass != Resting ==> v.pending && !v.closed)
    && (lock.ByRegister? && lock.p == p ==> !v.closed)
    && (lock.ByErase? && lock.former == Some(p) && lock.estage in {EraseEntered, Disowned} ==> !v.closed)
  }

  /** The pass is still to come to `sig`. */
  predicate ToCome(pass: Pass, sig: Sig) {
    match pass
    case Resting => true
    case Scanning(todo, found) => sig in todo || sig in found
    case Working(left) => sig in left
    case Observed(x, left) => sig == x || sig in left
    case InCallback(left) => sig in left
  }

  /** A flagged signal under owner `p` will be noticed: by a Signal byte in its pipe or one about
      to be written, or because signal_pending_ is set and the pass is still to come to it. */
  ghost predicate Noticed(sig: Sig, v: Signal, p: Ps, w: Pollset, lock: Lock) {
    || true in w.pipe
    || (w.pending && ToCome(w.pass, sig))
    || v.handler == Marked || v.handler == Loaded(Some(p))
    || lock == ByRegister(p, sig, Owned) || lock == ByRegister(p, sig, MustWake)
  }

  ghost predicate PairRule(sig: Sig, v: Signal, p: Ps, w: Pollset, lock: Lock, mine: bool) {
    && (mine <==> v.owner == Some(p))
    && (mine ==> !w.closed)
    && (mine && v.flag != 0 && !v.stale ==> Noticed(sig, v, p, w, lock))
    // what a pass has collected is its own
    && (w.pass.Scanning? ==> (sig in w.pass.todo ==> mine) && (sig in w.pass.found ==> mine && v.flag != 0))
    && (w.pass.Observed? && w.pass.sig == sig ==> mine && sig !in w.pass.left)
  }

  ghost predicate SigOk(s: State, sig: Sig) {
    SigRule(sig, SigAt(s, sig), s.lock, s.inFlight)
  }

  ghost predicate PsOk(s: State, p: Ps) {
    PsRule(p, PsAt(s, p), s.lock)
  }

  ghost predicate PairOk(s: State, sig: Sig, p: Ps) {
    PairRule(sig, SigAt(s, sig), p, PsAt(s, p), s.lock, (p, sig) in s.cbs)
  }

  ghost predicate Inv(s: State) {
    && (forall sig: Sig :: SigOk(s, sig))
    && (forall p: Ps :: PsOk(s, p))
    && (forall sig: Sig, p: Ps :: PairOk(s, sig, p))
  }

  lemma SigHandler(s: State, x: Sig, step: HandlerStep, sig: Sig)
    requires SigOk(s, sig) && HandlerEnabled(s, x, step)
    ensures SigOk(DoHandler(s, x, step), sig)
  {
  }

  lemma SigPoll(s: State, p: Ps, step: PollStep, sig: Sig)
    requires SigOk(s, sig) && PsOk(s, p) && PairOk(s, sig, p) && PollEnabled(s, p, step)
    ensures SigOk(DoPoll(s, p, step), sig)
  {
  }

  lemma SigRegister(s: State, step: RegisterStep, sig: Sig)
    requires SigOk(s, sig) && RegisterEnabled(s, step)
    ensures SigOk(DoRegister(s, step), sig)
  {
  }

  lemma SigErase(s: State, step: EraseStep, sig: Sig)
    requires SigOk(s, sig) && EraseEnabled(s, step)
    ensures SigOk(DoErase(s, step), sig)
  {
  }

  lemma PsHandler(s: State, x: Sig, step: HandlerStep, p: Ps)
    requires PsOk(s, p) && HandlerEnabled(s, x, step)
    ensures PsOk(DoHandler(s, x, step), p)
  {
  }

  lemma PsPoll(s: State, q: Ps, step: PollStep, p: Ps)
    requires PsOk(s, p) && PsOk(s, q) && PollEnabled(s, q, step)
    ensures PsOk(DoPoll(s, q, step), p)
  {
  }

  lemma PsRegister(s: State, step: RegisterStep, p: Ps)
    requires PsOk(s, p) && RegisterEnabled(s, step)
    ensures PsOk(DoRegister(s, step), p)
  {
  }

  lemma PsErase(s: State, step: EraseStep, p: Ps)
    requires PsOk(s, p) && EraseEnabled(s, step) && (step.EraseStart? ==> PairOk(s, step.sig, p))
    ensures PsOk(DoErase(s, step), p)
  {
  }

  lemma PairHandler(s: State, x: Sig, step: HandlerStep, sig: Sig, p: Ps)
    requires SigOk(s, sig) && PsOk(s, p) && PairOk(s, sig, p) && HandlerEnabled(s, x, step)
    ensures PairOk(DoHandler(s, x, step), sig, p)
  {
  }

  lemma PairPoll(s: State, q: Ps, step: PollStep, sig: Sig, p: Ps)
    requires SigOk(s, sig) && PsOk(s, p) && PsOk(s, q) && PairOk(s, sig, p) && PairOk(s, sig, q)
    requires PollEnabled(s, q, step)
    ensures PairOk(DoPoll(s, q, step), sig, p)
  {
    match step
    case Drain(n) =>
      var pipe := PsAt(s, q).pipe;
      assert pipe == pipe[..n] + pipe[n..];
    case _ =>
  }

  lemma PairRegister(s: State, step: RegisterStep, sig: Sig, p: Ps)
    requires SigOk(s, sig) && PsOk(s, p) && PairOk(s, sig, p) && RegisterEnabled(s, step)
    ensures PairOk(DoRegister(s, step), sig, p)
  {
  }

  lemma PairErase(s: State, step: EraseStep, sig: Sig, p: Ps)
    requires SigOk(s, sig) && PsOk(s, p) && PairOk(s, sig, p) && EraseEnabled(s, step)
    ensures PairOk(DoErase(s, step), sig, p)
  {
  }

  lemma At(s: State, sig: Sig, p: Ps)
    requires Inv(s)
    ensures SigOk(s, sig) && PsOk(s, p) && PairOk(s, sig, p)
  {
  }

  /** Every step keeps the invariant. */
  lemma NextInv(s: State, step: Step)
    requires Inv(s) && Enabled(s, step)
    ensures Inv(Do(s, step))
  {
    hide SigOk, PsOk, PairOk, Do, Enabled;
    var t := Do(s, step);
    forall sig: Sig, p: Ps ensures PairOk(t, sig, p) { NextAt(s, step, sig, p); }
    forall sig: Sig ensures SigOk(t, sig) { NextAt(s, step, sig, 0); }
    forall p: Ps ensures PsOk(t, p) { NextAt(s, step, 0, p); }
  }

  lemma NextAt(s: State, step: Step, sig: Sig, p: Ps)
    requires Inv(s) && Enabled(s, step)
    ensures var t := Do(s, step); SigOk(t, sig) && PsOk(t, p) && PairOk(t, sig, p)
  {
    hide Inv, SigOk, PsOk, PairOk, HandlerEnabled, PollEnabled, RegisterEnabled, EraseEnabled, DoHandler, DoPoll;
    hide DoRegister, DoErase;
    At(s, sig, p);
    match step
    case ByHandler(x, h) =>
      SigHandler(s, x, h, sig);
      PsHandler(s, x, h, p);
      PairHandler(s, x, h, sig, p);
    case ByPoller(q, k) =>
      At(s, sig, q);
      SigPoll(s, q, k, sig);
      PsPoll(s, q, k, p);
      PairPoll(s, q, k, sig, p);
    case ByRegistrar(r) =>
      SigRegister(s, r, sig);
      PsRegister(s, r, p);
      PairRegister(s, r, sig, p);
    case ByEraser(e) =>
      if e.EraseStart? {
        At(s, e.sig, p);
      }
      SigErase(s, e, sig);
      PsErase(s, e, p);
      PairErase(s, e, sig, p);
    case NormalWake(q) =>
      NormalByte(s, q, sig, p);
  }

  lemma NormalByte(s: State, q: Ps, sig: Sig, p: Ps)
    requires SigOk(s, sig) && PsOk(s, p) && PairOk(s, sig, p)
    ensures var t := Write(s, q, false); SigOk(t, sig) && PsOk(t, p) && PairOk(t, sig, p)
  {
  }

  lemma InitialInv()
    ensures Inv(Initial)
    ensures Calm(Initial)
  {
  }

  // ---- disciplined steps -----------------------------------------------------

  /** What the program has to leave alone: it registers nothing on a pollset whose pass is under
      way, and no handler that had found the flag clear sets it between the eraser's two looks. */
  predicate Disciplined(s: State, step: Step) {
    && (step.ByRegistrar? && step.r.RegStart? ==> PsAt(s, step.r.p).pass == Resting)
    && (step.ByEraser? && step.e.Test? && s.lock.ByErase? ==> SigAt(s, s.lock.sig).flag != 1)
  }

  /** No flag has been cleared under a handler, nor is one about to be: what a pass has still to serve
      is flagged, and what it has seen not to be 1 is 2. */
  ghost predicate CalmRule(sig: Sig, v: Signal, p: Ps, w: Pollset, lock: Lock, mine: bool) {
    && !v.cut && !v.stale && v.extra == 0
    && (lock.ByRegister? && lock.p == p ==> w.pass == Resting)
    && (w.pass.Working? || w.pass.Observed? || w.pass.InCallback? ==> (sig in w.pass.left && mine ==> v.flag != 0))
    && (w.pass.Observed? && w.pass.sig == sig ==> v.flag == 2)
  }

  ghost predicate CalmAt(s: State, sig: Sig, p: Ps) {
    CalmRule(sig, SigAt(s, sig), p, PsAt(s, p), s.lock, (p, sig) in s.cbs)
  }

  ghost predicate Calm(s: State) {
    forall sig: Sig, p: Ps :: CalmAt(s, sig, p)
  }

  lemma CalmHandler(s: State, x: Sig, step: HandlerStep, sig: Sig, p: Ps)
    requires SigOk(s, sig) && CalmAt(s, sig, p) && HandlerEnabled(s, x, step)
    ensures CalmAt(DoHandler(s, x, step), sig, p)
  {
  }

  lemma CalmPoll(s: State, q: Ps, step: PollStep, sig: Sig, p: Ps)
    requires SigOk(s, sig) && PsOk(s, p) && PsOk(s, q) && PairOk(s, sig, p) && PairOk(s, sig, q)
    requires CalmAt(s, sig, p) && CalmAt(s, sig, q) && PollEnabled(s, q, step)
    ensures CalmAt(DoPoll(s, q, step), sig, p)
  {
  }

  lemma CalmRegister(s: State, step: RegisterStep, sig: Sig, p: Ps)
    requires PsOk(s, p) && PairOk(s, sig, p) && CalmAt(s, sig, p) && RegisterEnabled(s, step)
    requires Disciplined(s, ByRegistrar(step))
    ensures CalmAt(DoRegister(s, step), sig, p)
  {
  }

  lemma CalmErase(s: State, step: EraseStep, sig: Sig, p: Ps)
    requires SigOk(s, sig) && PsOk(s, p) && PairOk(s, sig, p) && CalmAt(s, sig, p) && EraseEnabled(s, step)
    requires Disciplined(s, ByEraser(step))
    ensures CalmAt(DoErase(s, step), sig, p)
  {
  }

  lemma CalmIs(s: State, sig: Sig, p: Ps)
    requires Calm(s)
    ensures CalmAt(s, sig, p)
  {
  }

  lemma NextCalm(s: State, step: Step)
    requires Inv(s) && Calm(s) && Enabled(s, step) && Disciplined(s, step)
    ensures Calm(Do(s, step))
  {
    hide Inv, CalmAt, SigOk, PsOk, PairOk, Do, Enabled, Disciplined;
    var t := Do(s, step);
    forall sig: Sig, p: Ps ensures CalmAt(t, sig, p) { NextCalmAt(s, step, sig, p); }
  }

  lemma NextCalmAt(s: State, step: Step, sig: Sig, p: Ps)
    requires Inv(s) && Calm(s) && Enabled(s, step) && Disciplined(s, step)
    ensures CalmAt(Do(s, step), sig, p)
  {
    hide Inv, Calm, SigOk, PsOk, PairOk, Disciplined, HandlerEnabled, PollEnabled, RegisterEnabled, EraseEnabled;
    hide DoHandler, DoPoll, DoRegister, DoErase;
    At(s, sig, p);
    CalmIs(s, sig, p);
    match step
    case ByHandler(x, h) => CalmHandler(s, x, h, sig, p);
    case ByPoller(q, k) =>
      At(s, sig, q);
      CalmIs(s, sig, q);
      CalmPoll(s, q, k, sig, p);
    case ByRegistrar(r) => CalmRegister(s, r, sig, p);
    case ByEraser(e) => CalmErase(s, e, sig, p);
    case NormalWake(q) =>
  }
}
