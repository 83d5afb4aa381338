/** When puts are answered: on graphs without cycles always, after exactly so many steps; on a cycle it can be never. */
module TieringEnds {
  import opened Tiering
  import opened TieringRuns
  import opened Wrappers

  // ---- progress --------------------------------------------------------------

  ghost predicate Acyclic(g: Graph, rank: Node -> nat) {
    forall n, i | n in g && 0 <= i < |g[n]| :: rank(g[n][i]) < rank(n)
  }

  lemma {:induction false} TakenFull(reqs: seq<Request>, ids: seq<nat>)
    requires forall j | 0 <= j < |ids| :: ids[j] < |reqs| && reqs[ids[j]].phase == Taken
    ensures TakenCount(reqs, ids) == |ids|
  {
    if ids != [] {
      TakenFull(reqs, ids[..|ids| - 1]);
    }
  }

  /** On a graph without cycles, as long as some put has not been answered and its answer taken, some server or
      callback can move. */
  lemma {:induction false} Progress(g: Graph, s: State, rank: Node -> nat, id: nat) returns (step: Step)
    requires Inv(g, s) && Acyclic(g, rank) && id < |s.reqs| && s.reqs[id].phase != Taken
    ensures Enabled(g, s, step) && !step.Receive?
    decreases rank(s.reqs[id].node), if s.reqs[id].phase == Queued then 1 else 0
  {
    hide Written, TakenCount;
    var r := s.reqs[id];
    assert ChildrenOk(g, s, id);
    match r.phase
    case Replied => return Take(id);
    case Stored => return Answer(id);
    case Queued =>
      if r.node !in s.busy {
        return Start(id);
      }
      assert BusyOk(s, r.node);
      step := Progress(g, s, rank, s.busy[r.node]);
    case Active =>
      if IsLeaf(g, r.node) {
        return Store(id);
      }
      if |r.children| < |g[r.node]| {
        return Send(id);
      }
      if s.waiting[r.node] == 0 {
        return Spin(id);
      }
      if forall j | 0 <= j < |r.children| :: s.reqs[r.children[j]].phase == Taken {
        TakenFull(s.reqs, r.children);
        assert false;
      }
      var j :| 0 <= j < |r.children| && s.reqs[r.children[j]].phase != Taken;
      step := Progress(g, s, rank, r.children[j]);
  }

  // ---- how many steps are left ------------------------------------------------

  /** The steps that a new request takes, with all that are sent for it. */
  ghost function Cost(g: Graph, rank: Node -> nat, n: Node): nat
    requires Acyclic(g, rank)
    decreases rank(n), if n in g then |g[n]| + 1 else 0
  {
    if n in g then 3 + Costs(g, rank, n, |g[n]|) else 4
  }

  /** What sending to the first `i` connections comes to. */
  ghost function Costs(g: Graph, rank: Node -> nat, n: Node, i: nat): nat
    requires Acyclic(g, rank) && n in g && i <= |g[n]|
    decreases rank(n), i
  {
    if i == 0 then 0 else Costs(g, rank, n, i - 1) + 1 + Cost(g, rank, g[n][i - 1])
  }

  /** The steps that a request has still to make, without those of the requests it has sent. */
  ghost function Left(g: Graph, rank: Node -> nat, r: Request): int
    requires Acyclic(g, rank)
  {
    match r.phase
    case Queued => Cost(g, rank, r.node)
    case Active =>
      if r.node in g && |r.children| <= |g[r.node]|
      then 2 + Costs(g, rank, r.node, |g[r.node]|) - Costs(g, rank, r.node, |r.children|) else 3
    case Stored => 2
    case Replied => 1
    case Taken => 0
  }

  ghost function Work(g: Graph, rank: Node -> nat, reqs: seq<Request>): int
    requires Acyclic(g, rank)
  {
    if reqs == [] then 0 else Work(g, rank, reqs[..|reqs| - 1]) + Left(g, rank, reqs[|reqs| - 1])
  }

  lemma {:induction false} WorkSet(g: Graph, rank: Node -> nat, reqs: seq<Request>, r: nat, v: Request)
    requires Acyclic(g, rank) && r < |reqs|
    ensures Work(g, rank, reqs[r := v]) == Work(g, rank, reqs) - Left(g, rank, reqs[r]) + Left(g, rank, v)
  {
    hide Left;
    var n := |reqs| - 1;
    if r == n {
      assert reqs[r := v][..n] == reqs[..n];
    } else {
      assert reqs[r := v][..n] == reqs[..n][r := v];
      WorkSet(g, rank, reqs[..n], r, v);
    }
  }

  lemma WorkAdd(g: Graph, rank: Node -> nat, reqs: seq<Request>, v: Request)
    requires Acyclic(g, rank)
    ensures Work(g, rank, reqs + [v]) == Work(g, rank, reqs) + Left(g, rank, v)
  {
    assert (reqs + [v])[..|reqs|] == reqs;
  }

  /** Every step but a client's call is one step less. */
  lemma WorkStep(g: Graph, rank: Node -> nat, s: State, step: Step)
    requires Inv(g, s) && Acyclic(g, rank) && Enabled(g, s, step)
    ensures Work(g, rank, Do(g, s, step).reqs)
      == Work(g, rank, s.reqs) + if step.Receive? then Cost(g, rank, step.node) else -1
  {
    hide Work, ParentOk, SelfOk, BusyOk, TakenCount;
    match step
    case Receive(n, k, v) => WorkAdd(g, rank, s.reqs, Request(n, k, v, None, Queued, 0, []));
    case Send(r) =>
      var v := s.reqs[r];
      var child := Request(g[v.node][|v.children|], v.key, v.value, Some(r), Queued, 0, []);
      var v' := v.(children := v.children + [|s.reqs|]);
      WorkSet(g, rank, s.reqs, r, v');
      WorkAdd(g, rank, s.reqs[r := v'], child);
    case _ =>
      var t := Do(g, s, step);
      assert ChildrenOk(g, s, step.r);
      assert t.reqs == s.reqs[step.r := t.reqs[step.r]];
      WorkSet(g, rank, s.reqs, step.r, t.reqs[step.r]);
  }

  lemma LeftNone(g: Graph, rank: Node -> nat, s: State, id: nat)
    requires Inv(g, s) && Acyclic(g, rank) && id < |s.reqs|
    ensures Left(g, rank, s.reqs[id]) >= 0 && (Left(g, rank, s.reqs[id]) == 0 <==> s.reqs[id].phase == Taken)
  {
    hide ParentOk, SelfOk, BusyOk, TakenCount;
    assert ChildrenOk(g, s, id);
    var r := s.reqs[id];
    if r.phase == Active && r.node in g {
      CostsGrow(g, rank, r.node, |r.children|, |g[r.node]|);
    }
  }

  lemma {:induction false} CostsGrow(g: Graph, rank: Node -> nat, n: Node, i: nat, j: nat)
    requires Acyclic(g, rank) && n in g && i <= j <= |g[n]|
    ensures Costs(g, rank, n, i) <= Costs(g, rank, n, j)
  {
    if i < j {
      CostsGrow(g, rank, n, i, j - 1);
    }
  }

  lemma {:induction false} WorkNone(g: Graph, rank: Node -> nat, s: State, n: nat)
    requires Inv(g, s) && Acyclic(g, rank) && n <= |s.reqs|
    ensures Work(g, rank, s.reqs[..n]) >= 0
    ensures Work(g, rank, s.reqs[..n]) == 0 <==> forall id | 0 <= id < n :: s.reqs[id].phase == Taken
  {
    hide Inv, Left;
    if n > 0 {
      WorkNone(g, rank, s, n - 1);
      LeftNone(g, rank, s, n - 1);
      assert s.reqs[..n][..n - 1] == s.reqs[..n - 1];
    }
  }

  ghost predicate NoCalls(steps: seq<Step>) {
    forall i | 0 <= i < |steps| :: !steps[i].Receive?
  }

  lemma {:induction false} WorkDone(g: Graph, rank: Node -> nat, s: State, more: seq<Step>, t: State)
    requires Inv(g, s) && Acyclic(g, rank) && Leads(g, s, more, t) && NoCalls(more)
    ensures Work(g, rank, t.reqs) == Work(g, rank, s.reqs) - |more|
    decreases |more|
  {
    hide Inv, Work, Do, Enabled;
    if more != [] {
      var n := |more| - 1;
      var u :| Leads(g, s, more[..n], u) && Enabled(g, u, more[n]) && t == Do(g, u, more[n]);
      WorkDone(g, rank, s, more[..n], u);
      StaysInv(g, s, more[..n], u);
      WorkStep(g, rank, u, more[n]);
      assert !more[n].Receive?;
    }
  }

  /** On a graph without cycles: from every state of every run, if clients make no further calls, every run has at
      most so many steps, it can go on as long as it has fewer, and it has as many exactly if every put has
      been answered and every answer taken. */
  lemma PutsGetDone(g: Graph, rank: Node -> nat, steps: seq<Step>, s: State, more: seq<Step>, t: State)
    requires Acyclic(g, rank) && Leads(g, Initial, steps, s) && Leads(g, s, more, t) && NoCalls(more)
    ensures |more| <= Work(g, rank, s.reqs)
    ensures |more| == Work(g, rank, s.reqs) <==> forall id | 0 <= id < |t.reqs| :: t.reqs[id].phase == Taken
    ensures |more| < Work(g, rank, s.reqs) <==> exists step :: Enabled(g, t, step) && !step.Receive?
  {
    hide Leads, Inv, Work, Do;
    RunInv(g, steps, s);
    StaysInv(g, s, more, t);
    WorkDone(g, rank, s, more, t);
    WorkNone(g, rank, t, |t.reqs|);
    assert t.reqs[..|t.reqs|] == t.reqs;
    if id :| 0 <= id < |t.reqs| && t.reqs[id].phase != Taken {
      var step := Progress(g, t, rank, id);
    }
  }

  // ---- cycles ----------------------------------------------------------------

  /** Distinct masters, each connected to the next and the last to the first. */
  ghost predicate IsCycle(g: Graph, cycle: seq<Node>) {
    && cycle != [] && (forall i, j | 0 <= i < j < |cycle| :: cycle[i] != cycle[j])
    && forall i | 0 <= i < |cycle| :: cycle[i] in g && Next(cycle, i) in g[cycle[i]]
  }

  function Next(cycle: seq<Node>, i: nat): Node
    requires i < |cycle|
  {
    if i + 1 < |cycle| then cycle[i + 1] else cycle[0]
  }

  /** The put has gone along the first servers of the cycle, each of them at work on it for the one before. */
  ghost predicate Chained(s: State, cycle: seq<Node>, chain: seq<nat>, k: Key, v: Value) {
    && 0 < |chain| <= |cycle| && chain[0] == 0 && 0 < |s.reqs|
    && s.reqs[0].parent == None && s.reqs[0].key == k && s.reqs[0].value == v
    && (forall i | 0 <= i < |chain| ::
          chain[i] < |s.reqs| && s.reqs[chain[i]].node == cycle[i] && s.reqs[chain[i]].phase == Active)
    && (forall i | 0 <= i < |chain| - 1 :: chain[i + 1] in s.reqs[chain[i]].children)
  }

  /** It has come round to a server that is at work on it. */
  ghost predicate Deadlocked(s: State, cycle: seq<Node>, chain: seq<nat>, last: nat, k: Key, v: Value) {
    && Chained(s, cycle, chain, k, v) && |chain| == |cycle|
    && last in s.reqs[chain[|chain| - 1]].children && last < |s.reqs|
    && s.reqs[last].node == cycle[0] && s.reqs[last].phase == Queued
  }

  /** A master with an unanswered request does not answer. */
  lemma NoSpin(g: Graph, s: State, r: nat, c: nat)
    requires Inv(g, s) && r < |s.reqs| && c in s.reqs[r].children && c < |s.reqs| && s.reqs[c].phase != Taken
    ensures !Enabled(g, s, Spin(r))
  {
    hide ParentOk, SelfOk, BusyOk, TakenCount, Written;
    if Enabled(g, s, Spin(r)) {
      SpinDone(g, s, r);
    }
  }

  /** What no step changes of a request. */
  ghost predicate Follows(r: Request, r': Request) {
    r'.node == r.node && r'.parent == r.parent && r'.key == r.key && r'.value == r.value && r.children <= r'.children
  }

  lemma StaysActive(g: Graph, s: State, step: Step, r: nat, c: nat)
    requires Inv(g, s) && Enabled(g, s, step) && r < |s.reqs| && s.reqs[r].phase == Active && s.reqs[r].node in g
    requires c in s.reqs[r].children && c < |s.reqs| && s.reqs[c].phase != Taken
    ensures var t := Do(g, s, step);
      |s.reqs| <= |t.reqs| && Follows(s.reqs[r], t.reqs[r]) && t.reqs[r].phase == Active
  {
    NoSpin(g, s, r, c);
    hide Inv;
  }

  lemma StaysQueued(g: Graph, s: State, step: Step, r: nat)
    requires Enabled(g, s, step) && r < |s.reqs| && s.reqs[r].phase == Queued && s.reqs[r].node in s.busy
    ensures var t := Do(g, s, step);
      |s.reqs| <= |t.reqs| && Follows(s.reqs[r], t.reqs[r]) && t.reqs[r].phase == Queued
  {
  }

  lemma AtWork(g: Graph, s: State, r: nat)
    requires Inv(g, s) && r < |s.reqs| && s.reqs[r].phase == Active
    ensures s.reqs[r].node in s.busy
  {
    assert SelfOk(g, s, r);
  }

  /** No step gets out of it. */
  lemma StaysDeadlocked(g: Graph, s: State, step: Step, cycle: seq<Node>, chain: seq<nat>, last: nat, k: Key, v: Value)
    requires Inv(g, s) && IsCycle(g, cycle) && Deadlocked(s, cycle, chain, last, k, v) && Enabled(g, s, step)
    ensures Deadlocked(Do(g, s, step), cycle, chain, last, k, v)
  {
    hide Inv, Do, Enabled;
    var t := Do(g, s, step);
    AtWork(g, s, 0);
    StaysQueued(g, s, step, last);
    forall i | 0 <= i < |chain|
      ensures |s.reqs| <= |t.reqs| && Follows(s.reqs[chain[i]], t.reqs[chain[i]]) && t.reqs[chain[i]].phase == Active
    {
      StaysActive(g, s, step, chain[i], if i + 1 < |chain| then chain[i + 1] else last);
    }
    assert Follows(s.reqs[chain[0]], t.reqs[chain[0]]);
  }

  lemma {:induction false} AlwaysDeadlocked(g: Graph, s: State, more: seq<Step>, t: State,
                                            cycle: seq<Node>, chain: seq<nat>, last: nat, k: Key, v: Value)
    requires Inv(g, s) && IsCycle(g, cycle) && Deadlocked(s, cycle, chain, last, k, v) && Leads(g, s, more, t)
    ensures Deadlocked(t, cycle, chain, last, k, v)
    decreases |more|
  {
    hide Inv, Deadlocked, IsCycle, Do, Enabled;
    if more != [] {
      var n := |more| - 1;
      var u :| Leads(g, s, more[..n], u) && Enabled(g, u, more[n]) && t == Do(g, u, more[n]);
      AlwaysDeadlocked(g, s, more[..n], u, cycle, chain, last, k, v);
      StaysInv(g, s, more[..n], u);
      StaysDeadlocked(g, u, more[n], cycle, chain, last, k, v);
    }
  }

  // ---- what the hypotheses are for -------------------------------------------

  lemma Go(g: Graph, s: State, steps: seq<Step>, u: State, step: Step) returns (steps': seq<Step>, t: State)
    requires Enabled(g, u, step)
    ensures t == Do(g, u, step) && steps' == steps + [step] && (Leads(g, s, steps, u) ==> Leads(g, s, steps', t))
  {
    steps', t := steps + [step], Do(g, u, step);
    assert steps'[..|steps|] == steps;
  }

  lemma LeadsNowhere(g: Graph, s: State)
    ensures Leads(g, s, [], s)
  {
  }

  /** A master with no connections acknowledges a put that nobody stores. */
  lemma ChildlessAcks(k: Key, v: Value) returns (steps: seq<Step>, t: State)
    ensures Leads(map[0 := []], Initial, steps, t) && t.acked == [(k, v)] && t.writes == []
  {
    hide Leads;
    var g: Graph := map[0 := []];
    LeadsNowhere(g, Initial);
    steps, t := Go(g, Initial, [], Initial, Receive(0, k, v));
    steps, t := Go(g, Initial, steps, t, Start(0));
    steps, t := Go(g, Initial, steps, t, Spin(0));
  }

  /** A master sends to its connections up to the one at `j`. */
  lemma {:induction false} GoSends(g: Graph, steps: seq<Step>, u: State, r: nat, j: nat)
    returns (steps': seq<Step>, t: State)
    requires r < |u.reqs| && u.reqs[r].phase == Active && u.reqs[r].node in g
    requires |u.reqs[r].children| <= j < |g[u.reqs[r].node]|
    ensures Leads(g, Initial, steps, u) ==> Leads(g, Initial, steps', t)
    ensures |u.reqs| < |t.reqs| && t.busy == u.busy && forall i | 0 <= i < |u.reqs| && i != r :: t.reqs[i] == u.reqs[i]
    ensures Follows(u.reqs[r], t.reqs[r]) && t.reqs[r].phase == Active && |t.reqs[r].children| == j + 1
    ensures var c := |t.reqs| - 1;
      && c in t.reqs[r].children && t.reqs[c].node == g[u.reqs[r].node][j]
      && t.reqs[c].phase == Queued && t.reqs[c].children == []
    decreases j
  {
    hide Leads;
    steps', t := steps, u;
    if |u.reqs[r].children| < j {
      steps', t := GoSends(g, steps, u, r, j - 1);
    }
    ghost var before := t.reqs[r].children;
    steps', t := Go(g, Initial, steps', t, Send(r));
    assert t.reqs[r].children[|before|] == |t.reqs| - 1;
  }

  /** The last server of the chain has sent the put to the next, and that has begun to work on it. */
  lemma ChainGrows(g: Graph, s: State, u: State, t: State, cycle: seq<Node>, chain: seq<nat>, c: nat, k: Key, v: Value)
    requires IsCycle(g, cycle) && Chained(s, cycle, chain, k, v) && |chain| < |cycle|
    requires (forall m | m in s.busy :: m in cycle[..|chain|]) && u.busy == s.busy && |s.reqs| <= c < |u.reqs|
    requires var r := chain[|chain| - 1];
      && (forall i | 0 <= i < |s.reqs| && i != r :: u.reqs[i] == s.reqs[i])
      && Follows(s.reqs[r], u.reqs[r]) && u.reqs[r].phase == Active && c in u.reqs[r].children
    requires u.reqs[c].node == cycle[|chain|] && |t.reqs| == |u.reqs| && t.busy == u.busy[u.reqs[c].node := c]
    requires (forall i | 0 <= i < |u.reqs| && i != c :: t.reqs[i] == u.reqs[i])
      && Follows(u.reqs[c], t.reqs[c]) && t.reqs[c].phase == Active
    ensures Chained(t, cycle, chain + [c], k, v) && forall m | m in t.busy :: m in cycle[..|chain| + 1]
  {
    var n, chain' := |chain|, chain + [c];
    hide IsCycle;
    assert cycle[..n + 1] == cycle[..n] + [cycle[n]];
    forall i | 0 <= i < n ensures Follows(s.reqs[chain[i]], t.reqs[chain[i]]) && t.reqs[chain[i]].phase == Active {
      assert chain[i] < |s.reqs|;
    }
    assert Follows(s.reqs[chain[0]], t.reqs[chain[0]]);
    forall i | 0 <= i < n ensures chain'[i + 1] in t.reqs[chain'[i]].children {
      assert Follows(s.reqs[chain[i]], t.reqs[chain[i]]);
    }
  }

  lemma NotAtWork(g: Graph, cycle: seq<Node>, busy: map<Node, nat>, n: nat)
    requires IsCycle(g, cycle) && n < |cycle| && forall m | m in busy :: m in cycle[..n]
    ensures cycle[n] !in busy
  {
  }

  /** A server on the cycle sends to its connections up to the next on the cycle. */
  lemma GoNext(g: Graph, cycle: seq<Node>, steps: seq<Step>, s: State, r: nat, n: nat)
    returns (steps': seq<Step>, t: State, c: nat)
    requires IsCycle(g, cycle) && n < |cycle|
    requires r < |s.reqs| && s.reqs[r].phase == Active && s.reqs[r].node == cycle[n] && s.reqs[r].children == []
    ensures Leads(g, Initial, steps, s) ==> Leads(g, Initial, steps', t)
    ensures |s.reqs| <= c < |t.reqs| && t.busy == s.busy
    ensures forall i | 0 <= i < |s.reqs| && i != r :: t.reqs[i] == s.reqs[i]
    ensures Follows(s.reqs[r], t.reqs[r]) && t.reqs[r].phase == Active && c in t.reqs[r].children
    ensures t.reqs[c].node == Next(cycle, n) && t.reqs[c].phase == Queued && t.reqs[c].children == []
  {
    hide Leads;
    assert Next(cycle, n) in g[cycle[n]];
    var j :| 0 <= j < |g[cycle[n]]| && g[cycle[n]][j] == Next(cycle, n);
    steps', t := GoSends(g, steps, s, r, j);
    c := |t.reqs| - 1;
  }

  /** The put goes on to the next server of the cycle. */
  lemma GoOn(g: Graph, cycle: seq<Node>, steps: seq<Step>, s: State, chain: seq<nat>, k: Key, v: Value)
    returns (steps': seq<Step>, t: State, chain': seq<nat>)
    requires IsCycle(g, cycle) && Chained(s, cycle, chain, k, v) && |chain| < |cycle|
    requires s.reqs[chain[|chain| - 1]].children == [] && forall m | m in s.busy :: m in cycle[..|chain|]
    ensures Leads(g, Initial, steps, s) ==> Leads(g, Initial, steps', t)
    ensures Chained(t, cycle, chain', k, v) && |chain'| == |chain| + 1
    ensures t.reqs[chain'[|chain|]].children == [] && forall m | m in t.busy :: m in cycle[..|chain| + 1]
  {
    var r, n := chain[|chain| - 1], |chain|;
    hide Leads, Chained;
    var u, c := s, |s.reqs|;
    steps', u, c := GoNext(g, cycle, steps, s, r, n - 1);
    NotAtWork(g, cycle, u.busy, n);
    hide IsCycle;
    steps', t := Go(g, Initial, steps', u, Start(c));
    ChainGrows(g, s, u, t, cycle, chain, c, k, v);
    chain' := chain + [c];
  }

  /** The put goes along the first `n` servers of the cycle, while no other server is at work. */
  lemma {:induction false} GoChain(g: Graph, cycle: seq<Node>, k: Key, v: Value, n: nat)
    returns (steps: seq<Step>, t: State, chain: seq<nat>)
    requires IsCycle(g, cycle) && 0 < n <= |cycle|
    ensures Leads(g, Initial, steps, t) && Chained(t, cycle, chain, k, v) && |chain| == n
    ensures t.reqs[chain[n - 1]].children == [] && forall m | m in t.busy :: m in cycle[..n]
    decreases n
  {
    hide Leads, IsCycle;
    if n == 1 {
      LeadsNowhere(g, Initial);
      steps, t := Go(g, Initial, [], Initial, Receive(cycle[0], k, v));
      steps, t := Go(g, Initial, steps, t, Start(0));
      chain := [0];
    } else {
      steps, t, chain := GoChain(g, cycle, k, v, n - 1);
      hide Chained;
      steps, t, chain := GoOn(g, cycle, steps, t, chain, k, v);
    }
  }

  /** The first put of all has not been answered. */
  ghost predicate Unanswered(s: State, n: Node, k: Key, v: Value) {
    && 0 < |s.reqs| && s.reqs[0].parent == None && s.reqs[0].phase == Active
    && s.reqs[0].node == n && s.reqs[0].key == k && s.reqs[0].value == v
  }

  /** On every graph and for every cycle, a put can come to be answered never: a run leads to a state from which,
      whatever happens, the client's put stays unanswered. */
  lemma CycleStuck(g: Graph, cycle: seq<Node>, k: Key, v: Value) returns (steps: seq<Step>, t: State)
    requires IsCycle(g, cycle)
    ensures Leads(g, Initial, steps, t) && Unanswered(t, cycle[0], k, v)
    ensures forall more, t' | Leads(g, t, more, t') :: Unanswered(t', cycle[0], k, v)
  {
    assert |cycle| > 0;
    hide Leads, Inv, IsCycle;
    var n, s, chain := |cycle|, Initial, [];
    steps, s, chain := GoChain(g, cycle, k, v, n);
    var last: nat;
    steps, t, last := GoNext(g, cycle, steps, s, chain[n - 1], n - 1);
    ChainClosed(g, s, t, cycle, chain, last, k, v);
    RunInv(g, steps, t);
    forall more, t' | Leads(g, t, more, t') ensures Unanswered(t', cycle[0], k, v) {
      AlwaysDeadlocked(g, t, more, t', cycle, chain, last, k, v);
    }
  }

  lemma ChainClosed(g: Graph, s: State, t: State, cycle: seq<Node>, chain: seq<nat>, c: nat, k: Key, v: Value)
    requires Chained(s, cycle, chain, k, v) && |chain| == |cycle| && |s.reqs| <= c < |t.reqs|
    requires var r := chain[|chain| - 1];
      && (forall i | 0 <= i < |s.reqs| && i != r :: t.reqs[i] == s.reqs[i])
      && Follows(s.reqs[r], t.reqs[r]) && t.reqs[r].phase == Active && c in t.reqs[r].children
    requires t.reqs[c].node == cycle[0] && t.reqs[c].phase == Queued
    ensures Deadlocked(t, cycle, chain, c, k, v)
  {
    forall i | 0 <= i < |chain|
      ensures Follows(s.reqs[chain[i]], t.reqs[chain[i]]) && t.reqs[chain[i]].phase == Active
    {
    }
    assert Follows(s.reqs[chain[0]], t.reqs[chain[0]]);
  }

  // ---- without cycles there is a rank -----------------------------------------

  ghost predicate IsWalk(g: Graph, within: set<Node>, walk: seq<Node>) {
    && walk != [] && (forall i | 0 <= i < |walk| :: walk[i] in g && walk[i] in within)
    && (forall i, j | 0 <= i < j < |walk| :: walk[i] != walk[j])
    && forall i | 0 <= i < |walk| - 1 :: walk[i + 1] in g[walk[i]]
  }

  /** Where every master has a connection to another of the set, walking on comes back to where one has been. */
  lemma {:induction false} WalkOn(g: Graph, within: set<Node>, walk: seq<Node>) returns (cycle: seq<Node>)
    requires within <= g.Keys && IsWalk(g, within, walk)
    requires forall n | n in within :: exists m :: m in g[n] && m in within
    ensures IsCycle(g, cycle)
    decreases within - (set n | n in walk)
  {
    var last := walk[|walk| - 1];
    var m :| m in g[last] && m in within;
    if m in walk {
      cycle := Close(g, within, walk, m);
    } else {
      Longer(g, within, walk, m);
      cycle := WalkOn(g, within, walk + [m]);
    }
  }

  lemma Close(g: Graph, within: set<Node>, walk: seq<Node>, m: Node) returns (cycle: seq<Node>)
    requires IsWalk(g, within, walk) && m in walk && m in g[walk[|walk| - 1]]
    ensures IsCycle(g, cycle)
  {
    var i :| 0 <= i < |walk| && walk[i] == m;
    cycle := walk[i..];
    forall k | 0 <= k < |cycle| ensures cycle[k] in g && Next(cycle, k) in g[cycle[k]] {
      assert cycle[k] == walk[i + k];
    }
  }

  lemma Longer(g: Graph, within: set<Node>, walk: seq<Node>, m: Node)
    requires IsWalk(g, within, walk) && m !in walk && m in within && m in g && m in g[walk[|walk| - 1]]
    ensures IsWalk(g, within, walk + [m])
    ensures within - (set n | n in walk + [m]) < within - (set n | n in walk)
  {
    assert m in within - (set n | n in walk);
    assert m in walk + [m];
  }

  /** A master without a connection to another of the set comes first, and the others follow. */
  lemma {:induction false} RankWithin(g: Graph, within: set<Node>) returns (rank: Node -> nat)
    requires within <= g.Keys && !exists cycle :: IsCycle(g, cycle)
    ensures forall n, m | n in within && m in g[n] && m in within :: rank(m) < rank(n)
    decreases within
  {
    if within == {} {
      return _ => 0;
    }
    if forall n | n in within :: exists m :: m in g[n] && m in within {
      var n :| n in within;
      var cycle := WalkOn(g, within, [n]);
    }
    var n :| n in within && forall m | m in g[n] :: m !in within;
    var rest := RankWithin(g, within - {n});
    rank := x => if x == n then 0 else rest(x) + 1;
  }

  lemma RankOrCycle(g: Graph)
    ensures (exists rank :: Acyclic(g, rank)) <==> !exists cycle :: IsCycle(g, cycle)
  {
    if rank, cycle :| Acyclic(g, rank) && IsCycle(g, cycle) {
      NoRankOnCycle(g, rank, cycle, |cycle| - 1);
    }
    if !exists cycle :: IsCycle(g, cycle) {
      var masters := RankWithin(g, g.Keys);
      var rank := n => if n in g then masters(n) + 1 else 0;
      assert Acyclic(g, rank);
    }
  }

  lemma {:induction false} NoRankOnCycle(g: Graph, rank: Node -> nat, cycle: seq<Node>, i: nat)
    requires Acyclic(g, rank) && IsCycle(g, cycle) && i < |cycle|
    ensures rank(cycle[i]) <= rank(cycle[0]) && rank(Next(cycle, i)) < rank(cycle[0])
  {
    if i > 0 {
      NoRankOnCycle(g, rank, cycle, i - 1);
    }
    assert Next(cycle, i) in g[cycle[i]];
  }

  // ---- exactly when all puts can be answered -----------------------------------

  ghost predicate AllTaken(s: State) {
    forall id | 0 <= id < |s.reqs| :: s.reqs[id].phase == Taken
  }

  lemma Completes(g: Graph, rank: Node -> nat, s: State) returns (more: seq<Step>, t: State)
    requires Inv(g, s) && Acyclic(g, rank)
    ensures Leads(g, s, more, t) && AllTaken(t)
  {
    hide Leads, Inv, Work, Do, Enabled, Acyclic;
    more, t := [], s;
    LeadsNowhere(g, s);
    while !AllTaken(t)
      invariant Leads(g, s, more, t) && Inv(g, t)
      decreases Work(g, rank, t.reqs)
    {
      var id :| 0 <= id < |t.reqs| && t.reqs[id].phase != Taken;
      WorkNone(g, rank, t, |t.reqs|);
      assert t.reqs[..|t.reqs|] == t.reqs;
      var step := Progress(g, t, rank, id);
      WorkStep(g, rank, t, step);
      StepInv(g, t, step);
      more, t := Go(g, s, more, t, step);
    }
  }

  ghost predicate AlwaysCompletable(g: Graph) {
    forall steps, s | Leads(g, Initial, steps, s) :: exists more, t :: Leads(g, s, more, t) && AllTaken(t)
  }

  /** From every state of every run all puts can still be answered, if and only if the graph has no cycle. */
  lemma DoneIffNoCycle(g: Graph)
    ensures AlwaysCompletable(g) <==> !exists cycle :: IsCycle(g, cycle)
  {
    hide Leads, Inv, Acyclic;
    RankOrCycle(g);
    if cycle :| IsCycle(g, cycle) {
      var steps, s := CycleStuck(g, cycle, 0, 0);
      assert !exists more, t :: Leads(g, s, more, t) && AllTaken(t);
    } else {
      var rank :| Acyclic(g, rank);
      forall steps, s | Leads(g, Initial, steps, s) ensures exists more, t :: Leads(g, s, more, t) && AllTaken(t) {
        RunInv(g, steps, s);
        var more, t := Completes(g, rank, s);
      }
    }
  }
}
