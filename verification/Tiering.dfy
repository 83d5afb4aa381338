/** Tiered replication (tiering_server.cc, async_server.cc): masters fan puts out to the next tier and spin
    on a counter that the callbacks of the replies decrement; leaves store. Any graph of servers, any number
    of requests under way, no failing RPC, atomic decrements. */
module Tiering {
  import opened Wrappers

  type Node = nat
  type Key = nat
  type Value = nat

  /** The connections of the masters; every other server is a leaf. */
  type Graph = map<Node, seq<Node>>

  predicate IsLeaf(g: Graph, n: Node) {
    n !in g
  }

  /** A request waits its turn, is worked on, has stored its value (at a leaf), has been answered, and its
      answer has been taken by whoever made it. */
  datatype Phase = Queued | Active | Stored | Replied | Taken

  /** A kv_put call; `birth` is how many writes there had been when work on it began, and `children`
      are the requests it has sent to the next tier so far. */
  datatype Request = Request(node: Node, key: Key, value: Value, parent: Option<nat>, phase: Phase,
                             birth: nat, children: seq<nat>)

  datatype Write = Write(node: Node, key: Key, value: Value)

  /** Each process works on one request at a time. */
  datatype State = State(
    reqs: seq<Request>,
    busy: map<Node, nat>,
    waiting: map<Node, nat>,           // put_waiting of each master
    vals: map<Node, map<Key, Value>>,  // vals_ of each leaf
    writes: seq<Write>,                // every store so far
    acked: seq<(Key, Value)>           // the puts acknowledged to clients, in this order
  )

  const Initial := State([], map[], map[], map[], [], [])

  function ValsAt(s: State, n: Node): map<Key, Value> {
    if n in s.vals then s.vals[n] else map[]
  }

  datatype Step =
    | Receive(node: Node, key: Key, value: Value)  // from a client
    | Start(r: nat)
    | Send(r: nat)                                 // one iteration of the fan-out loop
    | Spin(r: nat)                                 // finds put_waiting to be 0, and replies
    | Store(r: nat)
    | Answer(r: nat)                               // a leaf replies
    | Take(r: nat)                                 // put_cb, or a client's callback

  predicate Enabled(g: Graph, s: State, step: Step) {
    match step
    case Receive(_, _, _) => true
    case Start(r) => r < |s.reqs| && s.reqs[r].phase == Queued && s.reqs[r].node !in s.busy
    case Send(r) =>
      r < |s.reqs| && s.reqs[r].phase == Active && s.reqs[r].node in g && |s.reqs[r].children| < |g[s.reqs[r].node]|
    case Spin(r) =>
      r < |s.reqs| && s.reqs[r].phase == Active && s.reqs[r].node in g && |s.reqs[r].children| == |g[s.reqs[r].node]|
      && s.reqs[r].node in s.waiting && s.waiting[s.reqs[r].node] == 0
    case Store(r) => r < |s.reqs| && s.reqs[r].phase == Active && IsLeaf(g, s.reqs[r].node)
    case Answer(r) => r < |s.reqs| && s.reqs[r].phase == Stored
    case Take(r) => r < |s.reqs| && s.reqs[r].phase == Replied
  }

  function Set(s: State, r: nat, v: Request): State
    requires r < |s.reqs|
  {
    s.(reqs := s.reqs[r := v])
  }

  function Reply(s: State, r: nat): State
    requires r < |s.reqs|
  {
    var v := s.reqs[r];
    Set(s, r, v.(phase := Replied)).(
      busy := s.busy - {v.node},
      acked := if v.parent == None then s.acked + [(v.key, v.value)] else s.acked)
  }

  function Do(g: Graph, s: State, step: Step): State
    requires Enabled(g, s, step)
  {
    match step
    case Receive(n, k, v) => s.(reqs := s.reqs + [Request(n, k, v, None, Queued, 0, [])])
    case Start(r) =>
      var v := s.reqs[r];
      Set(s, r, v.(phase := Active, birth := |s.writes|)).(
        busy := s.busy[v.node := r],
        waiting := if v.node in g then s.waiting[v.node := |g[v.node]|] else s.waiting)
    case Send(r) =>
      var v := s.reqs[r];
      var child := Request(g[v.node][|v.children|], v.key, v.value, Some(r), Queued, 0, []);
      s.(reqs := s.reqs[r := v.(children := v.children + [|s.reqs|])] + [child])
    case Spin(r) => Reply(s, r)
    case Store(r) =>
      var v := s.reqs[r];
      Set(s, r, v.(phase := Stored)).(
        vals := s.vals[v.node := ValsAt(s, v.node)[v.key := v.value]],
        writes := s.writes + [Write(v.node, v.key, v.value)])
    case Answer(r) => Reply(s, r)
    case Take(r) =>
      var v := s.reqs[r];
      var t := Set(s, r, v.(phase := Taken));
      if v.parent.Some? && v.parent.value < |s.reqs| && s.reqs[v.parent.value].node in s.waiting then
        var n := s.reqs[v.parent.value].node;
        t.(waiting := s.waiting[n := if s.waiting[n] == 0 then 0xffff_ffff else s.waiting[n] - 1])
      else t
  }

  // ---- the invariant ---------------------------------------------------------

  /** Since `birth` writes had been made, leaf `n` has stored the value at the key. */
  ghost predicate Written(s: State, n: Node, k: Key, v: Value, birth: nat) {
    exists i :: birth <= i < |s.writes| && s.writes[i] == Write(n, k, v)
  }

  predicate Finished(r: Request) {
    r.phase == Replied || r.phase == Taken
  }

  function TakenCount(reqs: seq<Request>, ids: seq<nat>): (n: nat)
    ensures n <= |ids|
  {
    if ids == [] then 0
    else
      var last := ids[|ids| - 1];
      TakenCount(reqs, ids[..|ids| - 1]) + if last < |reqs| && reqs[last].phase == Taken then 1 else 0
  }

  /** The requests a master has sent. */
  ghost predicate ChildrenOk(g: Graph, s: State, id: nat)
    requires id < |s.reqs|
  {
    var r := s.reqs[id];
    if IsLeaf(g, r.node) || r.phase == Queued then r.children == []
    else
      && |r.children| <= |g[r.node]|
      && (forall j | 0 <= j < |r.children| ::
            && id < r.children[j] < |s.reqs|
            && s.reqs[r.children[j]].parent == Some(id) && s.reqs[r.children[j]].node == g[r.node][j])
      && (forall i, j | 0 <= i < j < |r.children| :: r.children[i] < r.children[j])
      && (r.phase == Active ==>
            r.node in s.waiting && s.waiting[r.node] == |g[r.node]| - TakenCount(s.reqs, r.children))
      && r.phase != Stored
      && (Finished(r) ==>
            |r.children| == |g[r.node]| && forall j | 0 <= j < |r.children| :: s.reqs[r.children[j]].phase == Taken)
  }

  /** A request sent by a master carries its put, and is outstanding only while the master works on it. */
  ghost predicate ParentOk(g: Graph, s: State, id: nat)
    requires id < |s.reqs|
  {
    var r := s.reqs[id];
    r.parent.Some? ==>
      && r.parent.value < id && id in s.reqs[r.parent.value].children
      && var p := s.reqs[r.parent.value];
      && p.key == r.key && p.value == r.value && p.phase != Queued && p.node in g
      && (r.phase != Taken ==> p.phase == Active)
      && (r.phase != Queued ==> p.birth <= r.birth)
  }

  ghost predicate SelfOk(g: Graph, s: State, id: nat)
    requires id < |s.reqs|
  {
    var r := s.reqs[id];
    && (r.phase == Active || r.phase == Stored ==> r.node in s.busy && s.busy[r.node] == id)
    && r.birth <= |s.writes|
    && (IsLeaf(g, r.node) && (r.phase == Stored || Finished(r)) ==> Written(s, r.node, r.key, r.value, r.birth))
  }

  ghost predicate BusyOk(s: State, n: Node) {
    n in s.busy ==>
      && s.busy[n] < |s.reqs| && s.reqs[s.busy[n]].node == n
      && (s.reqs[s.busy[n]].phase == Active || s.reqs[s.busy[n]].phase == Stored)
  }

  ghost predicate Inv(g: Graph, s: State) {
    && (forall id | 0 <= id < |s.reqs| :: ChildrenOk(g, s, id) && ParentOk(g, s, id) && SelfOk(g, s, id))
    && (forall n | n in s.busy :: BusyOk(s, n))
  }

  lemma {:induction false} TakenSame(reqs: seq<Request>, reqs': seq<Request>, ids: seq<nat>)
    requires |reqs| <= |reqs'|
    requires forall j | 0 <= j < |ids| ::
      ids[j] < |reqs| && (reqs[ids[j]].phase == Taken <==> reqs'[ids[j]].phase == Taken)
    ensures TakenCount(reqs, ids) == TakenCount(reqs', ids)
  {
    if ids != [] {
      TakenSame(reqs, reqs', ids[..|ids| - 1]);
    }
  }

  /** Taking one of the outstanding answers adds one. */
  lemma {:induction false} TakenOne(reqs: seq<Request>, reqs': seq<Request>, ids: seq<nat>, c: nat)
    requires |reqs| == |reqs'| && c in ids && c < |reqs| && reqs[c].phase != Taken && reqs'[c].phase == Taken
    requires forall i, j | 0 <= i < j < |ids| :: ids[i] < ids[j]
    requires forall j | 0 <= j < |ids| :: ids[j] < |reqs| && (ids[j] != c ==> reqs[ids[j]] == reqs'[ids[j]])
    ensures TakenCount(reqs', ids) == TakenCount(reqs, ids) + 1
  {
    var n := |ids| - 1;
    if ids[n] == c {
      TakenSame(reqs, reqs', ids[..n]);
    } else {
      assert c in ids[..n];
      TakenOne(reqs, reqs', ids[..n], c);
    }
  }

  lemma {:induction false} TakenAll(reqs: seq<Request>, ids: seq<nat>)
    requires forall j | 0 <= j < |ids| :: ids[j] < |reqs|
    requires TakenCount(reqs, ids) == |ids|
    ensures forall j | 0 <= j < |ids| :: reqs[ids[j]].phase == Taken
  {
    if ids != [] {
      TakenAll(reqs, ids[..|ids| - 1]);
    }
  }

  // ---- every step keeps it ---------------------------------------------------

  lemma WrittenAt(s: State, n: Node, k: Key, v: Value, birth: nat, i: nat)
    requires birth <= i < |s.writes| && s.writes[i] == Write(n, k, v)
    ensures Written(s, n, k, v, birth)
  {
  }

  lemma WrittenKept(s: State, t: State, n: Node, k: Key, v: Value, birth: nat)
    requires s.writes <= t.writes && Written(s, n, k, v, birth)
    ensures Written(t, n, k, v, birth)
  {
    var i :| birth <= i < |s.writes| && s.writes[i] == Write(n, k, v);
    assert t.writes[i] == Write(n, k, v);
  }

  lemma SelfOther(g: Graph, s: State, step: Step, id: nat)
    requires Inv(g, s) && Enabled(g, s, step) && id < |s.reqs| && (!step.Receive? ==> step.r != id)
    ensures SelfOk(g, Do(g, s, step), id)
  {
    hide ChildrenOk, ParentOk, Written;
    var t := Do(g, s, step);
    assert SelfOk(g, s, id);
    if !step.Receive? {
      assert SelfOk(g, s, step.r);
    }
    var r := s.reqs[id];
    if Written(s, r.node, r.key, r.value, r.birth) {
      WrittenKept(s, t, r.node, r.key, r.value, r.birth);
    }
  }

  lemma SelfOwn(g: Graph, s: State, step: Step)
    requires Inv(g, s) && Enabled(g, s, step) && !step.Receive?
    ensures SelfOk(g, Do(g, s, step), step.r)
  {
    hide ChildrenOk, ParentOk, Written;
    var t := Do(g, s, step);
    assert SelfOk(g, s, step.r);
    var r := s.reqs[step.r];
    if Written(s, r.node, r.key, r.value, r.birth) {
      WrittenKept(s, t, r.node, r.key, r.value, r.birth);
    }
    if step.Store? {
      WrittenAt(t, r.node, r.key, r.value, r.birth, |s.writes|);
    }
  }

  lemma SelfStep(g: Graph, s: State, step: Step, id: nat)
    requires Inv(g, s) && Enabled(g, s, step) && id < |Do(g, s, step).reqs|
    ensures SelfOk(g, Do(g, s, step), id)
  {
    if id < |s.reqs| {
      hide Inv, SelfOk;
      if step.Receive? || step.r != id {
        SelfOther(g, s, step, id);
      } else {
        SelfOwn(g, s, step);
      }
    }
  }

  lemma BusyStep(g: Graph, s: State, step: Step, n: Node)
    requires Inv(g, s) && Enabled(g, s, step)
    ensures BusyOk(Do(g, s, step), n)
  {
    hide ChildrenOk, ParentOk, Written;
    if n in s.busy {
      assert BusyOk(s, n);
    }
    match step
    case Receive(_, _, _) =>
    case _ => assert SelfOk(g, s, step.r);
  }

  lemma ParentStep(g: Graph, s: State, step: Step, id: nat)
    requires Inv(g, s) && Enabled(g, s, step) && id < |Do(g, s, step).reqs|
    ensures ParentOk(g, Do(g, s, step), id)
  {
    hide Written, TakenCount, SelfOk, ChildrenOk;
    if id < |s.reqs| {
      assert ParentOk(g, s, id);
      if s.reqs[id].parent.Some? {
        ParentFacts(g, s, step, id, s.reqs[id].parent.value);
      }
    }
  }

  lemma ParentFacts(g: Graph, s: State, step: Step, id: nat, p: nat)
    requires Inv(g, s) && Enabled(g, s, step) && p < id < |s.reqs| && s.reqs[id].parent == Some(p)
    ensures s.reqs[p].birth <= |s.writes| && s.reqs[p].phase != Stored
    ensures step == Spin(p) ==> s.reqs[id].phase == Taken
  {
    hide Written, TakenCount;
    assert ParentOk(g, s, id) && ChildrenOk(g, s, p) && SelfOk(g, s, p);
    if step == Spin(p) {
      SpinDone(g, s, p);
    }
  }

  /** When a master has sent all and finds its counter 0, every answer has been taken. */
  lemma SpinDone(g: Graph, s: State, r: nat)
    requires Inv(g, s) && Enabled(g, s, Spin(r))
    ensures forall j | 0 <= j < |s.reqs[r].children| ::
      s.reqs[r].children[j] < |s.reqs| && s.reqs[s.reqs[r].children[j]].phase == Taken
  {
    hide SelfOk, ParentOk, TakenCount;
    assert ChildrenOk(g, s, r);
    TakenAll(s.reqs, s.reqs[r].children);
  }

  /** What a master has sent stays in order while it is not touched. */
  lemma ChildrenFrame(g: Graph, s: State, t: State, id: nat)
    requires id < |s.reqs| <= |t.reqs| && ChildrenOk(g, s, id) && t.reqs[id] == s.reqs[id]
    requires forall j | 0 <= j < |s.reqs[id].children| && s.reqs[id].children[j] < |s.reqs| ::
      var c := s.reqs[id].children[j];
      && t.reqs[c].parent == s.reqs[c].parent && t.reqs[c].node == s.reqs[c].node
      && (t.reqs[c].phase == Taken <==> s.reqs[c].phase == Taken)
    requires s.reqs[id].phase == Active && s.reqs[id].node in s.waiting ==>
      s.reqs[id].node in t.waiting && t.waiting[s.reqs[id].node] == s.waiting[s.reqs[id].node]
    ensures ChildrenOk(g, t, id)
  {
    hide TakenCount;
    var r := s.reqs[id];
    if r.node in g && r.phase != Queued {
      TakenSame(s.reqs, t.reqs, r.children);
    }
  }

  /** Two requests are not worked on by the same process. */
  lemma OneAtATime(g: Graph, s: State, a: nat, b: nat)
    requires Inv(g, s) && a < |s.reqs| && b < |s.reqs| && s.reqs[a].node == s.reqs[b].node
    requires s.reqs[a].phase == Active && (s.reqs[b].phase == Active || s.reqs[b].phase == Stored)
    ensures a == b && s.reqs[a].node in s.busy
  {
    hide ChildrenOk, ParentOk, Written;
    assert SelfOk(g, s, a) && SelfOk(g, s, b);
  }

  /** A step of another request. */
  lemma ChildrenOther(g: Graph, s: State, step: Step, id: nat)
    requires Inv(g, s) && Enabled(g, s, step) && id < |s.reqs| && (!step.Receive? ==> step.r != id)
    requires step.Take? ==> step.r !in s.reqs[id].children
    ensures ChildrenOk(g, Do(g, s, step), id)
  {
    hide TakenCount, Written, SelfOk;
    assert ChildrenOk(g, s, id);
    if s.reqs[id].phase == Active {
      OneAtATime(g, s, id, id);
      if step.Take? && s.reqs[step.r].parent.Some? {
        assert ParentOk(g, s, step.r);
        var p := s.reqs[step.r].parent.value;
        if s.reqs[p].node == s.reqs[id].node {
          OneAtATime(g, s, id, p);
        }
      }
    }
    hide ChildrenOk, ParentOk;
    ChildrenFrame(g, s, Do(g, s, step), id);
  }

  /** Another request is sent. */
  lemma ChildrenSend(g: Graph, s: State, r: nat)
    requires Inv(g, s) && Enabled(g, s, Send(r))
    ensures ChildrenOk(g, Do(g, s, Send(r)), r)
  {
    hide Written, TakenCount, SelfOk, ParentOk;
    assert ChildrenOk(g, s, r);
    SendCount(g, s, r);
  }

  lemma ChildrenSpin(g: Graph, s: State, r: nat)
    requires Inv(g, s) && Enabled(g, s, Spin(r))
    ensures ChildrenOk(g, Do(g, s, Spin(r)), r)
  {
    SpinDone(g, s, r);
    assert ChildrenOk(g, s, r);
    hide Inv, TakenCount;
  }

  /** A step of the request itself. */
  lemma ChildrenOwn(g: Graph, s: State, step: Step)
    requires Inv(g, s) && Enabled(g, s, step) && !step.Receive? && !step.Send? && !step.Spin?
    ensures ChildrenOk(g, Do(g, s, step), step.r)
  {
    assert ChildrenOk(g, s, step.r);
    assert TakenCount(Do(g, s, step).reqs, []) == 0;
    hide Inv, TakenCount;
  }

  /** The answer to one of its requests is taken. */
  lemma ChildrenTake(g: Graph, s: State, c: nat, id: nat)
    requires Inv(g, s) && Enabled(g, s, Take(c)) && id < |s.reqs| && c in s.reqs[id].children
    ensures ChildrenOk(g, Do(g, s, Take(c)), id)
  {
    hide Written, TakenCount;
    assert ChildrenOk(g, s, id);
    assert s.reqs[c].parent == Some(id) && ParentOk(g, s, c);
    TakenOne(s.reqs, Do(g, s, Take(c)).reqs, s.reqs[id].children, c);
  }

  lemma ChildrenStep(g: Graph, s: State, step: Step, id: nat)
    requires Inv(g, s) && Enabled(g, s, step) && id < |Do(g, s, step).reqs|
    ensures ChildrenOk(g, Do(g, s, step), id)
  {
    if id < |s.reqs| {
      hide Inv, ChildrenOk;
      if step.Take? && step.r in s.reqs[id].children {
        ChildrenTake(g, s, step.r, id);
      } else if step.Receive? || step.r != id {
        ChildrenOther(g, s, step, id);
      } else if step.Send? {
        ChildrenSend(g, s, id);
      } else if step.Spin? {
        ChildrenSpin(g, s, id);
      } else {
        ChildrenOwn(g, s, step);
      }
    }
  }

  lemma SendCount(g: Graph, s: State, r: nat)
    requires Inv(g, s) && Enabled(g, s, Send(r))
    ensures var t := Do(g, s, Send(r)); TakenCount(t.reqs, t.reqs[r].children) == TakenCount(s.reqs, s.reqs[r].children)
  {
    assert ChildrenOk(g, s, r);
    var t := Do(g, s, Send(r));
    TakenSame(s.reqs, t.reqs, s.reqs[r].children);
    assert t.reqs[r].children[..|s.reqs[r].children|] == s.reqs[r].children;
  }

  lemma StepInv(g: Graph, s: State, step: Step)
    requires Inv(g, s) && Enabled(g, s, step)
    ensures Inv(g, Do(g, s, step))
  {
    var t := Do(g, s, step);
    forall id | 0 <= id < |t.reqs| ensures ChildrenOk(g, t, id) && ParentOk(g, t, id) && SelfOk(g, t, id) {
      hide ChildrenOk, ParentOk, SelfOk, Inv, Do, Enabled;
      ChildrenStep(g, s, step, id);
      ParentStep(g, s, step, id);
      SelfStep(g, s, step, id);
    }
    forall n | n in t.busy ensures BusyOk(t, n) {
      hide BusyOk, Inv, Do, Enabled;
      BusyStep(g, s, step, n);
    }
    hide ChildrenOk, ParentOk, SelfOk, BusyOk;
  }
}
