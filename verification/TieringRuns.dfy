/** Whole runs of tiering_server.cc: an acknowledged put is stored, nothing else is, and the leaves agree whenever
    the root is not at work. */
module TieringRuns {
  import opened Tiering
  import opened Wrappers

  /** A run from `s` to `t`. */
  ghost predicate Leads(g: Graph, s: State, steps: seq<Step>, t: State) {
    if steps == [] then s == t
    else
      var n := |steps| - 1;
      exists u :: Leads(g, s, steps[..n], u) && Enabled(g, u, steps[n]) && t == Do(g, u, steps[n])
  }

  lemma {:induction false} StaysInv(g: Graph, s: State, steps: seq<Step>, t: State)
    requires Leads(g, s, steps, t) && Inv(g, s)
    ensures Inv(g, t)
    decreases |steps|
  {
    if steps != [] {
      hide Inv, Do, Enabled;
      var n := |steps| - 1;
      var u :| Leads(g, s, steps[..n], u) && Enabled(g, u, steps[n]) && t == Do(g, u, steps[n]);
      StaysInv(g, s, steps[..n], u);
      StepInv(g, u, steps[n]);
    }
  }

  lemma RunInv(g: Graph, steps: seq<Step>, t: State)
    requires Leads(g, Initial, steps, t)
    ensures Inv(g, t)
  {
    hide Leads;
    StaysInv(g, Initial, steps, t);
  }

  // ---- an acknowledged put is stored -----------------------------------------

  ghost predicate IsPath(g: Graph, path: seq<Node>) {
    path != [] && forall i | 0 <= i < |path| - 1 :: path[i] in g && path[i + 1] in g[path[i]]
  }

  lemma {:induction false} AckWritten(g: Graph, s: State, id: nat, path: seq<Node>)
    requires Inv(g, s) && id < |s.reqs| && Finished(s.reqs[id])
    requires IsPath(g, path) && path[0] == s.reqs[id].node && IsLeaf(g, path[|path| - 1])
    ensures Written(s, path[|path| - 1], s.reqs[id].key, s.reqs[id].value, s.reqs[id].birth)
    decreases |path|
  {
    hide Written, TakenCount;
    assert ChildrenOk(g, s, id) && SelfOk(g, s, id);
    if |path| > 1 {
      var kids := g[path[0]];
      assert path[1] in kids;
      var j :| 0 <= j < |kids| && kids[j] == path[1];
      var c := s.reqs[id].children[j];
      assert s.reqs[c].phase == Taken && s.reqs[c].node == path[1];
      assert ParentOk(g, s, c);
      AckWritten(g, s, c, path[1..]);
      WrittenSince(s, path[|path| - 1], s.reqs[id].key, s.reqs[id].value, s.reqs[c].birth, s.reqs[id].birth);
    }
  }

  lemma WrittenSince(s: State, n: Node, k: Key, v: Value, later: nat, birth: nat)
    requires Written(s, n, k, v, later) && birth <= later
    ensures Written(s, n, k, v, birth)
  {
  }

  /** In every run, on every graph: once a server has answered a put, each leaf that can be reached from it has
      stored the value since the server began to work on it. */
  lemma AckedIsStored(g: Graph, steps: seq<Step>, t: State, id: nat, path: seq<Node>)
    requires Leads(g, Initial, steps, t) && id < |t.reqs| && Finished(t.reqs[id])
    requires IsPath(g, path) && path[0] == t.reqs[id].node && IsLeaf(g, path[|path| - 1])
    ensures Written(t, path[|path| - 1], t.reqs[id].key, t.reqs[id].value, t.reqs[id].birth)
  {
    hide Inv, Written, Leads;
    RunInv(g, steps, t);
    AckWritten(g, t, id, path);
  }

  // ---- a store is of a put ---------------------------------------------------

  /** Request `d` was sent on behalf of `id`, maybe over several tiers. */
  ghost predicate Below(reqs: seq<Request>, d: nat, id: nat)
    decreases d
  {
    && d < |reqs|
    && (d == id || (reqs[d].parent.Some? && reqs[d].parent.value < d && Below(reqs, reqs[d].parent.value, id)))
  }

  predicate HasStored(g: Graph, r: Request) {
    IsLeaf(g, r.node) && (r.phase == Stored || Finished(r))
  }

  /** It carries the same put, and there is a path to where it went. */
  lemma {:induction false} PathBelow(g: Graph, s: State, d: nat, id: nat) returns (path: seq<Node>)
    requires Inv(g, s) && Below(s.reqs, d, id)
    ensures id < |s.reqs| && s.reqs[d].key == s.reqs[id].key && s.reqs[d].value == s.reqs[id].value
    ensures IsPath(g, path) && path[0] == s.reqs[id].node && path[|path| - 1] == s.reqs[d].node
    decreases d
  {
    hide TakenCount;
    if d == id {
      return [s.reqs[d].node];
    }
    var p := s.reqs[d].parent.value;
    assert ParentOk(g, s, d) && ChildrenOk(g, s, p);
    path := PathBelow(g, s, p, id);
    path := path + [s.reqs[d].node];
  }

  /** Every request goes back to a client's. */
  lemma {:induction false} Origin(g: Graph, s: State, d: nat) returns (id: nat)
    requires Inv(g, s) && d < |s.reqs|
    ensures Below(s.reqs, d, id) && id < |s.reqs| && s.reqs[id].parent == None
    decreases d
  {
    hide ChildrenOk;
    assert ParentOk(g, s, d);
    if s.reqs[d].parent == None {
      return d;
    }
    id := Origin(g, s, s.reqs[d].parent.value);
  }

  /** A store was made by a request. */
  ghost predicate Made(g: Graph, s: State, i: nat)
    requires i < |s.writes|
  {
    exists d :: 0 <= d < |s.reqs| && HasStored(g, s.reqs[d])
      && s.writes[i] == Write(s.reqs[d].node, s.reqs[d].key, s.reqs[d].value)
  }

  lemma MadeStep(g: Graph, s: State, step: Step, i: nat)
    requires Enabled(g, s, step) && i < |Do(g, s, step).writes| && (i < |s.writes| ==> Made(g, s, i))
    ensures Made(g, Do(g, s, step), i)
  {
    var t := Do(g, s, step);
    var d :| 0 <= d < |s.reqs| && (if i < |s.writes| then HasStored(g, s.reqs[d]) else step.Store? && step.r == d)
      && t.writes[i] == Write(s.reqs[d].node, s.reqs[d].key, s.reqs[d].value);
    assert HasStored(g, t.reqs[d]);
  }

  lemma {:induction false} RunMade(g: Graph, steps: seq<Step>, t: State, i: nat)
    requires Leads(g, Initial, steps, t) && i < |t.writes|
    ensures Made(g, t, i)
    decreases |steps|
  {
    hide Do, Enabled, Made;
    if steps != [] {
      var n := |steps| - 1;
      var u :| Leads(g, Initial, steps[..n], u) && Enabled(g, u, steps[n]) && t == Do(g, u, steps[n]);
      if i < |u.writes| {
        RunMade(g, steps[..n], u, i);
      }
      MadeStep(g, u, steps[n], i);
    }
  }

  /** In every run, whatever a leaf has stored is a client's put, and the leaf can be reached from the server that
      the client turned to. */
  lemma StoredIsPut(g: Graph, steps: seq<Step>, t: State, i: nat) returns (id: nat, path: seq<Node>)
    requires Leads(g, Initial, steps, t) && i < |t.writes|
    ensures id < |t.reqs| && t.reqs[id].parent == None
    ensures t.writes[i].key == t.reqs[id].key && t.writes[i].value == t.reqs[id].value
    ensures IsPath(g, path) && path[0] == t.reqs[id].node && path[|path| - 1] == t.writes[i].node
    ensures IsLeaf(g, t.writes[i].node)
  {
    hide Leads, Inv, IsPath;
    RunInv(g, steps, t);
    RunMade(g, steps, t, i);
    var d :| 0 <= d < |t.reqs| && HasStored(g, t.reqs[d])
      && t.writes[i] == Write(t.reqs[d].node, t.reqs[d].key, t.reqs[d].value);
    id := Origin(g, t, d);
    path := PathBelow(g, t, d, id);
  }

  /** On a path to a leaf, an answered request has had the put stored there. */
  lemma {:induction false} StoredBelow(g: Graph, s: State, id: nat, path: seq<Node>) returns (d: nat)
    requires Inv(g, s) && id < |s.reqs| && Finished(s.reqs[id])
    requires IsPath(g, path) && path[0] == s.reqs[id].node && IsLeaf(g, path[|path| - 1])
    ensures Below(s.reqs, d, id) && HasStored(g, s.reqs[d]) && s.reqs[d].node == path[|path| - 1]
    decreases |path|
  {
    hide Written, TakenCount;
    assert ChildrenOk(g, s, id);
    if |path| == 1 {
      return id;
    }
    var kids := g[path[0]];
    assert path[1] in kids;
    var j :| 0 <= j < |kids| && kids[j] == path[1];
    var c := s.reqs[id].children[j];
    d := StoredBelow(g, s, c, path[1..]);
    BelowTrans(s.reqs, d, c, id);
  }

  lemma {:induction false} BelowTrans(reqs: seq<Request>, d: nat, c: nat, id: nat)
    requires Below(reqs, d, c) && c < |reqs| && reqs[c].parent == Some(id) && id < c
    ensures Below(reqs, d, id)
    decreases d
  {
    if d != c {
      BelowTrans(reqs, reqs[d].parent.value, c, id);
    }
  }

  /** In every run, on every graph: an answered put has been stored on its behalf somewhere, if and only if some leaf
      can be reached from its server. */
  lemma StoredIffReachable(g: Graph, steps: seq<Step>, t: State, id: nat)
    requires Leads(g, Initial, steps, t) && id < |t.reqs| && Finished(t.reqs[id])
    ensures (exists d: nat :: Below(t.reqs, d, id) && HasStored(g, t.reqs[d]))
      <==> (exists path :: IsPath(g, path) && path[0] == t.reqs[id].node && IsLeaf(g, path[|path| - 1]))
  {
    hide Leads, Inv;
    RunInv(g, steps, t);
    if d: nat :| Below(t.reqs, d, id) && HasStored(g, t.reqs[d]) {
      var path := PathBelow(g, t, d, id);
    }
    if path :| IsPath(g, path) && path[0] == t.reqs[id].node && IsLeaf(g, path[|path| - 1]) {
      var d := StoredBelow(g, t, id, path);
    }
  }

  // ---- leaves agree between requests at the root -----------------------------

  /** What the puts acknowledged to clients make of an empty map. */
  function Applied(puts: seq<(Key, Value)>): map<Key, Value> {
    if puts == [] then map[]
    else
      var n := |puts| - 1;
      Applied(puts[..n])[puts[n].0 := puts[n].1]
  }

  ghost predicate AtRoot(s: State, root: Node) {
    forall id | 0 <= id < |s.reqs| && s.reqs[id].parent == None :: s.reqs[id].node == root
  }

  ghost predicate RootOnly(steps: seq<Step>, root: Node) {
    forall i | 0 <= i < |steps| && steps[i].Receive? :: steps[i].node == root
  }

  /** While the root works on a put, a leaf has its value as soon as it has stored it, and the result of the
      earlier puts until then. */
  ghost predicate LeafOk(s: State, root: Node, l: Node) {
    var base := Applied(s.acked);
    if root in s.busy && s.busy[root] < |s.reqs| then
      var r := s.reqs[s.busy[root]];
      ValsAt(s, l) == if Written(s, l, r.key, r.value, r.birth) then base[r.key := r.value] else base
    else ValsAt(s, l) == base
  }

  /** What is under way below the root is the root's own put. */
  lemma {:induction false} Top(g: Graph, s: State, root: Node, id: nat)
    requires Inv(g, s) && AtRoot(s, root) && id < |s.reqs|
    requires var r := s.reqs[id]; r.phase == Active || r.phase == Stored || (r.parent.Some? && r.phase != Taken)
    ensures root in s.busy && s.busy[root] < |s.reqs|
    ensures var r, top := s.reqs[id], s.reqs[s.busy[root]];
      && top.parent == None && (r.parent == None ==> s.busy[root] == id) && top.key == r.key && top.value == r.value
      && (r.phase != Queued ==> top.birth <= r.birth)
  {
    hide ChildrenOk, Written;
    assert ParentOk(g, s, id) && SelfOk(g, s, id);
    if s.reqs[id].parent.Some? {
      Top(g, s, root, s.reqs[id].parent.value);
    }
  }

  lemma AtRootStep(g: Graph, s: State, step: Step, root: Node)
    requires Enabled(g, s, step) && AtRoot(s, root) && (step.Receive? ==> step.node == root)
    ensures AtRoot(Do(g, s, step), root)
  {
  }

  lemma LeafStart(g: Graph, s: State, r: nat, root: Node, l: Node)
    requires Inv(g, s) && Enabled(g, s, Start(r)) && AtRoot(s, root) && LeafOk(s, root, l)
    ensures LeafOk(Do(g, s, Start(r)), root, l)
  {
    hide ChildrenOk, ParentOk, SelfOk;
    if s.reqs[r].node == root {
      assert !Written(Do(g, s, Start(r)), l, s.reqs[r].key, s.reqs[r].value, |s.writes|);
    } else if root in s.busy {
      assert BusyOk(s, root);
      SameWritten(s, Do(g, s, Start(r)), l);
    }
  }

  lemma SameWritten(s: State, t: State, l: Node)
    requires s.writes == t.writes
    ensures forall k, v, b :: Written(s, l, k, v, b) <==> Written(t, l, k, v, b)
  {
  }

  /** Storing, which happens only below the root's own put. */
  lemma LeafStore(g: Graph, s: State, r: nat, root: Node, l: Node)
    requires Inv(g, s) && Enabled(g, s, Store(r)) && AtRoot(s, root) && LeafOk(s, root, l)
    ensures LeafOk(Do(g, s, Store(r)), root, l)
  {
    hide ChildrenOk, ParentOk, SelfOk, Applied;
    var t := Do(g, s, Store(r));
    Top(g, s, root, r);
    var top := s.reqs[s.busy[root]];
    assert BusyOk(s, root);
    assert t.writes[|s.writes|] == Write(s.reqs[r].node, top.key, top.value);
    if l != s.reqs[r].node {
      assert Written(t, l, top.key, top.value, top.birth) <==> Written(s, l, top.key, top.value, top.birth) by {
        if Written(s, l, top.key, top.value, top.birth) {
          WrittenKept(s, t, l, top.key, top.value, top.birth);
        }
      }
    } else {
      TopBirth(g, s, root, r);
      assert Written(t, l, top.key, top.value, top.birth);
    }
  }

  lemma TopBirth(g: Graph, s: State, root: Node, r: nat)
    requires Inv(g, s) && AtRoot(s, root) && r < |s.reqs| && s.reqs[r].phase == Active
    ensures root in s.busy && s.busy[root] < |s.reqs| && s.reqs[s.busy[root]].birth <= |s.writes|
  {
    Top(g, s, root, r);
    assert SelfOk(g, s, s.busy[root]);
  }

  /** The root answers: all leaves have stored the put. */
  lemma LeafReply(g: Graph, s: State, step: Step, root: Node, l: Node, path: seq<Node>)
    requires Inv(g, s) && Enabled(g, s, step) && AtRoot(s, root) && LeafOk(s, root, l)
    requires step.Spin? || step.Answer?
    requires IsPath(g, path) && path[0] == root && path[|path| - 1] == l && IsLeaf(g, l)
    ensures LeafOk(Do(g, s, step), root, l)
  {
    hide ChildrenOk, ParentOk;
    var t := Do(g, s, step);
    var r := s.reqs[step.r];
    assert SelfOk(g, s, step.r);
    Top(g, s, root, step.r);
    SameWritten(s, t, l);
    if r.node == root {
      StepInv(g, s, step);
      hide SelfOk, Inv;
      AckWritten(g, t, step.r, path);
      assert t.acked[..|s.acked|] == s.acked;
    }
  }

  lemma LeafStep(g: Graph, s: State, step: Step, root: Node, l: Node, path: seq<Node>)
    requires Inv(g, s) && Enabled(g, s, step) && AtRoot(s, root) && LeafOk(s, root, l)
    requires IsPath(g, path) && path[0] == root && path[|path| - 1] == l && IsLeaf(g, l)
    ensures LeafOk(Do(g, s, step), root, l)
  {
    hide Inv, LeafOk, Do, AtRoot, IsPath;
    match step
    case Start(r) => LeafStart(g, s, r, root, l);
    case Store(r) => LeafStore(g, s, r, root, l);
    case Spin(_) => LeafReply(g, s, step, root, l, path);
    case Answer(_) => LeafReply(g, s, step, root, l, path);
    case _ => LeafOther(g, s, step, root, l);
  }

  lemma LeafOther(g: Graph, s: State, step: Step, root: Node, l: Node)
    requires Inv(g, s) && Enabled(g, s, step) && LeafOk(s, root, l) && (step.Receive? || step.Send? || step.Take?)
    ensures LeafOk(Do(g, s, step), root, l)
  {
    hide ChildrenOk, ParentOk, SelfOk, Applied, Written;
    SameWritten(s, Do(g, s, step), l);
    if root in s.busy {
      assert BusyOk(s, root);
    }
  }

  lemma {:induction false} RunLeaf(g: Graph, steps: seq<Step>, t: State, root: Node, l: Node, path: seq<Node>)
    requires Leads(g, Initial, steps, t) && RootOnly(steps, root)
    requires IsPath(g, path) && path[0] == root && path[|path| - 1] == l && IsLeaf(g, l)
    ensures AtRoot(t, root) && LeafOk(t, root, l)
    decreases |steps|
  {
    if steps != [] {
      hide Inv, Do, Enabled, LeafOk, AtRoot, IsPath;
      var n := |steps| - 1;
      var u :| Leads(g, Initial, steps[..n], u) && Enabled(g, u, steps[n]) && t == Do(g, u, steps[n]);
      RunLeaf(g, steps[..n], u, root, l, path);
      RunInv(g, steps[..n], u);
      AtRootStep(g, u, steps[n], root);
      LeafStep(g, u, steps[n], root, l, path);
    }
  }

  /** In every run in which clients turn to the root alone: whenever the root is not at work, every leaf
      that it can reach holds what the acknowledged puts make, in their order; so all of them agree. */
  lemma LeavesAgree(g: Graph, steps: seq<Step>, t: State, root: Node, l: Node, path: seq<Node>)
    requires Leads(g, Initial, steps, t) && RootOnly(steps, root) && root !in t.busy
    requires IsPath(g, path) && path[0] == root && path[|path| - 1] == l && IsLeaf(g, l)
    ensures ValsAt(t, l) == Applied(t.acked)
  {
    hide Leads, Applied, IsPath;
    RunLeaf(g, steps, t, root, l, path);
  }
}
