/**
 Log shipping as a step system: a leader, replicas that follow it or one another, and the
 records under way between them. Histories of writes are compared with what each replica
 holds, over every interleaving.
 */
module Replication {
  import opened Wrappers
  import opened WalRecords
  import opened Storage
  import opened ReplicationCodec

  // ---------------------------------------------------------------- one replica

  datatype Replica = Replica(table: Table, seqNo: nat)

  function TableOf(pairs: seq<Pair>): Table {
    if pairs == [] then map[] else TableOf(pairs[..|pairs| - 1])[pairs[|pairs| - 1].key := pairs[|pairs| - 1].value]
  }

  /** A snapshot replaces the state, a batch is applied to it. */
  function Receive(r: Replica, m: Message): Replica {
    match m
    case SnapshotMsg(n, pairs) => Replica(TableOf(pairs), n)
    case BatchMsg(n, ops) => Replica(ApplyOps(r.table, ops), n)
  }

  function ReceiveAll(r: Replica, queue: seq<Message>): Replica
    decreases |queue|
  {
    if queue == [] then r else ReceiveAll(Receive(r, queue[0]), queue[1..])
  }

  // ---------------------------------------------------------------- the history of the leader

  /** The leader's initial table and every batch it has committed. */
  datatype History = History(start: Table, writes: seq<seq<Op>>)

  function TableAt(h: History, n: nat): Table
    requires n <= |h.writes|
  {
    if n == 0 then h.start else ApplyOps(TableAt(h, n - 1), h.writes[n - 1])
  }

  /** The numbered batches after the first a, up to the first b. */
  function Batches(h: History, a: nat, b: nat): (r: seq<Message>)
    requires a <= b <= |h.writes|
    ensures |r| == b - a
  {
    seq(b - a, i requires 0 <= i < b - a => BatchMsg(a + i + 1, h.writes[a + i]))
  }

  function Extended(h: History, ops: seq<Op>): History {
    h.(writes := h.writes + [ops])
  }

  lemma {:induction false} ExtendedAt(h: History, ops: seq<Op>, n: nat)
    requires n <= |h.writes|
    ensures TableAt(Extended(h, ops), n) == TableAt(h, n)
  {
    if n > 0 {
      ExtendedAt(h, ops, n - 1);
    }
  }

  lemma ExtendedBatches(h: History, ops: seq<Op>, a: nat, b: nat)
    requires a <= b <= |h.writes|
    ensures Batches(Extended(h, ops), a, b) == Batches(h, a, b)
  {
  }

  lemma BatchesNext(h: History, a: nat, b: nat)
    requires a <= b < |h.writes|
    ensures Batches(h, a, b) + [BatchMsg(b + 1, h.writes[b])] == Batches(h, a, b + 1)
  {
  }

  lemma BatchesFirst(h: History, a: nat, b: nat)
    requires a < b <= |h.writes|
    ensures Batches(h, a, b) == [BatchMsg(a + 1, h.writes[a])] + Batches(h, a + 1, b)
  {
  }

  /** Working off the batches a+1..b moves the table of a to the table of b. */
  lemma {:induction false} BatchesReach(h: History, a: nat, b: nat)
    requires a <= b <= |h.writes|
    ensures ReceiveAll(Replica(TableAt(h, a), a), Batches(h, a, b)) == Replica(TableAt(h, b), b)
    decreases b - a
  {
    if a < b {
      BatchesFirst(h, a, b);
      var queue := Batches(h, a, b);
      assert queue[0] == BatchMsg(a + 1, h.writes[a]) && queue[1..] == Batches(h, a + 1, b);
      BatchesReach(h, a + 1, b);
    }
  }

  // ---------------------------------------------------------------- the system

  /** What is under way from the node `up`. */
  datatype Link = Link(up: nat, queue: seq<Message>)

  /** `synced` says that the content goes back to a snapshot of the leader. */
  datatype NodeState = NodeState(replica: Replica, synced: bool, link: Option<Link>)

  /** Node 0 is the leader; the others are read-only replicas. */
  datatype System = System(nodes: seq<NodeState>, history: History)

  datatype Step =
    | Write(ops: seq<Op>)
    | Subscribe(node: nat, up: nat, pairs: seq<Pair>)
    | Disconnect(node: nat)
    | Deliver(node: nat)

  predicate AttachedTo(s: NodeState, up: nat) {
    s.link.Some? && s.link.value.up == up
  }

  function Forwarded(s: NodeState, up: nat, m: Message): NodeState {
    if AttachedTo(s, up) then s.(link := Some(Link(up, s.link.value.queue + [m]))) else s
  }

  /** Push a record to every follower of a node. */
  function Broadcast(nodes: seq<NodeState>, up: nat, m: Message): (r: seq<NodeState>)
    ensures |r| == |nodes|
  {
    seq(|nodes|, i requires 0 <= i < |nodes| => Forwarded(nodes[i], up, m))
  }

  predicate Enabled(s: System, step: Step) {
    match step
    case Write(_) => s.nodes != []
    case Subscribe(f, up, pairs) => 0 < f < |s.nodes| && up < |s.nodes| && TableOf(pairs) == s.nodes[up].replica.table
    case Disconnect(f) => 0 < f < |s.nodes|
    case Deliver(f) => 0 < f < |s.nodes| && s.nodes[f].link.Some? && s.nodes[f].link.value.queue != [] && s.nodes[f].link.value.up < |s.nodes|
  }

  /** A node that takes in the first record of its queue, before it passes anything on. */
  function Taken(s: System, f: nat): NodeState
    requires Enabled(s, Deliver(f))
  {
    var n := s.nodes[f];
    var l := n.link.value;
    NodeState(Receive(n.replica, l.queue[0]), if l.queue[0].SnapshotMsg? then s.nodes[l.up].synced else n.synced, Some(Link(l.up, l.queue[1..])))
  }

  /** A delivered batch is passed on to the node's own followers, a snapshot is not. */
  function Next(s: System, step: Step): System
    requires Enabled(s, step)
  {
    match step
    case Write(ops) =>
      var lead := s.nodes[0];
      var n := lead.replica.seqNo + 1;
      var nodes := s.nodes[0 := lead.(replica := Replica(ApplyOps(lead.replica.table, ops), n))];
      System(Broadcast(nodes, 0, BatchMsg(n, ops)), Extended(s.history, ops))
    case Subscribe(f, up, pairs) =>
      var up' := s.nodes[up];
      s.(nodes := s.nodes[f := s.nodes[f].(link := Some(Link(up, [SnapshotMsg(up'.replica.seqNo, pairs)])))])
    case Disconnect(f) => s.(nodes := s.nodes[f := s.nodes[f].(link := None)])
    case Deliver(f) =>
      var m := s.nodes[f].link.value.queue[0];
      var nodes := s.nodes[f := Taken(s, f)];
      s.(nodes := if m.BatchMsg? then Broadcast(nodes, f, m) else nodes)
  }

  /** Nobody follows this node. */
  ghost predicate Unfollowed(s: System, f: nat) {
    forall g :: 0 <= g < |s.nodes| ==> !AttachedTo(s.nodes[g], f)
  }

  ghost predicate TakesSnapshot(s: System, step: Step) {
    Enabled(s, step) && step.Deliver? && s.nodes[step.node].link.value.queue[0].SnapshotMsg?
  }

  /** The queue is one snapshot and nothing else. */
  predicate Pending(queue: seq<Message>) {
    |queue| == 1 && queue[0].SnapshotMsg?
  }

  /**
   What a snapshot that f takes must be for the follower g, which is not sent it: nothing
   new, or the one that g has not taken yet itself.
   */
  predicate InStep(s: System, f: nat, g: nat)
    requires Enabled(s, Deliver(f)) && g < |s.nodes| && AttachedTo(s.nodes[g], f)
  {
    var m, up, queue := s.nodes[f].link.value.queue[0], s.nodes[s.nodes[f].link.value.up], s.nodes[g].link.value.queue;
    if up.synced && s.nodes[f].synced then m.seqNo == s.nodes[f].replica.seqNo
    else if up.synced then m.SnapshotMsg? && Pending(queue) && queue[0].seqNo == m.seqNo && TableOf(queue[0].pairs) == TableOf(m.pairs)
    else s.nodes[f].synced ==> Pending(queue)
  }

  /** The steps of this theory: a followed node takes a snapshot only in step with its followers. */
  ghost predicate Allowed(s: System, step: Step) {
    Enabled(s, step) && (TakesSnapshot(s, step) ==>
      forall g :: 0 <= g < |s.nodes| && AttachedTo(s.nodes[g], step.node) ==> InStep(s, step.node, g))
  }

  ghost predicate Initial(s: System) {
    && s.nodes != [] && s.nodes[0].synced && s.nodes[0].link.None?
    && s.history.writes == [] && s.history.start == s.nodes[0].replica.table && s.nodes[0].replica.seqNo == 0
    && forall f :: 0 < f < |s.nodes| ==> !s.nodes[f].synced && s.nodes[f].link.None?
  }

  ghost predicate Runs(s: System, steps: seq<Step>, t: System)
    decreases |steps|
  {
    if steps == [] then s == t else Allowed(s, steps[0]) && Runs(Next(s, steps[0]), steps[1..], t)
  }

  // ---------------------------------------------------------------- the invariant

  /** A synced node holds the leader's table at its own number. */
  ghost predicate NodeOk(s: NodeState, h: History) {
    s.synced ==> s.replica.seqNo <= |h.writes| && s.replica.table == TableAt(h, s.replica.seqNo)
  }

  /** After what was taken already, the queue holds exactly the batches up to `upto`. */
  ghost predicate Fed(f: NodeState, queue: seq<Message>, upto: nat, h: History)
    requires upto <= |h.writes|
  {
    if queue != [] && queue[0].SnapshotMsg? then
      queue[0].seqNo <= upto && TableOf(queue[0].pairs) == TableAt(h, queue[0].seqNo) && queue[1..] == Batches(h, queue[0].seqNo, upto)
    else
      f.synced && f.replica.seqNo <= upto && queue == Batches(h, f.replica.seqNo, upto)
  }

  /** A node whose content does not come from the leader sends snapshots only. */
  predicate Idle(f: NodeState, queue: seq<Message>) {
    |queue| <= 1 && (queue == [] ==> !f.synced) && (|queue| == 1 ==> queue[0].SnapshotMsg?)
  }

  ghost predicate LinkOk(f: NodeState, up: NodeState, h: History)
    requires f.link.Some? && NodeOk(up, h)
  {
    if up.synced then Fed(f, f.link.value.queue, up.replica.seqNo, h) else Idle(f, f.link.value.queue)
  }

  ghost predicate LeaderOk(s: System) {
    && s.nodes != [] && s.nodes[0].synced && s.nodes[0].link.None?
    && s.nodes[0].replica.seqNo == |s.history.writes|
  }

  ghost predicate NodesOk(s: System) {
    forall f :: 0 <= f < |s.nodes| ==> NodeOk(s.nodes[f], s.history)
  }

  ghost predicate FollowsOk(s: System, f: nat)
    requires f < |s.nodes| && NodesOk(s)
  {
    s.nodes[f].link.Some? ==> s.nodes[f].link.value.up < |s.nodes| && LinkOk(s.nodes[f], s.nodes[s.nodes[f].link.value.up], s.history)
  }

  ghost predicate Inv(s: System) {
    LeaderOk(s) && NodesOk(s) && forall f :: 0 <= f < |s.nodes| ==> FollowsOk(s, f)
  }

  lemma InitialInv(s: System)
    requires Initial(s)
    ensures Inv(s)
  {
    assert TableAt(s.history, 0) == s.history.start;
    forall f | 0 <= f < |s.nodes|
      ensures NodeOk(s.nodes[f], s.history)
    {
    }
  }

  // ---------------------------------------------------------------- writes

  lemma WriteKeepsNode(n: NodeState, h: History, ops: seq<Op>)
    requires NodeOk(n, h)
    ensures NodeOk(n, Extended(h, ops))
  {
    if n.synced {
      ExtendedAt(h, ops, n.replica.seqNo);
    }
  }

  lemma WriteKeepsFed(f: NodeState, queue: seq<Message>, upto: nat, h: History, ops: seq<Op>)
    requires upto <= |h.writes| && Fed(f, queue, upto, h)
    ensures Fed(f, queue, upto, Extended(h, ops))
  {
    if queue != [] && queue[0].SnapshotMsg? {
      ExtendedAt(h, ops, queue[0].seqNo);
      ExtendedBatches(h, ops, queue[0].seqNo, upto);
    } else {
      ExtendedBatches(h, ops, f.replica.seqNo, upto);
    }
  }

  /** One more batch in the queue. */
  lemma FedNext(f: NodeState, queue: seq<Message>, upto: nat, h: History)
    requires upto < |h.writes| && Fed(f, queue, upto, h)
    ensures Fed(f, queue + [BatchMsg(upto + 1, h.writes[upto])], upto + 1, h)
  {
    var m := BatchMsg(upto + 1, h.writes[upto]);
    if queue != [] && queue[0].SnapshotMsg? {
      BatchesNext(h, queue[0].seqNo, upto);
      assert (queue + [m])[1..] == queue[1..] + [m];
    } else {
      BatchesNext(h, f.replica.seqNo, upto);
    }
  }

  lemma WriteKeepsLink(f: NodeState, up: NodeState, h: History, ops: seq<Op>)
    requires f.link.Some? && NodeOk(up, h) && LinkOk(f, up, h)
    ensures NodeOk(up, Extended(h, ops)) && LinkOk(f, up, Extended(h, ops))
  {
    hide Fed;
    WriteKeepsNode(up, h, ops);
    if up.synced {
      WriteKeepsFed(f, f.link.value.queue, up.replica.seqNo, h, ops);
    }
  }

  lemma WriteNodes(s: System, ops: seq<Op>, f: nat)
    requires Inv(s) && f < |s.nodes|
    ensures var t := Next(s, Write(ops));
      && t.history == Extended(s.history, ops) && |t.nodes| == |s.nodes|
      && t.nodes[f].synced == s.nodes[f].synced
      && (f == 0 ==> t.nodes[f].replica == Replica(TableAt(t.history, |t.history.writes|), |t.history.writes|) && t.nodes[f].link.None?)
      && (f != 0 ==> t.nodes[f] == Forwarded(s.nodes[f], 0, BatchMsg(|t.history.writes|, ops)))
  {
    ExtendedAt(s.history, ops, |s.history.writes|);
  }

  lemma WriteKeepsNodes(s: System, ops: seq<Op>, f: nat)
    requires Inv(s) && f < |s.nodes|
    ensures NodeOk(Next(s, Write(ops)).nodes[f], Next(s, Write(ops)).history)
  {
    hide Next, TableAt;
    WriteNodes(s, ops, f);
    WriteKeepsNode(s.nodes[f], s.history, ops);
  }

  lemma WriteKeepsFollows(s: System, ops: seq<Op>, f: nat)
    requires Inv(s) && f < |s.nodes| && NodesOk(Next(s, Write(ops)))
    ensures FollowsOk(Next(s, Write(ops)), f)
  {
    hide Next, TableAt, Fed, ApplyOps;
    var t := Next(s, Write(ops));
    WriteNodes(s, ops, f);
    if f != 0 && s.nodes[f].link.Some? {
      assert FollowsOk(s, f);
      var l := s.nodes[f].link.value;
      WriteNodes(s, ops, l.up);
      if l.up == 0 {
        WriteKeepsFed(s.nodes[f], l.queue, |s.history.writes|, s.history, ops);
        FedNext(s.nodes[f], l.queue, |s.history.writes|, t.history);
        SameFed(s.nodes[f], t.nodes[f], t.nodes[f].link.value.queue, |t.history.writes|, t.history);
      } else {
        WriteKeepsLink(s.nodes[f], s.nodes[l.up], s.history, ops);
        SameLink(s.nodes[f], s.nodes[l.up], t.nodes[l.up], t.history);
      }
    }
  }

  lemma SameFed(f: NodeState, f': NodeState, queue: seq<Message>, upto: nat, h: History)
    requires upto <= |h.writes| && Fed(f, queue, upto, h) && f'.synced == f.synced && f'.replica == f.replica
    ensures Fed(f', queue, upto, h)
  {
  }

  /** Only the content and the number of the upstream node matter to a link. */
  lemma SameLink(f: NodeState, up: NodeState, up': NodeState, h: History)
    requires f.link.Some? && NodeOk(up, h) && LinkOk(f, up, h) && up'.synced == up.synced && up'.replica == up.replica
    ensures NodeOk(up', h) && LinkOk(f, up', h)
  {
  }

  lemma WriteKeepsInv(s: System, ops: seq<Op>)
    requires Inv(s)
    ensures Inv(Next(s, Write(ops)))
  {
    hide FollowsOk, NodeOk, Next;
    var t := Next(s, Write(ops));
    WriteNodes(s, ops, 0);
    forall f | 0 <= f < |t.nodes|
      ensures NodeOk(t.nodes[f], t.history)
    {
      WriteKeepsNodes(s, ops, f);
    }
    forall f | 0 <= f < |t.nodes|
      ensures FollowsOk(t, f)
    {
      WriteKeepsFollows(s, ops, f);
    }
  }

  // ---------------------------------------------------------------- subscribing and leaving

  lemma LinkChangeKeepsInv(s: System, f: nat, link: Option<Link>)
    requires Inv(s) && 0 < f < |s.nodes|
    requires link.Some? ==> link.value.up < |s.nodes|
    requires link.Some? ==> LinkOk(s.nodes[f].(link := link), s.nodes[link.value.up], s.history)
    ensures Inv(s.(nodes := s.nodes[f := s.nodes[f].(link := link)]))
  {
    hide TableAt, Fed, Batches;
    var t := s.(nodes := s.nodes[f := s.nodes[f].(link := link)]);
    forall g | 0 <= g < |t.nodes|
      ensures NodeOk(t.nodes[g], t.history)
    {
      assert NodeOk(s.nodes[g], s.history);
    }
    forall g | 0 <= g < |t.nodes|
      ensures FollowsOk(t, g)
    {
      assert FollowsOk(s, g);
    }
  }

  lemma SubscribeKeepsInv(s: System, f: nat, up: nat, pairs: seq<Pair>)
    requires Inv(s) && Enabled(s, Subscribe(f, up, pairs))
    ensures Inv(Next(s, Subscribe(f, up, pairs)))
  {
    hide TableAt, TableOf;
    var u := s.nodes[up];
    var link := Some(Link(up, [SnapshotMsg(u.replica.seqNo, pairs)]));
    assert NodeOk(u, s.history);
    assert link.value.queue[1..] == [];
    if u.synced {
      assert Batches(s.history, u.replica.seqNo, u.replica.seqNo) == [];
    }
    hide Inv, LinkOk;
    LinkOkNew(s.nodes[f].(link := link), u, s.history, pairs);
    LinkChangeKeepsInv(s, f, link);
  }

  /** A fresh subscription starts with the upstream node's own state. */
  lemma LinkOkNew(f: NodeState, up: NodeState, h: History, pairs: seq<Pair>)
    requires NodeOk(up, h) && TableOf(pairs) == up.replica.table
    requires f.link.Some? && f.link.value.queue == [SnapshotMsg(up.replica.seqNo, pairs)]
    ensures LinkOk(f, up, h)
  {
    hide TableAt, TableOf;
    assert f.link.value.queue[1..] == [];
  }

  // ---------------------------------------------------------------- deliveries

  /** Taking in the next record keeps a replica the leader's at its own number. */
  lemma TakenOk(f: NodeState, queue: seq<Message>, upto: nat, h: History, f': NodeState)
    requires upto <= |h.writes| && Fed(f, queue, upto, h) && NodeOk(f, h) && queue != []
    requires f'.replica == Receive(f.replica, queue[0]) && f'.synced
    ensures NodeOk(f', h) && Fed(f', queue[1..], upto, h)
    ensures queue[0].BatchMsg? ==> f.synced && f.replica.seqNo < upto && queue[0] == BatchMsg(f.replica.seqNo + 1, h.writes[f.replica.seqNo])
  {
    if queue[0].SnapshotMsg? {
      assert queue[1..] != [] ==> queue[1..][0].BatchMsg?;
    } else {
      BatchesFirst(h, f.replica.seqNo, upto);
      assert queue[1..] == Batches(h, f.replica.seqNo + 1, upto);
      assert queue[1..] != [] ==> queue[1..][0].BatchMsg?;
    }
  }

  /** What the first record of a queue can be. */
  lemma DeliverFacts(s: System, f: nat)
    requires Inv(s) && Enabled(s, Deliver(f))
    ensures var n, t := s.nodes[f], Taken(s, f);
      var q, up := n.link.value.queue, s.nodes[n.link.value.up];
      && NodeOk(t, s.history) && NodeOk(up, s.history) && LinkOk(t, up, s.history)
      && (q[0].BatchMsg? ==> up.synced && n.synced && n.replica.seqNo < |s.history.writes|)
      && (q[0].BatchMsg? ==> n.replica.seqNo < up.replica.seqNo && t.replica.seqNo == n.replica.seqNo + 1)
      && (q[0].BatchMsg? ==> q[0] == BatchMsg(n.replica.seqNo + 1, s.history.writes[n.replica.seqNo]))
  {
    hide TableAt, Batches, TableOf, ApplyOps, Fed;
    assert FollowsOk(s, f);
    var n := s.nodes[f];
    var up := s.nodes[n.link.value.up];
    if up.synced {
      TakenOk(n, n.link.value.queue, up.replica.seqNo, s.history, SyncedTaken(s, f));
    }
  }

  function SyncedTaken(s: System, f: nat): NodeState
    requires Enabled(s, Deliver(f))
  {
    Taken(s, f).(synced := true)
  }

  lemma SnapshotNodes(s: System, f: nat, g: nat)
    requires Inv(s) && TakesSnapshot(s, Deliver(f)) && g < |s.nodes|
    ensures var t := Next(s, Deliver(f));
      && t.history == s.history && |t.nodes| == |s.nodes|
      && t.nodes[g] == (if g == f then Taken(s, f) else s.nodes[g]) && NodeOk(t.nodes[g], s.history)
  {
    hide TableAt, Taken, Receive, Fed;
    DeliverFacts(s, f);
    assert NodeOk(s.nodes[g], s.history);
  }

  /** What f holds once it has taken a snapshot. */
  lemma SnapshotTaken(s: System, f: nat)
    requires TakesSnapshot(s, Deliver(f))
    ensures var l, t := s.nodes[f].link.value, Taken(s, f);
      && t.replica == Replica(TableOf(l.queue[0].pairs), l.queue[0].seqNo) && t.synced == s.nodes[l.up].synced
      && t.link == Some(Link(l.up, l.queue[1..]))
  {
  }

  /** A follower's queue fits the node above it before and after exactly if it is in step. */
  lemma PassedBy(g: NodeState, queue: seq<Message>, up: NodeState, up': NodeState, m: Message, h: History)
    requires g.link.Some? && g.link.value.queue == queue && NodeOk(up, h) && NodeOk(up', h) && LinkOk(g, up, h)
    requires m.SnapshotMsg? && up'.replica == Replica(TableOf(m.pairs), m.seqNo)
    ensures LinkOk(g, up', h) <==>
      if up'.synced && up.synced then m.seqNo == up.replica.seqNo
      else if up'.synced then Pending(queue) && queue[0].seqNo == m.seqNo && TableOf(queue[0].pairs) == TableOf(m.pairs)
      else up.synced ==> Pending(queue)
  {
    hide TableAt, TableOf;
    if up.synced && up'.synced {
      if LinkOk(g, up', h) {
        FedDetermines(g, queue, up.replica.seqNo, up'.replica.seqNo, h);
      }
    } else if up'.synced && queue != [] {
      assert |queue[1..]| == 0;
      assert |Batches(h, m.seqNo, m.seqNo)| == 0;
    }
  }

  lemma FedDetermines(f: NodeState, queue: seq<Message>, a: nat, b: nat, h: History)
    requires a <= |h.writes| && b <= |h.writes| && Fed(f, queue, a, h) && Fed(f, queue, b, h)
    ensures a == b
  {
  }

  lemma OtherFollower(s: System, f: nat, g: nat)
    requires Inv(s) && TakesSnapshot(s, Deliver(f)) && g < |s.nodes| && g != f && NodesOk(Next(s, Deliver(f)))
    ensures FollowsOk(Next(s, Deliver(f)), g) <==> (AttachedTo(s.nodes[g], f) ==> InStep(s, f, g))
  {
    hide LinkOk, NodeOk, Next, TableOf;
    var t := Next(s, Deliver(f));
    SnapshotNodes(s, f, f);
    SnapshotNodes(s, f, g);
    SnapshotTaken(s, f);
    assert FollowsOk(s, g) && NodeOk(s.nodes[f], s.history);
    if AttachedTo(s.nodes[g], f) {
      var m := s.nodes[f].link.value.queue[0];
      PassedBy(s.nodes[g], s.nodes[g].link.value.queue, s.nodes[f], t.nodes[f], m, s.history);
    } else if s.nodes[g].link.Some? {
      SnapshotNodes(s, f, s.nodes[g].link.value.up);
    }
  }

  /** The node itself, also when it follows itself. */
  lemma OwnLink(s: System, f: nat)
    requires Inv(s) && TakesSnapshot(s, Deliver(f)) && NodesOk(Next(s, Deliver(f)))
    ensures FollowsOk(Next(s, Deliver(f)), f) <==> (AttachedTo(s.nodes[f], f) ==> InStep(s, f, f))
  {
    hide Next, TableAt, TableOf;
    var n, t := s.nodes[f], Next(s, Deliver(f));
    var l := n.link.value;
    DeliverFacts(s, f);
    SnapshotNodes(s, f, f);
    SnapshotNodes(s, f, l.up);
    SnapshotTaken(s, f);
    assert FollowsOk(s, f);
    if l.up == f && n.synced {
      assert l.queue[1..] == Batches(s.history, l.queue[0].seqNo, n.replica.seqNo);
    }
  }

  lemma SnapshotExact(s: System, f: nat)
    requires Inv(s) && TakesSnapshot(s, Deliver(f))
    ensures Inv(Next(s, Deliver(f))) <==> Allowed(s, Deliver(f))
  {
    hide NodeOk, FollowsOk, Next, Enabled, InStep, AttachedTo;
    var t := Next(s, Deliver(f));
    LeaderUnmoved(s, f);
    SnapshotNodes(s, f, 0);
    forall g | 0 <= g < |t.nodes|
      ensures NodeOk(t.nodes[g], t.history)
    {
      SnapshotNodes(s, f, g);
    }
    forall g | 0 <= g < |t.nodes|
      ensures FollowsOk(t, g) <==> (AttachedTo(s.nodes[g], f) ==> InStep(s, f, g))
    {
      if g == f {
        OwnLink(s, f);
      } else {
        OtherFollower(s, f, g);
      }
    }
  }

  lemma LeaderUnmoved(s: System, f: nat)
    requires Inv(s) && TakesSnapshot(s, Deliver(f))
    ensures LeaderOk(Next(s, Deliver(f)))
  {
    hide NodeOk, FollowsOk, Taken;
  }

  lemma BatchNodes(s: System, f: nat, g: nat)
    requires Inv(s) && Enabled(s, Deliver(f)) && !TakesSnapshot(s, Deliver(f)) && g < |s.nodes|
    ensures var t, m := Next(s, Deliver(f)), s.nodes[f].link.value.queue[0];
      && t.history == s.history && |t.nodes| == |s.nodes| && !AttachedTo(s.nodes[f], f)
      && t.nodes[g] == if g == f then Taken(s, f) else Forwarded(s.nodes[g], f, m)
  {
    hide Taken, LinkOk, NodeOk;
    DeliverFacts(s, f);
    TakenLink(s, f);
  }

  lemma TakenLink(s: System, f: nat)
    requires Enabled(s, Deliver(f))
    ensures Taken(s, f).link.Some? && Taken(s, f).link.value.up == s.nodes[f].link.value.up
  {
  }

  lemma BatchKeepsNodes(s: System, f: nat, g: nat)
    requires Inv(s) && Enabled(s, Deliver(f)) && !TakesSnapshot(s, Deliver(f)) && g < |s.nodes|
    ensures NodeOk(Next(s, Deliver(f)).nodes[g], s.history)
  {
    hide TableAt, Next, Taken, LinkOk;
    BatchNodes(s, f, g);
    DeliverFacts(s, f);
    assert NodeOk(s.nodes[g], s.history);
  }

  lemma BatchKeepsFollows(s: System, f: nat, g: nat)
    requires Inv(s) && Enabled(s, Deliver(f)) && !TakesSnapshot(s, Deliver(f)) && g < |s.nodes| && NodesOk(Next(s, Deliver(f)))
    ensures FollowsOk(Next(s, Deliver(f)), g)
  {
    hide TableAt, Next, Taken, Fed, Idle;
    var t := Next(s, Deliver(f));
    BatchNodes(s, f, g);
    DeliverFacts(s, f);
    TakenLink(s, f);
    assert FollowsOk(s, g);
    if g == f {
      BatchNodes(s, f, s.nodes[f].link.value.up);
    } else if s.nodes[g].link.Some? {
      var l := s.nodes[g].link.value;
      BatchNodes(s, f, l.up);
      if l.up == f {
        PassOn(s, f, g);
      }
    }
  }

  /** The follower g of a node that takes in a batch gets that batch. */
  lemma PassOn(s: System, f: nat, g: nat)
    requires Inv(s) && Enabled(s, Deliver(f)) && !TakesSnapshot(s, Deliver(f)) && g < |s.nodes|
    requires AttachedTo(s.nodes[g], f)
    ensures var m := s.nodes[f].link.value.queue[0];
      NodeOk(Taken(s, f), s.history) && LinkOk(Forwarded(s.nodes[g], f, m), Taken(s, f), s.history)
  {
    hide TableAt, Receive, Fed, Idle, Batches;
    DeliverFacts(s, f);
    assert FollowsOk(s, g);
    var n := s.nodes[g];
    FedNext(n, n.link.value.queue, s.nodes[f].replica.seqNo, s.history);
    var m := s.nodes[f].link.value.queue[0];
    SameFed(n, Forwarded(n, f, m), n.link.value.queue + [m], s.nodes[f].replica.seqNo + 1, s.history);
  }

  lemma DeliverKeepsInv(s: System, f: nat)
    requires Inv(s) && Allowed(s, Deliver(f))
    ensures Inv(Next(s, Deliver(f)))
  {
    hide NodeOk, FollowsOk, TakesSnapshot;
    if TakesSnapshot(s, Deliver(f)) {
      SnapshotExact(s, f);
    } else {
      var t := Next(s, Deliver(f));
      BatchNodes(s, f, 0);
      hide Next;
      forall g | 0 <= g < |t.nodes|
        ensures NodeOk(t.nodes[g], t.history)
      {
        BatchKeepsNodes(s, f, g);
      }
      forall g | 0 <= g < |t.nodes|
        ensures FollowsOk(t, g)
      {
        BatchKeepsFollows(s, f, g);
      }
      LeaderStays(s, f);
    }
  }

  lemma LeaderStays(s: System, f: nat)
    requires Inv(s) && Enabled(s, Deliver(f)) && !TakesSnapshot(s, Deliver(f))
    ensures LeaderOk(Next(s, Deliver(f)))
  {
    hide Next, NodeOk, FollowsOk, TakesSnapshot;
    BatchNodes(s, f, 0);
  }

  // ---------------------------------------------------------------- runs

  lemma StepKeepsInv(s: System, step: Step)
    requires Inv(s) && Allowed(s, step)
    ensures Inv(Next(s, step))
  {
    hide Inv;
    match step
    case Write(ops) => WriteKeepsInv(s, ops);
    case Subscribe(f, up, pairs) => SubscribeKeepsInv(s, f, up, pairs);
    case Disconnect(f) => LinkChangeKeepsInv(s, f, None);
    case Deliver(f) => DeliverKeepsInv(s, f);
  }

  lemma {:induction false} RunKeepsInv(s: System, steps: seq<Step>, t: System)
    requires Inv(s) && Runs(s, steps, t)
    ensures Inv(t)
    decreases |steps|
  {
    hide Inv, TakesSnapshot, Unfollowed, Next;
    if steps != [] {
      StepKeepsInv(s, steps[0]);
      RunKeepsInv(Next(s, steps[0]), steps[1..], t);
    }
  }

  /**
   After any interleaving, a synced node f holds the leader's table at its own number; what
   is queued for it brings it to its upstream node's state, step by step.
   */
  lemma FollowerExact(s: System, steps: seq<Step>, t: System, f: nat)
    requires Initial(s) && Runs(s, steps, t) && f < |t.nodes| && t.nodes[f].synced
    ensures var n := t.nodes[f].replica; n.seqNo <= |t.history.writes| && n.table == TableAt(t.history, n.seqNo)
  {
    hide Runs, TableAt;
    InitialInv(s);
    RunKeepsInv(s, steps, t);
    assert NodeOk(t.nodes[f], t.history);
  }

  lemma DrainReaches(s: System, steps: seq<Step>, t: System, f: nat)
    requires Initial(s) && Runs(s, steps, t) && f < |t.nodes| && t.nodes[f].link.Some?
    ensures var l := t.nodes[f].link.value;
      l.up < |t.nodes| && (t.nodes[l.up].synced ==> ReceiveAll(t.nodes[f].replica, l.queue) == t.nodes[l.up].replica)
  {
    hide Runs, TableAt;
    InitialInv(s);
    RunKeepsInv(s, steps, t);
    assert FollowsOk(t, f);
    var n, l := t.nodes[f], t.nodes[f].link.value;
    var up := t.nodes[l.up];
    if up.synced {
      QueueReaches(n, l.queue, up.replica.seqNo, t.history);
    }
  }

  lemma QueueReaches(n: NodeState, queue: seq<Message>, upto: nat, h: History)
    requires upto <= |h.writes| && NodeOk(n, h) && Fed(n, queue, upto, h)
    ensures ReceiveAll(n.replica, queue) == Replica(TableAt(h, upto), upto)
  {
    hide TableAt, TableOf, Batches;
    if queue != [] && queue[0].SnapshotMsg? {
      BatchesReach(h, queue[0].seqNo, upto);
    } else {
      BatchesReach(h, n.replica.seqNo, upto);
    }
  }

  /** Every link from f up to the leader is open and empty. */
  ghost predicate Drained(s: System, f: nat, depth: nat)
    decreases depth
  {
    f < |s.nodes| && (f == 0 || (depth > 0 && s.nodes[f].link.Some? && s.nodes[f].link.value.queue == [] && Drained(s, s.nodes[f].link.value.up, depth - 1)))
  }

  /** Once its chain is drained, a replica is equal to the leader. */
  lemma {:induction false} DrainedChain(s: System, f: nat, depth: nat)
    requires Inv(s) && Drained(s, f, depth)
    ensures s.nodes[f].synced && s.nodes[f].replica == s.nodes[0].replica
    decreases depth
  {
    hide Batches;
    assert NodeOk(s.nodes[0], s.history);
    if f != 0 {
      DrainedChain(s, s.nodes[f].link.value.up, depth - 1);
      assert FollowsOk(s, f) && NodeOk(s.nodes[f], s.history);
    }
  }

  lemma DrainedEqualsLeader(s: System, steps: seq<Step>, t: System, f: nat, depth: nat)
    requires Initial(s) && Runs(s, steps, t) && Drained(t, f, depth)
    ensures t.nodes[f].replica == t.nodes[0].replica && t.nodes[0].replica.seqNo == |t.history.writes|
  {
    hide Runs, Drained;
    InitialInv(s);
    RunKeepsInv(s, steps, t);
    DrainedChain(t, f, depth);
  }

  // ---------------------------------------------------------------- snapshots under followers

  /**
   Main result: from any state in order, a step of the code keeps it so exactly if it is no
   snapshot taken out of step with the followers of the node that takes it.
   */
  lemma StepExact(s: System, step: Step)
    requires Inv(s) && Enabled(s, step)
    ensures Inv(Next(s, step)) <==> Allowed(s, step)
  {
    hide Inv, Next;
    if TakesSnapshot(s, step) {
      SnapshotExact(s, step.node);
    } else {
      StepKeepsInv(s, step);
    }
  }

  /** A node without followers can take any snapshot. */
  lemma UnfollowedAllowed(s: System, step: Step)
    requires Enabled(s, step) && (TakesSnapshot(s, step) ==> Unfollowed(s, step.node))
    ensures Allowed(s, step)
  {
    hide InStep;
  }

  /**
   Whether a follower's queue still leads to the node above it once that node has taken a
   snapshot: the snapshot must leave the node's table as it was, or, if the node had nothing
   of the leader, bring the table that the follower has or is about to take.
   */
  lemma ResnapshotExact(s: System, f: nat, g: nat)
    requires Inv(s) && TakesSnapshot(s, Deliver(f)) && g < |s.nodes| && g != f && AttachedTo(s.nodes[g], f)
    ensures var t, n, queue := Next(s, Deliver(f)), s.nodes[g], s.nodes[g].link.value.queue;
      ReceiveAll(t.nodes[g].replica, t.nodes[g].link.value.queue).table == t.nodes[f].replica.table
      <==> TableOf(s.nodes[f].link.value.queue[0].pairs)
           == if s.nodes[f].synced then s.nodes[f].replica.table else if Pending(queue) then TableOf(queue[0].pairs) else n.replica.table
  {
    hide TableOf, Next, TableAt;
    var n, queue := s.nodes[g], s.nodes[g].link.value.queue;
    SnapshotNodes(s, f, f);
    SnapshotNodes(s, f, g);
    SnapshotTaken(s, f);
    assert FollowsOk(s, g) && NodeOk(n, s.history) && NodeOk(s.nodes[f], s.history);
    if s.nodes[f].synced {
      QueueReaches(n, queue, s.nodes[f].replica.seqNo, s.history);
    } else if queue != [] {
      assert queue[1..] == [];
      assert ReceiveAll(n.replica, queue) == ReceiveAll(Receive(n.replica, queue[0]), []);
    }
  }

  ghost predicate EnabledRun(s: System, steps: seq<Step>, t: System)
    decreases |steps|
  {
    if steps == [] then s == t else Enabled(s, steps[0]) && EnabledRun(Next(s, steps[0]), steps[1..], t)
  }

  lemma RunStep(s: System, step: Step, rest: seq<Step>, t: System)
    requires Enabled(s, step) && EnabledRun(Next(s, step), rest, t)
    ensures EnabledRun(s, [step] + rest, t)
  {
    hide Next, Enabled;
    assert ([step] + rest)[1..] == rest;
  }

  lemma {:induction false} AllowedThenEnabled(s: System, first: seq<Step>, u: System, second: seq<Step>, t: System)
    requires Runs(s, first, u) && EnabledRun(u, second, t)
    ensures EnabledRun(s, first + second, t)
    decreases |first|
  {
    hide Next, Enabled, TakesSnapshot, Unfollowed;
    if first == [] {
      assert first + second == second;
    } else {
      AllowedThenEnabled(Next(s, first[0]), first[1..], u, second, t);
      assert (first + second)[1..] == first[1..] + second;
    }
  }

  /** An empty leader and two replicas that have not subscribed yet. */
  function Unlinked(): System {
    var r := NodeState(Replica(map[], 0), false, None);
    System([r.(synced := true), r, r], History(map[], []))
  }

  /** The middle node follows the leader, the last one follows the middle, then the middle loses its connection. */
  function Severing(): seq<Step> {
    [Subscribe(1, 0, []), Deliver(1), Subscribe(2, 1, []), Deliver(2), Disconnect(1)]
  }

  lemma AllowedStep(s: System, step: Step, rest: seq<Step>, t: System)
    requires Allowed(s, step) && Runs(Next(s, step), rest, t)
    ensures Runs(s, [step] + rest, t)
  {
    hide Next, Allowed;
    assert ([step] + rest)[1..] == rest;
  }

  /** Leader 0, middle 1 and follower 2, all synced; the middle has lost its connection. */
  function Severed(): System {
    System([NodeState(Replica(map[], 0), true, None),
            NodeState(Replica(map[], 0), true, None),
            NodeState(Replica(map[], 0), true, Some(Link(1, [])))], History(map[], []))
  }

  /** The leader has one pair; the middle is back and drained; the follower hears nothing. */
  function Stale(key: Bytes, value: Bytes): System {
    var h := History(map[], [[Op(OP_PUT, key, value)]]);
    System([NodeState(Replica(map[key := value], 1), true, None),
            NodeState(Replica(map[key := value], 1), true, Some(Link(0, []))),
            NodeState(Replica(map[], 0), true, Some(Link(1, [])))], h)
  }

  lemma OnePair(key: Bytes, value: Bytes)
    ensures TableOf([Pair(key, value)]) == map[key := value]
    ensures ApplyOps(map[], [Op(OP_PUT, key, value)]) == map[key := value]
  {
    var op := Op(OP_PUT, key, value);
    assert [op][..0] == [] && [Pair(key, value)][..0] == [];
    assert ApplyOps(map[], []) == map[] && TableOf([]) == map[];
  }

  /** A node k that has taken the empty snapshot of its upstream node. */
  lemma EmptySnapshotTaken(s: System, f: nat, up: nat)
    requires 0 < f < |s.nodes| && up < |s.nodes| && up != f && s.nodes[up].replica == Replica(map[], 0) && s.nodes[up].synced && Unfollowed(s, f)
    ensures Allowed(s, Subscribe(f, up, [])) && Allowed(Next(s, Subscribe(f, up, [])), Deliver(f))
    ensures Next(Next(s, Subscribe(f, up, [])), Deliver(f))
         == s.(nodes := s.nodes[f := NodeState(Replica(map[], 0), true, Some(Link(up, [])))])
  {
    assert TableOf([]) == map[];
    hide TableOf;
    var t := Next(s, Subscribe(f, up, []));
    assert [SnapshotMsg(0, [])][1..] == [];
    forall g | 0 <= g < |t.nodes|
      ensures !AttachedTo(t.nodes[g], f)
    {
      assert !AttachedTo(s.nodes[g], f);
    }
    assert Next(t, Deliver(f)).nodes == s.nodes[f := NodeState(Replica(map[], 0), true, Some(Link(up, [])))];
  }

  lemma SeveredReached()
    ensures Initial(Unlinked()) && Runs(Unlinked(), Severing(), Severed())
  {
    var s0 := Unlinked();
    var s1 := Next(s0, Subscribe(1, 0, []));
    EmptySnapshotTaken(s0, 1, 0);
    var s2 := Next(s1, Deliver(1));
    assert Unfollowed(s2, 2);
    var s3 := Next(s2, Subscribe(2, 1, []));
    EmptySnapshotTaken(s2, 2, 1);
    var s4 := Next(s3, Deliver(2));
    assert Allowed(s4, Disconnect(1)) && Next(s4, Disconnect(1)).nodes == Severed().nodes;
    hide Next, Allowed, Initial;
    AllowedStep(s4, Disconnect(1), [], Severed());
    AllowedStep(s3, Deliver(2), [Disconnect(1)], Severed());
    AllowedStep(s2, Subscribe(2, 1, []), [Deliver(2)] + [Disconnect(1)], Severed());
    AllowedStep(s1, Deliver(1), [Subscribe(2, 1, [])] + ([Deliver(2)] + [Disconnect(1)]), Severed());
    AllowedStep(s0, Subscribe(1, 0, []), [Deliver(1)] + ([Subscribe(2, 1, [])] + ([Deliver(2)] + [Disconnect(1)])), Severed());
    assert [Subscribe(1, 0, [])] + ([Deliver(1)] + ([Subscribe(2, 1, [])] + ([Deliver(2)] + [Disconnect(1)]))) == Severing();
  }

  function Reconnecting(key: Bytes, value: Bytes): seq<Step> {
    [Write([Op(OP_PUT, key, value)]), Subscribe(1, 0, [Pair(key, value)]), Deliver(1)]
  }

  /** From the start: a middle node that reconnects with a follower of its own leaves that follower behind. */
  lemma FollowerLeftBehind(key: Bytes, value: Bytes)
    ensures Initial(Unlinked()) && EnabledRun(Unlinked(), Severing() + Reconnecting(key, value), Stale(key, value))
    ensures Drained(Stale(key, value), 2, 2) && Stale(key, value).nodes[2].replica != Stale(key, value).nodes[0].replica
  {
    SeveredReached();
    SeveredFallsBehind(key, value);
    hide Initial;
    AllowedThenEnabled(Unlinked(), Severing(), Severed(), Reconnecting(key, value), Stale(key, value));
  }

  lemma SeveredFallsBehind(key: Bytes, value: Bytes)
    ensures EnabledRun(Severed(), Reconnecting(key, value), Stale(key, value))
    ensures Drained(Stale(key, value), 2, 2) && Stale(key, value).nodes[2].replica != Stale(key, value).nodes[0].replica
  {
    OnePair(key, value);
    hide TableOf, ApplyOps;
    var ops := [Op(OP_PUT, key, value)];
    var pairs := [Pair(key, value)];
    var s1 := Next(Severed(), Write(ops));
    assert s1.nodes == [NodeState(Replica(map[key := value], 1), true, None), Severed().nodes[1], Severed().nodes[2]];
    var s2 := Next(s1, Subscribe(1, 0, pairs));
    var s3 := Next(s2, Deliver(1));
    assert [SnapshotMsg(1, pairs)][1..] == [];
    assert s3.nodes == Stale(key, value).nodes;
    assert s3.history.writes == Stale(key, value).history.writes;
    hide Next, Enabled;
    RunStep(s2, Deliver(1), [], s3);
    RunStep(s1, Subscribe(1, 0, pairs), [Deliver(1)] + [], s3);
    RunStep(Severed(), Write(ops), [Subscribe(1, 0, pairs)] + ([Deliver(1)] + []), s3);
    assert [Write(ops)] + ([Subscribe(1, 0, pairs)] + ([Deliver(1)] + [])) == [Write(ops), Subscribe(1, 0, pairs), Deliver(1)];
    var m := Stale(key, value);
    assert Drained(m, 0, 0) && Drained(m, 1, 1);
  }

  /** The last node subscribes to the middle one before that has reached the leader. */
  function StartingEarly(key: Bytes, value: Bytes): seq<Step> {
    [Subscribe(2, 1, []), Deliver(2), Write([Op(OP_PUT, key, value)]), Subscribe(1, 0, [Pair(key, value)]), Deliver(1)]
  }

  /** The leader has one pair, and so has the middle node; the early follower hears nothing. */
  function StaleEarly(key: Bytes, value: Bytes): System {
    var stale := Stale(key, value);
    stale.(nodes := stale.nodes[2 := stale.nodes[2].(synced := false)])
  }

  /** Node 2 holds the empty snapshot of node 1, which has not heard of the leader. */
  function Early(): System {
    var s := Unlinked();
    s.(nodes := s.nodes[2 := s.nodes[2].(link := Some(Link(1, [])))])
  }

  lemma EarlyReached()
    ensures Enabled(Unlinked(), Subscribe(2, 1, [])) && Enabled(Next(Unlinked(), Subscribe(2, 1, [])), Deliver(2))
    ensures Next(Next(Unlinked(), Subscribe(2, 1, [])), Deliver(2)) == Early()
  {
    assert TableOf([]) == map[];
    hide TableOf;
    assert [SnapshotMsg(0, [])][1..] == [];
    assert Next(Next(Unlinked(), Subscribe(2, 1, [])), Deliver(2)).nodes == Early().nodes;
  }

  lemma EarlyFallsBehind(key: Bytes, value: Bytes)
    ensures EnabledRun(Early(), Reconnecting(key, value), StaleEarly(key, value))
  {
    OnePair(key, value);
    hide TableOf, ApplyOps;
    var ops := [Op(OP_PUT, key, value)];
    var pairs := [Pair(key, value)];
    var s1 := Next(Early(), Write(ops));
    assert s1.nodes == [NodeState(Replica(map[key := value], 1), true, None), Early().nodes[1], Early().nodes[2]];
    var s2 := Next(s1, Subscribe(1, 0, pairs));
    var s3 := Next(s2, Deliver(1));
    assert [SnapshotMsg(1, pairs)][1..] == [];
    assert s3.nodes == StaleEarly(key, value).nodes;
    assert s3.history.writes == StaleEarly(key, value).history.writes;
    hide Next, Enabled;
    RunStep(s2, Deliver(1), [], s3);
    RunStep(s1, Subscribe(1, 0, pairs), [Deliver(1)] + [], s3);
    RunStep(Early(), Write(ops), [Subscribe(1, 0, pairs)] + ([Deliver(1)] + []), s3);
    assert [Write(ops)] + ([Subscribe(1, 0, pairs)] + ([Deliver(1)] + [])) == Reconnecting(key, value);
  }

  /** No reconnection is needed: a follower that starts before its upstream node stays behind. */
  lemma EarlyFollowerLeftBehind(key: Bytes, value: Bytes)
    ensures Initial(Unlinked()) && EnabledRun(Unlinked(), StartingEarly(key, value), StaleEarly(key, value))
    ensures Drained(StaleEarly(key, value), 2, 2)
    ensures StaleEarly(key, value).nodes[2].replica.table != StaleEarly(key, value).nodes[0].replica.table
  {
    EarlyReached();
    EarlyFallsBehind(key, value);
    var m := StaleEarly(key, value);
    assert key in m.nodes[0].replica.table && key !in m.nodes[2].replica.table;
    assert Drained(m, 0, 0) && Drained(m, 1, 1);
    hide Next, Enabled;
    var s1 := Next(Unlinked(), Subscribe(2, 1, []));
    RunStep(s1, Deliver(2), Reconnecting(key, value), m);
    RunStep(Unlinked(), Subscribe(2, 1, []), [Deliver(2)] + Reconnecting(key, value), m);
    assert [Subscribe(2, 1, [])] + ([Deliver(2)] + Reconnecting(key, value)) == StartingEarly(key, value);
  }
}
