/**
 Transactions: writes are buffered over the backend until COMMIT. A committed transaction
 equals its statements run one by one, a rolled back one leaves no trace, and every state
 reachable by statements, transactions, reopening and key rotation keeps the invariant.
 */
module Transactions {
  import opened Wrappers
  import opened EngineData
  import Predicates
  import opened Tables
  import opened RowChanges
  import opened Queries
  import opened AuditChain
  import opened Database
  import opened PlanKeys
  import opened Rotation
  import opened Plaintexts

  /** The store and the two audit heads an engine keeps. */
  datatype State = State(backend: View, overlay: Option<Batch>, head: Head, saved: Option<Head>)

  /** What every read sees: the overlay on top of the backend. */
  function Merged(st: State): View {
    if st.overlay.Some? then Apply(st.overlay.value, st.backend) else st.backend
  }

  /** Writes go to the overlay while a transaction is open. */
  function Write(st: State, c: Commit): State {
    if st.overlay.Some? then st.(overlay := Some(st.overlay.value + c.writes), head := c.head)
    else st.(backend := Apply(c.writes, st.backend), head := c.head)
  }

  lemma WriteMerges(st: State, c: Commit)
    ensures Merged(Write(st, c)) == Apply(c.writes, Merged(st))
    ensures Write(st, c).overlay.Some? == st.overlay.Some? && Write(st, c).saved == st.saved
  {
    if st.overlay.Some? {
      ApplyTwice(st.overlay.value, c.writes, st.backend);
    }
  }

  function StateAfter(st: State, master: nat, env: Env, s: Statement): State {
    match s
    case BeginStmt => if st.overlay.Some? then st else st.(overlay := Some(map[]), saved := Some(st.head))
    case CommitStmt => if st.overlay.None? then st else State(Merged(st), None, st.head, None)
    case RollbackStmt =>
      if st.overlay.None? then st
      else State(st.backend, None, if st.saved.Some? then st.saved.value else st.head, None)
    case _ => Write(st, EffectOf(Merged(st), st.head, master, env, s).commit)
  }

  function ResultOf(st: State, master: nat, env: Env, s: Statement): Result<Outcome, Error> {
    match s
    case BeginStmt => if st.overlay.Some? then Failure(SchemaError) else Success(Begun)
    case CommitStmt => if st.overlay.None? then Failure(SchemaError) else Success(Committed)
    case RollbackStmt => if st.overlay.None? then Failure(SchemaError) else Success(RolledBack)
    case _ => EffectOf(Merged(st), st.head, master, env, s).result
  }

  /** One statement with the clock and nonces it gets. */
  datatype Call = Call(env: Env, s: Statement)

  function RunState(st: State, master: nat, calls: seq<Call>): State
    decreases |calls|
  {
    if calls == [] then st else RunState(StateAfter(st, master, calls[0].env, calls[0].s), master, calls[1..])
  }

  function RunResults(st: State, master: nat, calls: seq<Call>): seq<Result<Outcome, Error>>
    decreases |calls|
  {
    if calls == [] then []
    else [ResultOf(st, master, calls[0].env, calls[0].s)] + RunResults(StateAfter(st, master, calls[0].env, calls[0].s), master, calls[1..])
  }

  lemma {:induction false} RunConcat(st: State, master: nat, a: seq<Call>, b: seq<Call>)
    ensures RunState(st, master, a + b) == RunState(RunState(st, master, a), master, b)
    ensures RunResults(st, master, a + b) == RunResults(st, master, a) + RunResults(RunState(st, master, a), master, b)
    decreases |a|
  {
    hide StateAfter, ResultOf;
    if a == [] {
      assert a + b == b;
    } else {
      assert (a + b)[1..] == a[1..] + b;
      RunConcat(StateAfter(st, master, a[0].env, a[0].s), master, a[1..], b);
    }
  }

  // ---------------------------------------------------------------- COMMIT

  ghost predicate Plain(calls: seq<Call>) {
    forall i :: 0 <= i < |calls| ==> !IsControl(calls[i].s)
  }

  /** Two states that look the same to statements. */
  ghost predicate LooksLike(a: State, b: State) {
    Merged(a) == Merged(b) && a.head == b.head
  }

  /** Buffered or not, statements answer the same and lead to states that look the same. */
  lemma {:induction false} PlainRunsAgree(a: State, b: State, master: nat, calls: seq<Call>)
    requires LooksLike(a, b) && Plain(calls)
    ensures RunResults(a, master, calls) == RunResults(b, master, calls)
    ensures LooksLike(RunState(a, master, calls), RunState(b, master, calls))
    ensures RunState(a, master, calls).overlay.Some? == a.overlay.Some? && RunState(a, master, calls).saved == a.saved
    decreases |calls|
  {
    if calls != [] {
      var env, s := calls[0].env, calls[0].s;
      assert !IsControl(s);
      hide EffectOf, Merged;
      WriteMerges(a, EffectOf(Merged(a), a.head, master, env, s).commit);
      WriteMerges(b, EffectOf(Merged(b), b.head, master, env, s).commit);
      PlainRunsAgree(StateAfter(a, master, env, s), StateAfter(b, master, env, s), master, calls[1..]);
    }
  }

  /** Outside a transaction the overlay stays closed. */
  lemma PlainRunKeepsClosed(st: State, master: nat, calls: seq<Call>)
    requires Plain(calls)
    ensures RunState(st, master, calls).overlay.Some? == st.overlay.Some? && RunState(st, master, calls).saved == st.saved
  {
    PlainRunsAgree(st, st, master, calls);
  }

  /**
   Main result: BEGIN, any statements, COMMIT gives the same answers, the same store and
   the same audit head as the statements without a transaction.
   */
  lemma CommittedEqualsPlain(st: State, master: nat, begin: Call, calls: seq<Call>, commit: Call)
    requires st.overlay.None? && st.saved.None? && Plain(calls) && begin.s == BeginStmt && commit.s == CommitStmt
    ensures RunState(st, master, [begin] + calls + [commit]) == RunState(st, master, calls)
    ensures RunResults(st, master, [begin] + calls + [commit])
         == [Success(Begun)] + RunResults(st, master, calls) + [Success(Committed)]
  {
    var inside := StateAfter(st, master, begin.env, begin.s);
    ApplyNothing(st.backend);
    assert LooksLike(inside, st);
    PlainRunsAgree(inside, st, master, calls);
    PlainRunKeepsClosed(st, master, calls);
    var busy := RunState(inside, master, calls);
    RunOne(st, master, begin);
    RunOne(busy, master, commit);
    RunConcat(st, master, [begin], calls);
    RunConcat(st, master, [begin] + calls, [commit]);
  }

  lemma RunOne(st: State, master: nat, c: Call)
    ensures RunState(st, master, [c]) == StateAfter(st, master, c.env, c.s)
    ensures RunResults(st, master, [c]) == [ResultOf(st, master, c.env, c.s)]
  {
  }

  // ---------------------------------------------------------------- ROLLBACK

  /** While a transaction is open, the backend and the saved head stay as they were. */
  lemma {:induction false} OpenRunKeepsBackend(st: State, master: nat, calls: seq<Call>)
    requires st.overlay.Some? && Plain(calls)
    ensures RunState(st, master, calls).backend == st.backend && RunState(st, master, calls).saved == st.saved
    ensures RunState(st, master, calls).overlay.Some?
    decreases |calls|
  {
    if calls != [] {
      assert !IsControl(calls[0].s);
      hide EffectOf;
      OpenRunKeepsBackend(StateAfter(st, master, calls[0].env, calls[0].s), master, calls[1..]);
    }
  }

  /** Main result: ROLLBACK restores exactly the store and the head at BEGIN. */
  lemma RollbackRestores(st: State, master: nat, begin: Call, calls: seq<Call>, rollback: Call)
    requires st.overlay.None? && st.saved.None? && Plain(calls) && begin.s == BeginStmt && rollback.s == RollbackStmt
    ensures RunState(st, master, [begin] + calls + [rollback]) == st
  {
    var inside := StateAfter(st, master, begin.env, begin.s);
    OpenRunKeepsBackend(inside, master, calls);
    RunOne(st, master, begin);
    RunOne(RunState(inside, master, calls), master, rollback);
    RunConcat(st, master, [begin], calls);
    RunConcat(st, master, [begin] + calls, [rollback]);
  }

  // ---------------------------------------------------------------- reachable states

  /** The head a reopened engine reads from its store. */
  function StoredHead(view: View, master: nat): Result<Head, Error> {
    var p :- Get(view, AuditCipher(master), AuditHead);
    match p
    case None => Success(GENESIS)
    case Some(HeadPlain(h)) => Success(h)
    case _ => Failure(CorruptError)
  }

  /** Closing and reopening: buffered writes are lost, the head is read back. */
  function Reopened(st: State, master: nat): State {
    var h := StoredHead(st.backend, master);
    State(st.backend, None, if h.Success? then h.value else GENESIS, None)
  }

  /** The state, its master key, and the histories of its backend and of what its reads see. */
  datatype World = World(st: State, master: nat, stored: seq<AuditEntry>, seen: seq<AuditEntry>)

  /** The log of what reads see, and the log of the backend while a transaction is open. */
  ghost predicate WorldLog(w: World) {
    && LogInv(Merged(w.st), w.master, w.st.head, w.seen)
    && (if w.st.overlay.Some? then
          w.st.saved == Some(HeadOf(w.stored)) && LogInv(w.st.backend, w.master, HeadOf(w.stored), w.stored) && w.stored <= w.seen
        else w.st.saved == None && w.stored == w.seen)
  }

  ghost predicate WorldTables(w: World) {
    TablesInv(Merged(w.st), w.master) && (w.st.overlay.Some? ==> TablesInv(w.st.backend, w.master))
  }

  ghost predicate WorldInv(w: World) {
    WorldLog(w) && WorldTables(w)
  }

  /** A rotation names the new master and the order in which the tables are rebuilt. */
  datatype Action = Execute(env: Env, s: Statement) | Reopen | RotateKeys(target: nat, names: seq<string>, env: Env)

  /** Rotation rebuilds every table once; the order is its own. */
  ghost function Act(w: World, a: Action): World {
    match a
    case Reopen => World(Reopened(w.st, w.master), w.master, w.stored, w.stored)
    case RotateKeys(target, names, env) => if Lists(names, Merged(w.st), w.master) then Turn(w, target, names, env) else w
    case Execute(env, s) =>
      var st := StateAfter(w.st, w.master, env, s);
      if s.CommitStmt? then World(st, w.master, w.seen, w.seen)
      else if s.RollbackStmt? then World(st, w.master, w.stored, w.stored)
      else if s.BeginStmt? then World(st, w.master, w.stored, w.seen)
      else
        var seen := HistoryAfter(w.seen, Merged(w.st), w.st.head, w.master, env, s);
        World(st, w.master, if w.st.overlay.Some? then w.stored else seen, seen)
  }

  /** Rotation reads through the overlay, so it stores what an open transaction has buffered. */
  function StateTurned(st: State, master: nat, target: nat, names: seq<string>, env: Env): Result<State, Error> {
    var t :- RotateTo(Merged(st), st.head, master, target, names, env);
    Success(Reopened(State(t.view, None, t.head, None), target))
  }

  function Turn(w: World, target: nat, names: seq<string>, env: Env): World {
    match StateTurned(w.st, w.master, target, names, env)
    case Failure(_) => w
    case Success(st) =>
      var entries := w.seen + [RotationEntry(w.st.head, env)];
      World(st, target, entries, entries)
  }

  /** A successful UPDATE flips no zero of an indexed column. */
  ghost predicate SafeAction(w: World, a: Action) {
    a.Execute? && Succeeds(Merged(w.st), w.master, a.env, a.s) ==> SignSafe(Merged(w.st), w.master, a.s)
  }

  lemma StoredHeadRead(view: View, master: nat, head: Head, entries: seq<AuditEntry>)
    requires AuditInv(view, master, head, entries)
    ensures StoredHead(view, master) == Success(head)
  {
  }

  lemma HistoryGrows(entries: seq<AuditEntry>, view: View, head: Head, master: nat, env: Env, s: Statement)
    requires !IsControl(s)
    ensures entries <= HistoryAfter(entries, view, head, master, env, s)
  {
    hide PlanOf;
  }

  // ---------------------------------------------------------------- every action keeps the log

  lemma ReopenKeepsLog(w: World)
    requires WorldLog(w)
    ensures WorldLog(Act(w, Reopen))
  {
    hide LogInv, EffectOf, HistoryAfter, Apply, StateAfter, Turn, Lists;
    var head := if w.st.overlay.Some? then HeadOf(w.stored) else w.st.head;
    LogParts(w.st.backend, w.master, head, w.stored);
    StoredHeadRead(w.st.backend, w.master, head, w.stored);
  }

  lemma ControlKeepsLog(w: World, env: Env, s: Statement)
    requires WorldLog(w) && IsControl(s)
    ensures WorldLog(Act(w, Execute(env, s)))
  {
    hide LogInv, EffectOf, HistoryAfter, Apply, HeadOf, Turn, Lists;
    LogParts(Merged(w.st), w.master, w.st.head, w.seen);
    ApplyNothing(w.st.backend);
  }

  /** What an ordinary statement does to the world. */
  lemma PlainAct(w: World, env: Env, s: Statement)
    requires !IsControl(s)
    ensures var after := Act(w, Execute(env, s));
      && (Merged(after.st), after.st.head) == After(Merged(w.st), w.st.head, w.master, env, s)
      && after.master == w.master && after.seen == HistoryAfter(w.seen, Merged(w.st), w.st.head, w.master, env, s)
      && after.st.overlay.Some? == w.st.overlay.Some? && after.st.saved == w.st.saved
      && after.stored == (if w.st.overlay.Some? then w.stored else after.seen)
      && (w.st.overlay.Some? ==> after.st.backend == w.st.backend)
  {
    var c := EffectOf(Merged(w.st), w.st.head, w.master, env, s).commit;
    assert StateAfter(w.st, w.master, env, s) == Write(w.st, c);
    hide EffectOf, HistoryAfter, Apply, Merged, Turn, Lists;
    WriteMerges(w.st, c);
  }

  lemma PlainKeepsLog(w: World, env: Env, s: Statement)
    requires WorldLog(w) && !IsControl(s)
    ensures WorldLog(Act(w, Execute(env, s)))
  {
    hide LogInv, HistoryAfter, After, Merged, Act;
    PlainAct(w, env, s);
    StatementKeepsLog(Merged(w.st), w.master, w.st.head, w.seen, env, s);
    HistoryGrows(w.seen, Merged(w.st), w.st.head, w.master, env, s);
  }

  lemma TurnShape(w: World, target: nat, names: seq<string>, env: Env)
    requires Lists(names, Merged(w.st), w.master) && RotateTo(Merged(w.st), w.st.head, w.master, target, names, env).Success?
    requires var t, entries := RotateTo(Merged(w.st), w.st.head, w.master, target, names, env).value, w.seen + [RotationEntry(w.st.head, env)];
      AuditInv(t.view, target, t.head, entries)
    ensures var t := RotateTo(Merged(w.st), w.st.head, w.master, target, names, env).value;
      var entries := w.seen + [RotationEntry(w.st.head, env)];
      Act(w, RotateKeys(target, names, env)) == World(State(t.view, None, t.head, None), target, entries, entries)
  {
    hide RotateTo, RotationEntry, Merged, Lists, AuditInv, StoredHead;
    var t, entries := RotateTo(Merged(w.st), w.st.head, w.master, target, names, env).value, w.seen + [RotationEntry(w.st.head, env)];
    StoredHeadRead(t.view, target, t.head, entries);
  }

  lemma RotationFails(w: World, target: nat, names: seq<string>, env: Env)
    requires !Lists(names, Merged(w.st), w.master) || RotateTo(Merged(w.st), w.st.head, w.master, target, names, env).Failure?
    ensures Act(w, RotateKeys(target, names, env)) == w
  {
    hide RotateTo, Merged, Lists;
  }

  lemma RotationKeepsWorldLog(w: World, target: nat, names: seq<string>, env: Env)
    requires WorldLog(w)
    ensures WorldLog(Act(w, RotateKeys(target, names, env)))
  {
    hide LogInv, RotateTo, RotationEntry, Merged, Lists, AuditInv, Act, SamePlain;
    if Lists(names, Merged(w.st), w.master) && RotateTo(Merged(w.st), w.st.head, w.master, target, names, env).Success? {
      RotationKeepsLog(Merged(w.st), w.st.head, w.master, w.seen, target, names, env);
      var t, entries := RotateTo(Merged(w.st), w.st.head, w.master, target, names, env).value, w.seen + [RotationEntry(w.st.head, env)];
      LogParts(t.view, target, t.head, entries);
      TurnShape(w, target, names, env);
      ClosedMerges(t.view, t.head);
    } else {
      RotationFails(w, target, names, env);
    }
  }

  lemma ClosedMerges(view: View, head: Head)
    ensures Merged(State(view, None, head, None)) == view
  {
  }

  lemma ActKeepsLog(w: World, a: Action)
    requires WorldLog(w)
    ensures WorldLog(Act(w, a))
  {
    hide WorldLog, Act;
    match a
    case Reopen => ReopenKeepsLog(w);
    case RotateKeys(target, names, env) => RotationKeepsWorldLog(w, target, names, env);
    case Execute(env, s) =>
      if IsControl(s) {
        ControlKeepsLog(w, env, s);
      } else {
        PlainKeepsLog(w, env, s);
      }
  }

  // ---------------------------------------------------------------- safe actions keep the tables

  lemma SeenStore(w: World)
    requires WorldInv(w)
    ensures StoreInv(Merged(w.st), w.master, w.st.head, w.seen)
  {
    hide LogInv, TablesInv;
  }

  lemma OtherKeepsTables(w: World, a: Action)
    requires WorldTables(w) && (a.Reopen? || (a.Execute? && IsControl(a.s)))
    ensures WorldTables(Act(w, a))
  {
    hide TablesInv, EffectOf, HistoryAfter, Apply, HeadOf, StoredHead, Turn, Lists;
    ApplyNothing(w.st.backend);
  }

  lemma PlainKeepsTables(w: World, env: Env, s: Statement)
    requires WorldInv(w) && !IsControl(s) && SafeAction(w, Execute(env, s))
    ensures WorldTables(Act(w, Execute(env, s)))
  {
    hide WorldInv, LogInv, TablesInv, HistoryAfter, After, Merged, Act, Succeeds, SignSafe;
    SeenStore(w);
    PlainAct(w, env, s);
    StatementKeepsStore(Merged(w.st), w.master, w.st.head, w.seen, env, s);
    TablesBelow(w);
  }

  lemma TablesBelow(w: World)
    requires WorldInv(w)
    ensures w.st.overlay.Some? ==> TablesInv(w.st.backend, w.master)
  {
    hide LogInv, TablesInv;
  }

  lemma ClosedWorld(view: View, head: Head, master: nat, entries: seq<AuditEntry>)
    requires StoreInv(view, master, head, entries)
    ensures WorldInv(World(State(view, None, head, None), master, entries, entries)) && Merged(State(view, None, head, None)) == view
  {
    hide LogInv, TablesInv;
  }

  /**
   Main result: in every world that keeps the invariant, also inside a transaction,
   rotation moves everything that reads see to the new master and appends one entry.
   */
  lemma RotationKeepsWorld(w: World, target: nat, names: seq<string>, env: Env)
    requires WorldInv(w) && Lists(names, Merged(w.st), w.master)
    ensures var after := Act(w, RotateKeys(target, names, env));
      && WorldInv(after) && after.master == target && after.st.overlay.None?
      && after.seen == w.seen + [RotationEntry(w.st.head, env)]
      && SamePlain(Merged(w.st), w.master, Merged(after.st), target)
      && Verify(Merged(after.st), target, after.st.head) == Success(after.seen)
  {
    SeenStore(w);
    hide *;
    RotationKeepsStore(Merged(w.st), w.st.head, w.master, w.seen, target, names, env);
    var t, entries := RotateTo(Merged(w.st), w.st.head, w.master, target, names, env).value, w.seen + [RotationEntry(w.st.head, env)];
    StoreParts(t.view, target, t.head, entries);
    LogParts(t.view, target, t.head, entries);
    TurnShape(w, target, names, env);
    ClosedWorld(t.view, t.head, target, entries);
    VerifySucceeds(t.view, target, t.head, entries);
  }

  lemma ActKeepsInv(w: World, a: Action)
    requires WorldInv(w) && SafeAction(w, a)
    ensures WorldInv(Act(w, a))
  {
    ActKeepsLog(w, a);
    hide WorldLog, WorldTables, Act, SafeAction, Merged, Lists;
    match a
    case Reopen => OtherKeepsTables(w, a);
    case RotateKeys(target, names, env) =>
      if Lists(names, Merged(w.st), w.master) {
        RotationKeepsWorld(w, target, names, env);
      } else {
        RotationFails(w, target, names, env);
      }
    case Execute(env, s) =>
      if IsControl(s) {
        OtherKeepsTables(w, a);
      } else {
        PlainKeepsTables(w, env, s);
      }
  }

  // ---------------------------------------------------------------- runs

  function Start(master: nat): World {
    World(State(map[], None, GENESIS, None), master, [], [])
  }

  ghost function Reached(w: World, actions: seq<Action>): World {
    if actions == [] then w
    else Act(Reached(w, actions[..|actions| - 1]), actions[|actions| - 1])
  }

  ghost predicate SafeRun(w: World, actions: seq<Action>) {
    forall i :: 0 <= i < |actions| ==> SafeAction(Reached(w, actions[..i]), actions[i])
  }

  lemma SafePrefix(w: World, actions: seq<Action>, n: nat)
    requires SafeRun(w, actions) && n < |actions|
    ensures SafeRun(w, actions[..n]) && SafeAction(Reached(w, actions[..n]), actions[n])
  {
    hide SafeAction, Reached;
    forall i | 0 <= i < n
      ensures SafeAction(Reached(w, actions[..n][..i]), actions[..n][i])
    {
      assert actions[..n][..i] == actions[..i];
    }
  }

  lemma {:induction false} RunKeepsLog(w: World, actions: seq<Action>)
    requires WorldLog(w)
    ensures WorldLog(Reached(w, actions))
  {
    hide WorldLog, Act;
    if actions != [] {
      var n := |actions| - 1;
      RunKeepsLog(w, actions[..n]);
      ActKeepsLog(Reached(w, actions[..n]), actions[n]);
    }
  }

  lemma {:induction false} RunKeepsInv(w: World, actions: seq<Action>)
    requires WorldInv(w) && SafeRun(w, actions)
    ensures WorldInv(Reached(w, actions))
  {
    hide WorldInv, Act, SafeAction, SafeRun;
    if actions != [] {
      var n := |actions| - 1;
      SafePrefix(w, actions, n);
      RunKeepsInv(w, actions[..n]);
      ActKeepsInv(Reached(w, actions[..n]), actions[n]);
    }
  }

  lemma StartInv(master: nat)
    ensures WorldInv(Start(master))
  {
    hide LogInv, TablesInv;
    EmptyStore(master);
  }

  /** After every run, whatever it did to the indexes. */
  lemma ReachedKeepsLog(master: nat, actions: seq<Action>)
    ensures var w := Reached(Start(master), actions); LogInv(Merged(w.st), w.master, w.st.head, w.seen)
  {
    hide Reached, LogInv, WorldTables;
    StartInv(master);
    RunKeepsLog(Start(master), actions);
  }

  lemma ReachedKeepsTables(master: nat, actions: seq<Action>)
    requires SafeRun(Start(master), actions)
    ensures var w := Reached(Start(master), actions); TablesInv(Merged(w.st), w.master)
  {
    hide Reached, SafeRun, TablesInv, WorldLog;
    StartInv(master);
    RunKeepsInv(Start(master), actions);
  }

  /**
   Main result, for every run: the audit log verifies and returns the live history, and the
   store holds in the clear what the history records. If no UPDATE of the run has flipped a
   zero of an indexed column, all tables keep their invariant as well.
   */
  lemma ReachableIsSound(master: nat, actions: seq<Action>, table: string, p: Place)
    ensures var w := Reached(Start(master), actions);
      && Verify(Merged(w.st), w.master, w.st.head) == Success(w.seen)
      && Chained(w.seen) && w.st.head == HeadOf(w.seen)
      && PlainAt(Merged(w.st), w.master, p) == Recorded(w.seen, p)
      && (SafeRun(Start(master), actions) ==> TableInv(Merged(w.st), Tag(w.master, table)))
  {
    ReachedKeepsLog(master, actions);
    if SafeRun(Start(master), actions) {
      ReachedKeepsTables(master, actions);
    }
    var w := Reached(Start(master), actions);
    hide Reached, SafeRun, TableInv, LogInv, Verify, AuditInv, PlainAt, Recorded, Merged, Chained, HeadOf, AllNamed;
    LogParts(Merged(w.st), w.master, w.st.head, w.seen);
    VerifySucceeds(Merged(w.st), w.master, w.st.head, w.seen);
  }

  /** In every state reached without a flipped zero, every access path finds the rows of a full scan. */
  lemma ReachableQueriesAgree(master: nat, actions: seq<Action>, table: string, filter: Option<Predicates.Filter>)
    requires SafeRun(Start(master), actions)
    requires var w := Reached(Start(master), actions);
      var view, tag := Merged(w.st), Tag(w.master, table);
      Catalog(tag) in view && ComparableOption(filter, SchemaAt(view, tag)) && PinnedTyped(filter, SchemaAt(view, tag))
    ensures var w := Reached(Start(master), actions);
      var view, tag := Merged(w.st), Tag(w.master, table);
      && ScannedRows(view, tag, filter).Success? && MatchingRows(view, tag, SchemaAt(view, tag), filter).Success?
      && multiset(MatchingRows(view, tag, SchemaAt(view, tag), filter).value) == multiset(ScannedRows(view, tag, filter).value)
  {
    ReachableIsSound(master, actions, table, SchemaOf(table));
    var w := Reached(Start(master), actions);
    var view, tag := Merged(w.st), Tag(w.master, table);
    hide Reached, Merged;
    TableParts(view, tag);
    CandidatesAreScan(view, tag, SchemaAt(view, tag), filter);
  }

  /**
   Main result, for every two runs: the audit head commits to the tables. If they reach the
   same head, whatever their masters, they have the same history and the same plain tables;
   if the history holds no rotation, also the same sealed boxes.
   */
  lemma EqualHeadsEqualTables(m: nat, a: seq<Action>, n: nat, b: seq<Action>)
    requires Reached(Start(m), a).st.head == Reached(Start(n), b).st.head
    ensures var v, w := Reached(Start(m), a), Reached(Start(n), b);
      && v.seen == w.seen && SamePlain(Merged(v.st), v.master, Merged(w.st), w.master)
      && (Unrotated(v.seen) ==> TableKeys(Merged(v.st)) == TableKeys(Merged(w.st)))
  {
    hide Reached, LogInv, Merged, SamePlain, TableKeys, Unrotated;
    ReachedKeepsLog(m, a);
    ReachedKeepsLog(n, b);
    var v, w := Reached(Start(m), a), Reached(Start(n), b);
    HeadDeterminesTables(Merged(v.st), v.master, v.seen, Merged(w.st), w.master, w.seen, v.st.head);
  }
}
