/** Group commit on top of the durable state machine (db/db_impl.cc, Write): what a finished writer wrote is what the
    database has acknowledged, and so survives crashes. */
module CommitPath {
  import opened InternalKeys
  import opened SnapshotReads
  import opened Versions
  import opened Operations
  import WriteBatch
  import WriteQueue
  import Durability
  import DurabilityProofs
  import HistoryReads
  import Manifest
  import Runs

  /** Some more writers queue up; WriteQueue's Join for each of them. */
  function AddWriters(q: WriteQueue.State, ws: seq<WriteQueue.Writer>): WriteQueue.State
    decreases |ws|
  {
    if ws == [] then q
    else
      var front := AddWriters(q, ws[..|ws| - 1]);
      var w := ws[|ws| - 1];
      front.(queue := front.queue + [w], joined := front.joined + [w])
  }

  lemma {:induction false} AddWritersIs(q: WriteQueue.State, ws: seq<WriteQueue.Writer>)
    ensures AddWriters(q, ws) == q.(queue := q.queue + ws, joined := q.joined + ws)
  {
    if ws != [] {
      AddWritersIs(q, ws[..|ws| - 1]);
      assert ws == ws[..|ws| - 1] + [ws[|ws| - 1]];
    } else {
      assert q.queue + ws == q.queue && q.joined + ws == q.joined;
    }
  }

  /** What the queue does while the database takes one step: writers join, the leader logs the group that the database
      logs, and the group is finished when the database publishes it. `start` is how much the log held when the queue
      was created. */
  ghost predicate QueueStep(q: WriteQueue.State, start: nat, a: Durability.Action, q': WriteQueue.State) {
    exists ws :: Follows(AddWriters(q, ws), start, a, q')
  }

  ghost predicate Follows(q: WriteQueue.State, start: nat, a: Durability.Action, q': WriteQueue.State) {
    match a
    case LogGroup(g) =>
      exists n: nat :: WriteQueue.Step(q, WriteQueue.LogGroup(n), q') && n <= |q.queue| &&
        var ops := WriteQueue.BatchesOf(q.queue[..n]);
        start + q.lastSequence + 1 + |ops| <= MAX_SEQUENCE && g == EntriesFrom(start + q.lastSequence + 1, ops)
    case Publish => WriteQueue.Step(q, WriteQueue.Finish, q')
    case _ => q' == q
  }

  function Ops(q: WriteQueue.State): seq<WriteBatch.Op> {
    WriteQueue.BatchesOf(WriteQueue.WritersOf(q.finished))
  }

  /** The operations of the group being committed. */
  function Leading(q: WriteQueue.State): Option<seq<WriteBatch.Op>> {
    if q.leading.Some? && q.leading.value <= |q.queue| then Some(WriteQueue.BatchesOf(q.queue[..q.leading.value]))
        else None
  }

  ghost predicate Sane(q: WriteQueue.State) {
    (q.leading.Some? ==> q.leading.value <= |q.queue|) && q.lastSequence == |Ops(q)|
  }

  // ----- the queue's side -----

  lemma JoinKeeps(q: WriteQueue.State, ws: seq<WriteQueue.Writer>)
    requires Sane(q)
    ensures var q' := AddWriters(q, ws);
            Sane(q') && Ops(q') == Ops(q) && Leading(q') == Leading(q) && q'.finished == q.finished
  {
    hide WriteQueue.BatchesOf, WriteQueue.WritersOf;
    AddWritersIs(q, ws);
    if q.leading.Some? {
      assert (q.queue + ws)[..q.leading.value] == q.queue[..q.leading.value];
    }
  }

  lemma LogLeads(q: WriteQueue.State, n: nat, q': WriteQueue.State)
    requires Sane(q) && WriteQueue.Step(q, WriteQueue.LogGroup(n), q') && n <= |q.queue|
    ensures Sane(q') && Ops(q') == Ops(q) && Leading(q).None? && Leading(q') == Some(WriteQueue.BatchesOf(q.queue[..n]))
    ensures q'.finished == q.finished
  {
    hide WriteQueue.BatchesOf, WriteQueue.IsGroup, WriteQueue.WritersOf;
  }

  lemma FinishAdds(q: WriteQueue.State, q': WriteQueue.State)
    requires Sane(q) && WriteQueue.Step(q, WriteQueue.Finish, q')
    ensures Leading(q).Some? && Sane(q') && Ops(q') == Ops(q) + Leading(q).value && Leading(q').None?
  {
    var group, done := q.queue[..q.leading.value], WriteQueue.WritersOf(q.finished);
    assert WriteQueue.WritersOf(q'.finished) == done + group;
    WriteQueue.BatchesConcat(done, group);
    hide WriteQueue.BatchesOf, WriteQueue.WritersOf;
  }

  // ----- the database's side -----

  /** The database holds `before`, the finished operations `done` and the group `leading`; once something is
      finished, all of it is acknowledged. */
  ghost predicate Holds(before: seq<Entry>, done: seq<WriteBatch.Op>, leading: Option<seq<WriteBatch.Op>>,
                        finished: bool,
                        s: Durability.State)
  {
    var group := if leading.Some? then leading.value else [];
    && s.memory.Some? && |before| + 1 + |done| + |group| <= MAX_SEQUENCE
    && var m := s.memory.value;
    && (m.writer.Idle? <==> leading.None?)
    && m.lastSequence == |before| + |done|
    && s.history == before + EntriesFrom(|before| + 1, done + group)
    && (!m.writer.Idle? ==> m.writer.group == EntriesFrom(|before| + 1 + |done|, group))
    && (finished ==> s.acknowledged == m.lastSequence)
  }

  lemma LogHolds(before: seq<Entry>, done: seq<WriteBatch.Op>, finished: bool, s: Durability.State,
                 ops: seq<WriteBatch.Op>, g: seq<Entry>, s': Durability.State)
    requires Holds(before, done, None, finished, s) && Durability.Step(s, Durability.LogGroup(g), s')
    requires |before| + 1 + |done| + |ops| <= MAX_SEQUENCE && g == EntriesFrom(|before| + 1 + |done|, ops)
    ensures Holds(before, done, Some(ops), finished, s')
  {
    EntriesConcat(|before| + 1, done, ops);
    hide EntriesFrom;
    assert done + [] == done;
    assert before + (EntriesFrom(|before| + 1, done) + g) == before + EntriesFrom(|before| + 1, done) + g;
  }

  lemma PublishHolds(before: seq<Entry>, done: seq<WriteBatch.Op>, leading: seq<WriteBatch.Op>, finished: bool,
                     s: Durability.State, s': Durability.State)
    requires Holds(before, done, Some(leading), finished, s) && Durability.Step(s, Durability.Publish, s')
    ensures Holds(before, done + leading, None, true, s') && Holds(before, done + leading, None, false, s')
  {
    hide EntriesFrom;
    assert done + leading + [] == done + leading;
  }

  /** The other steps of a running database leave the write path alone. */
  lemma OthersHold(before: seq<Entry>, done: seq<WriteBatch.Op>, leading: Option<seq<WriteBatch.Op>>, finished: bool,
                   s: Durability.State, a: Durability.Action, s': Durability.State)
    requires Holds(before, done, leading, finished, s) && Durability.Step(s, a, s')
    requires !a.LogGroup? && !a.Publish? && !a.Crash?
    ensures Holds(before, done, leading, finished, s')
  {
    hide EntriesFrom;
  }

  // ----- both together -----

  /** The queue and the database agree: `before` was logged before the queue was created. */
  ghost predicate Agree(q: WriteQueue.State, before: seq<Entry>, s: Durability.State) {
    Sane(q) && Holds(before, Ops(q), Leading(q), q.finished != [], s)
  }

  /** A new queue on a database whose writer is idle. */
  lemma NewQueueAgrees(q: WriteQueue.State, s: Durability.State)
    requires WriteQueue.Init(q) && Durability.Inv(s) && s.memory.Some? && s.memory.value.writer.Idle?
    ensures Agree(q, s.history, s)
  {
    assert Durability.MemoryInv(s, s.memory.value);
    assert s.history + EntriesFrom(|s.history| + 1, [] + []) == s.history;
  }

  lemma StepAgrees(q: WriteQueue.State, before: seq<Entry>, s: Durability.State, a: Durability.Action,
                   q': WriteQueue.State, s': Durability.State)
    requires Agree(q, before, s) && QueueStep(q, |before|, a, q') && Durability.Step(s, a, s') && !a.Crash?
    ensures Agree(q', before, s')
  {
    hide Durability.Step, WriteQueue.Step, Holds, Sane, Ops, Leading, AddWriters, EntriesFrom;
    var ws :| Follows(AddWriters(q, ws), |before|, a, q');
    var mid := AddWriters(q, ws);
    JoinKeeps(q, ws);
    if a.LogGroup? {
      GroupIsLed(mid, |before|, a.group, q');
      var ops := Leading(q').value;
      LogHolds(before, Ops(q), q.finished != [], s, ops, a.group, s');
    } else if a.Publish? {
      FinishAdds(mid, q');
      PublishHolds(before, Ops(q), Leading(q).value, q.finished != [], s, s');
    } else {
      OthersHold(before, Ops(q), Leading(q), q.finished != [], s, a, s');
    }
  }

  lemma GroupIsLed(q: WriteQueue.State, start: nat, g: seq<Entry>, q': WriteQueue.State)
    requires Sane(q) && Follows(q, start, Durability.LogGroup(g), q')
    ensures Sane(q') && Ops(q') == Ops(q) && q'.finished == q.finished && Leading(q).None? && Leading(q').Some?
    ensures start + 1 + |Ops(q)| + |Leading(q').value| <= MAX_SEQUENCE
    ensures g == EntriesFrom(start + 1 + |Ops(q)|, Leading(q').value)
  {
    hide WriteQueue.Step, EntriesFrom, Ops, Leading;
    var n: nat :| WriteQueue.Step(q, WriteQueue.LogGroup(n), q') && n <= |q.queue| &&
      var ops := WriteQueue.BatchesOf(q.queue[..n]);
      start + q.lastSequence + 1 + |ops| <= MAX_SEQUENCE && g == EntriesFrom(start + q.lastSequence + 1, ops);
    LogLeads(q, n, q');
  }

  /** One step of the run, taken along by the queue. */
  ghost predicate StepAlong(queues: seq<WriteQueue.State>, states: seq<Durability.State>,
                            actions: seq<Durability.Action>, i: nat, k: nat)
    requires |states| == |actions| + 1 && k + 1 < |queues| && i + |queues| <= |states|
  {
    !actions[i + k].Crash? && QueueStep(queues[k], |states[i].history|, actions[i + k], queues[k + 1])
  }

  /** From state i on, without a crash, the queue goes along with the database. */
  ghost predicate RunsAlong(queues: seq<WriteQueue.State>, states: seq<Durability.State>,
                            actions: seq<Durability.Action>, i: nat) {
    && DurabilityProofs.Run(states, actions) && queues != [] && i + |queues| <= |states|
    && WriteQueue.Init(queues[0]) && states[i].memory.Some? && states[i].memory.value.writer.Idle?
    && forall k: nat | k + 1 < |queues| :: StepAlong(queues, states, actions, i, k)
  }

  lemma {:induction false} AlongAgrees(queues: seq<WriteQueue.State>, states: seq<Durability.State>,
                                       actions: seq<Durability.Action>, i: nat, k: nat)
    requires RunsAlong(queues, states, actions, i) && k < |queues|
    ensures Agree(queues[k], states[i].history, states[i + k])
  {
    hide Agree, QueueStep, Durability.Step, Durability.Init, Durability.Inv;
    if k == 0 {
      DurabilityProofs.RunKeepsInv(states, actions, i);
      NewQueueAgrees(queues[0], states[i]);
    } else {
      AlongAgrees(queues, states, actions, i, k - 1);
      assert StepAlong(queues, states, actions, i, k - 1);
      var n := i + k - 1;
      assert Durability.Step(states[n], actions[n], states[n + 1]);
      StepAgrees(queues[k - 1], states[i].history, states[n], actions[n], queues[k], states[n + 1]);
    }
  }

  lemma FinishedAreAcknowledged(q: WriteQueue.State, before: seq<Entry>, s: Durability.State)
    requires Agree(q, before, s) && q.finished != []
    ensures |before| + 1 + |Ops(q)| <= MAX_SEQUENCE
    ensures s.acknowledged == |before| + |Ops(q)| <= |s.history|
    ensures s.history[..s.acknowledged] == before + EntriesFrom(|before| + 1, Ops(q))
  {
    var group := if Leading(q).Some? then Leading(q).value else [];
    EntriesConcat(|before| + 1, Ops(q), group);
    hide EntriesFrom, Ops, Leading;
  }

  /** The operations of the finished writers, in queue order behind what was logged before, are the acknowledged writes;
      every later running state shows them, crashes or not. */
  lemma FinishedWritesAreKept(queues: seq<WriteQueue.State>, states: seq<Durability.State>,
                              actions: seq<Durability.Action>, i: nat, k: nat, j: nat)
    requires RunsAlong(queues, states, actions, i) && k < |queues| && queues[k].finished != []
    requires i + k <= j < |states| && states[j].memory.Some?
    ensures var before, ops := states[i].history, Ops(queues[k]);
            var m, h := states[j].memory.value, states[j].history;
            && |before| + 1 + |ops| <= MAX_SEQUENCE && m.lastSequence <= |h|
            && states[i + k].acknowledged == |before| + |ops|
            && before + EntriesFrom(|before| + 1, ops) <= h[..m.lastSequence]
            && forall key :: Read(Runs.DbContents(m), key, m.lastSequence) == Read(EntriesOf(h[..m.lastSequence]), key,
                 m.lastSequence)
  {
    AlongAgrees(queues, states, actions, i, k);
    FinishedAreAcknowledged(queues[k], states[i].history, states[i + k]);
    hide Agree, EntriesFrom, Ops, Read, Runs.DbContents, QueueStep, DurabilityProofs.Run;
    Runs.AcknowledgedWritesAreDurable(states, actions, i + k, j, 0.0);
    forall key
      ensures var m, h := states[j].memory.value, states[j].history;
              Read(Runs.DbContents(m), key, m.lastSequence) == Read(EntriesOf(h[..m.lastSequence]), key, m.lastSequence)
    {
      Runs.AcknowledgedWritesAreDurable(states, actions, i + k, j, key);
    }
  }

  // ----- what users read -----

  ghost predicate AreOps(g: seq<Entry>) {
    exists first: nat, ops: seq<Op> :: first + |ops| <= MAX_SEQUENCE && g == EntriesFrom(first, ops)
  }

  /** Every group logged consists of operations, as batches do. */
  ghost predicate LogsOps(actions: seq<Durability.Action>) {
    forall i | 0 <= i < |actions| && actions[i].LogGroup? :: AreOps(actions[i].group)
  }

  lemma OnlyLoggingWrites(s: Durability.State, a: Durability.Action, s': Durability.State)
    requires Durability.Step(s, a, s')
    ensures s'.history == s.history + if a.LogGroup? then a.group else []
  {
    hide Durability.Compacts, Manifest.Saves, Durability.TabulateLogs;
    assert s.history + [] == s.history;
  }

  lemma NumberedGroup(h: seq<Entry>, before: seq<Op>, g: seq<Entry>) returns (ops: seq<Op>)
    requires 1 + |before| <= MAX_SEQUENCE && h == EntriesFrom(1, before)
    requires AreOps(g) && HistoryReads.Numbered(h + g) && |h + g| < MAX_SEQUENCE
    ensures 1 + |ops| <= MAX_SEQUENCE && h + g == EntriesFrom(1, ops)
  {
    var first: nat, more: seq<Op> :| first + |more| <= MAX_SEQUENCE && g == EntriesFrom(first, more);
    ops := before + more;
    forall i | 0 <= i < |g|
      ensures g[i] == EntryOf(more[i], 1 + |before| + i)
    {
      assert (h + g)[|h| + i] == g[i];
    }
    assert g == EntriesFrom(1 + |before|, more);
    EntriesConcat(1, before, more);
  }

  /** The history of such a run is a list of operations under the numbers 1, 2, 3, ... */
  lemma {:induction false} HistoryIsOps(states: seq<Durability.State>, actions: seq<Durability.Action>, n: nat)
    returns (ops: seq<Op>)
    requires DurabilityProofs.Run(states, actions) && LogsOps(actions) && n < |states|
    ensures 1 + |ops| <= MAX_SEQUENCE && states[n].history == EntriesFrom(1, ops)
  {
    hide Durability.Step, EntriesFrom, AreOps;
    if n == 0 {
      ops := [];
      NoEntries();
    } else {
      var before := HistoryIsOps(states, actions, n - 1);
      DurabilityProofs.RunKeepsInv(states, actions, n);
      var s, s' := states[n - 1], states[n];
      assert Durability.Step(s, actions[n - 1], s');
      OnlyLoggingWrites(s, actions[n - 1], s');
      InvNumbers(s');
      if actions[n - 1].LogGroup? {
        ops := NumberedGroup(s.history, before, actions[n - 1].group);
      } else {
        ops := before;
        assert s.history + [] == s.history;
      }
    }
  }

  lemma NoEntries()
    ensures EntriesFrom(1, []) == []
  {
  }

  lemma InvNumbers(s: Durability.State)
    requires Durability.Inv(s)
    ensures HistoryReads.Numbered(s.history) && |s.history| < MAX_SEQUENCE
  {
  }

  lemma PrefixOfOps(ops: seq<Op>, n: nat)
    requires 1 + |ops| <= MAX_SEQUENCE && n <= |ops|
    ensures EntriesFrom(1, ops)[..n] == EntriesFrom(1, ops[..n])
  {
  }

  /** In every running state, at every live snapshot, a user reads the map that the operations logged up to the snapshot
      leave. */
  lemma UsersReadTheMap(states: seq<Durability.State>, actions: seq<Durability.Action>, n: nat, snapshot: nat)
    returns (ops: seq<Op>)
    requires DurabilityProofs.Run(states, actions) && LogsOps(actions) && n < |states| && states[n].memory.Some?
    requires Runs.IsLiveSnapshot(states[n].memory.value, snapshot)
    ensures 1 + |ops| <= MAX_SEQUENCE && states[n].history == EntriesFrom(1, ops) && snapshot <= |ops|
    ensures forall key ::
              Read(Runs.DbContents(states[n].memory.value), Rank(key), snapshot) == ValueIn(Replay(ops[..snapshot]),
                   key)
  {
    hide Durability.Inv, DurabilityProofs.Run, LogsOps, EntriesFrom, Read, Runs.DbContents, Replay, Rank;
    ops := HistoryIsOps(states, actions, n);
    DurabilityProofs.RunKeepsInv(states, actions, n);
    var s, m := states[n], states[n].memory.value;
    Runs.ReadsMatchHistory(s, m, 0.0, snapshot);
    PrefixOfOps(ops, snapshot);
    forall key
      ensures Read(Runs.DbContents(m), Rank(key), snapshot) == ValueIn(Replay(ops[..snapshot]), key)
    {
      Runs.ReadsMatchHistory(s, m, Rank(key), snapshot);
      ReadsReplay(ops[..snapshot], key, snapshot);
    }
  }

  /** A finished write is read: in every later running state, crashes or not, a user reads the map that is left by the
      operations logged before the queue, those of the finished writers in queue order, and what was logged since. */
  lemma FinishedWritesAreDurable(queues: seq<WriteQueue.State>, states: seq<Durability.State>,
                                 actions: seq<Durability.Action>, i: nat, k: nat, j: nat)
    returns (before: seq<Op>, since: seq<Op>)
    requires RunsAlong(queues, states, actions, i) && LogsOps(actions) && k < |queues| && queues[k].finished != []
    requires i + k <= j < |states| && states[j].memory.Some?
    ensures 1 + |before| <= MAX_SEQUENCE && states[i].history == EntriesFrom(1, before)
    ensures states[i + k].acknowledged == |before| + |Ops(queues[k])|
    ensures var m := states[j].memory.value;
            && m.lastSequence == |before| + |Ops(queues[k])| + |since|
            && forall key ::
                 Read(Runs.DbContents(m), Rank(key), m.lastSequence) ==
                 ValueIn(Replay(before + Ops(queues[k]) + since), key)
  {
    hide EntriesFrom, Read, Runs.DbContents, Replay, Rank, QueueStep, DurabilityProofs.Run, LogsOps, Ops;
    RunsInside(queues, states, actions, i);
    before := HistoryIsOps(states, actions, i);
    FinishedWritesAreKept(queues, states, actions, i, k, j);
    var m := states[j].memory.value;
    var all := UsersReadTheMap(states, actions, j, m.lastSequence);
    var shown := all[..m.lastSequence];
    PrefixOfOps(all, m.lastSequence);
    EntriesConcat(1, before, Ops(queues[k]));
    EntriesTellOps(1, before + Ops(queues[k]), shown);
    since := shown[|before| + |Ops(queues[k])|..];
    assert shown == before + Ops(queues[k]) + since;
  }

  lemma RunsInside(queues: seq<WriteQueue.State>, states: seq<Durability.State>, actions: seq<Durability.Action>,
                   i: nat)
    requires RunsAlong(queues, states, actions, i)
    ensures DurabilityProofs.Run(states, actions) && i < |states|
  {
  }
}
