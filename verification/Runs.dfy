/** What a user of the database may rely on, over every run from creation through any number of crashes. */
module Runs {
  import opened InternalKeys
  import opened SnapshotReads
  import opened Versions
  import opened Manifest
  import opened HistoryReads
  import opened Durability
  import opened DurabilityProofs
  import Database

  // ----- reads inside one state -----

  /** Everything a read consults: memtable, immutable memtable, current version. */
  ghost function DbContents(m: Memory): iset<Entry> {
    Database.Everything(m.mem, m.imm, m.current)
  }

  /** Writes numbered above the snapshot are invisible to it. */
  lemma LaterWritesInvisible(h: seq<Entry>, n: nat, k: UserKey, s: int)
    requires Numbered(h) && n <= |h| && s <= n
    ensures Read(EntriesOf(h), k, s) == Read(EntriesOf(h[..n]), k, s)
  {
    var all, front := EntriesOf(h), EntriesOf(h[..n]);
    NumberedIsDistinct(h);
    forall e | e in h && Visible(e, k, s)
      ensures e in h[..n]
    {
      var i :| 0 <= i < |h| && h[i] == e;
      assert h[..n][i] == e;
    }
    assert forall e :: IsNewest(all, k, s, e) <==> IsNewest(front, k, s, e);
    if e :| IsNewest(all, k, s, e) {
      NewestIs(all, k, s, e);
      NewestIs(front, k, s, e);
    }
  }

  /** How far into the history the memtable reaches. */
  function InMemory(s: State, m: Memory): nat {
    s.switched + |m.mem|
  }

  lemma DbContentsAre(s: State, m: Memory)
    requires MemoryInv(s, m)
    ensures m.lastSequence <= InMemory(s, m) <= |s.history|
    ensures DbContents(m) == Contents(m.current) + EntriesOf(s.history[s.flushed..InMemory(s, m)])
  {
    var q := InMemory(s, m);
    MemTableIs(s, m);
    assert s.history[s.flushed..q] == s.history[s.flushed..s.switched] + m.mem;
    var imm := if m.imm.Some? then m.imm.value else [];
    assert imm == s.history[s.flushed..s.switched];
    assert EntriesOf(s.history[s.flushed..q]) == EntriesOf(imm) + EntriesOf(m.mem);
    assert EntriesOf([]) == iset{};
  }

  ghost predicate IsLiveSnapshot(m: Memory, snapshot: nat) {
    snapshot == m.lastSequence || snapshot in m.snapshots
  }

  lemma LiveSnapshotInRange(m: Memory, snapshot: nat)
    requires SnapshotsInv(m) && IsLiveSnapshot(m, snapshot)
    ensures Oldest(m) <= snapshot <= m.lastSequence
  {
    if snapshot in m.snapshots {
      var i :| 0 <= i < |m.snapshots| && m.snapshots[i] == snapshot;
      assert i == 0 || m.snapshots[0] <= m.snapshots[i];
    }
  }

  /** At a live snapshot the database answers like the writes up to that snapshot. */
  lemma ReadsMatchHistory(s: State, m: Memory, k: UserKey, snapshot: nat)
    requires s.memory == Some(m) && Inv(s) && IsLiveSnapshot(m, snapshot)
    ensures snapshot <= |s.history|
    ensures Read(DbContents(m), k, snapshot) == Read(EntriesOf(s.history[..snapshot]), k, snapshot)
  {
    LiveSnapshotInRange(m, snapshot);
    DbContentsAre(s, m);
    var q := InMemory(s, m);
    RepresentedExtends(m.current, s.history, s.flushed, q, Oldest(m));
    hide RunningInv, Contents, Represents;
    assert Read(DbContents(m), k, snapshot) == Read(EntriesOf(s.history[..q]), k, snapshot);
    LaterWritesInvisible(s.history, q, k, snapshot);
    LaterWritesInvisible(s.history, snapshot, k, snapshot);
  }

  /** `mem` and `imm` are the memtables as their skip lists keep them: the same entries, sorted. */
  ghost predicate SkipLists(m: Memory, mem: Database.MemTable, imm: Option<Database.MemTable>) {
    && Sorted(mem) && EntriesOf(mem) == EntriesOf(m.mem)
    && (imm.Some? <==> m.imm.Some?)
    && (imm.Some? ==> Sorted(imm.value) && EntriesOf(imm.value) == EntriesOf(m.imm.value))
  }

  lemma RunningIsNewestFirst(s: State, m: Memory, mem: Database.MemTable, imm: Option<Database.MemTable>)
    requires s.memory == Some(m) && Inv(s) && SkipLists(m, mem, imm)
    ensures Database.NewestFirst(mem, imm, m.current)
    ensures Database.Everything(mem, imm, m.current) == DbContents(m)
  {
    hide LogsInv, BackgroundInv, ManifestInv, SnapshotsInv, Contents, LevelInvariant, SameReadsFrom;
    DbContentsAre(s, m);
    MemTableIs(s, m);
    hide RunningInv, MemoryInv;
    SlicesAreNewestFirst(s.history, s.flushed, s.switched, InMemory(s, m));
  }

  /** Later stretches of the history hold newer writes. */
  lemma SlicesAreNewestFirst(h: seq<Entry>, a: nat, b: nat, c: nat)
    requires Numbered(h) && a <= b <= c <= |h|
    ensures AllNewer(EntriesOf(h[b..c]), EntriesOf(h[a..b]))
    ensures AllNewer(EntriesOf(h[b..c]), EntriesOf(h[..a])) && AllNewer(EntriesOf(h[a..b]), EntriesOf(h[..a]))
  {
    SliceIsNumbered(h, 0, a);
    SliceIsNumbered(h, a, b);
    SliceIsNumbered(h, b, c);
    assert h[0..a] == h[..a];
  }

  lemma MemTableIs(s: State, m: Memory)
    requires MemoryInv(s, m)
    ensures InMemory(s, m) <= |s.history| && m.mem == s.history[s.switched..InMemory(s, m)]
    ensures m.imm.Some? ==> m.imm.value == s.history[s.flushed..s.switched]
  {
    if m.writer.Logged? {
      assert (m.mem + m.writer.group)[..|m.mem|] == m.mem;
    }
  }

  /** DBImpl::Get at a live snapshot returns what the logged writes up to that snapshot say. */
  method Get(ghost s: State, m: Memory, mem: Database.MemTable, imm: Option<Database.MemTable>, k: UserKey,
             snapshot: SequenceNumber)
    returns (r: Option<Bytes>)
    requires s.memory == Some(m) && Inv(s) && SkipLists(m, mem, imm) && IsLiveSnapshot(m, snapshot)
    ensures snapshot <= |s.history| && r == Read(EntriesOf(s.history[..snapshot]), k, snapshot)
  {
    RunningIsNewestFirst(s, m, mem, imm);
    ReadsMatchHistory(s, m, k, snapshot);
    hide Inv;
    r := Database.Get(mem, imm, m.current, k, snapshot);
  }

  // ----- whole runs -----

  /** Logged writes are never reordered or dropped, and acknowledgements never retracted. */
  lemma StepGrows(s: State, a: Action, s': State)
    requires Inv(s) && Step(s, a, s')
    ensures s.history <= s'.history && s.acknowledged <= s'.acknowledged
  {
    hide ManifestInv, Represents, TablesPresent, LogsInv, BackgroundInv, Numbered, Compacts, Saves;
    if a.Publish? {
      assert s.acknowledged <= s.memory.value.lastSequence;
    }
  }

  lemma {:induction false} RunGrows(states: seq<State>, actions: seq<Action>, i: nat, j: nat)
    requires Run(states, actions) && i <= j < |states|
    ensures states[i].history <= states[j].history && states[i].acknowledged <= states[j].acknowledged
    decreases j
  {
    hide Step, Inv, Init;
    if i < j {
      RunGrows(states, actions, i, j - 1);
      RunKeepsInv(states, actions, j - 1);
      assert Step(states[j - 1], actions[j - 1], states[j]);
      StepGrows(states[j - 1], actions[j - 1], states[j]);
    }
  }

  lemma InvBounds(s: State)
    requires Inv(s)
    ensures s.acknowledged <= |s.history|
    ensures s.memory.Some? ==> s.acknowledged <= s.memory.value.lastSequence <= |s.history|
  {
  }

  lemma PrefixOfPrefix<T>(a: seq<T>, n: nat, b: seq<T>, m: nat)
    requires a <= b && n <= |a| && n <= m <= |b|
    ensures a[..n] <= b[..m] && a[..n] == b[..n]
  {
  }

  /** Whatever was acknowledged before is part of what every later running state shows, crashes or not. */
  lemma AcknowledgedWritesAreDurable(states: seq<State>, actions: seq<Action>, i: nat, j: nat, k: UserKey)
    requires Run(states, actions) && i <= j < |states| && states[j].memory.Some?
    ensures var s, m := states[j], states[j].memory.value;
            && m.lastSequence <= |s.history|
            && states[i].acknowledged <= |states[i].history|
            && states[i].history[..states[i].acknowledged] <= s.history[..m.lastSequence]
            && Read(DbContents(m), k, m.lastSequence) == Read(EntriesOf(s.history[..m.lastSequence]), k, m.lastSequence)
  {
    RunKeepsInv(states, actions, i);
    RunKeepsInv(states, actions, j);
    RunGrows(states, actions, i, j);
    InvBounds(states[i]);
    InvBounds(states[j]);
    hide Run, Inv;
    var m := states[j].memory.value;
    PrefixOfPrefix(states[i].history, states[i].acknowledged, states[j].history, m.lastSequence);
    ReadsMatchHistory(states[j], m, k, m.lastSequence);
  }

  /** A snapshot held in two states of a run reads the same in both, whatever flushes, compactions, crashes
      and recoveries lie between. */
  lemma SnapshotReadsAreStable(states: seq<State>, actions: seq<Action>, i: nat, j: nat, k: UserKey, snapshot: nat)
    requires Run(states, actions) && i <= j < |states|
    requires states[i].memory.Some? && IsLiveSnapshot(states[i].memory.value, snapshot)
    requires states[j].memory.Some? && IsLiveSnapshot(states[j].memory.value, snapshot)
    ensures Read(DbContents(states[i].memory.value), k, snapshot) == Read(DbContents(states[j].memory.value), k,
            snapshot)
  {
    RunKeepsInv(states, actions, i);
    RunKeepsInv(states, actions, j);
    RunGrows(states, actions, i, j);
    hide Run, Inv;
    ReadsMatchHistory(states[i], states[i].memory.value, k, snapshot);
    ReadsMatchHistory(states[j], states[j].memory.value, k, snapshot);
    PrefixOfPrefix(states[i].history, snapshot, states[j].history, snapshot);
  }

  lemma TakeAddsOne(states: seq<State>, actions: seq<Action>, i: nat)
    requires Run(states, actions) && i < |actions| && actions[i].TakeSnapshot?
    ensures states[i].memory.Some? && states[i + 1].memory.Some?
    ensures var m, m' := states[i].memory.value, states[i + 1].memory.value;
            && m'.snapshots == m.snapshots + [m.lastSequence] && IsLiveSnapshot(m', m.lastSequence)
            && states[i].acknowledged <= m.lastSequence <= |states[i].history|
  {
    hide Inv, Step;
    StepOfRun(states, actions, i);
    RunKeepsInv(states, actions, i);
    StepTakes(states[i], states[i + 1]);
    WritesInRange(states[i], states[i].memory.value);
  }

  lemma StepTakes(s: State, s': State)
    requires Step(s, TakeSnapshot, s')
    ensures s.memory.Some? && s'.memory.Some?
    ensures var m, m' := s.memory.value, s'.memory.value;
            m'.snapshots == m.snapshots + [m.lastSequence] && IsLiveSnapshot(m', m.lastSequence)
  {
    var m' := s'.memory.value;
    assert m'.snapshots[|m'.snapshots| - 1] in m'.snapshots;
  }

  lemma WritesInRange(s: State, m: Memory)
    requires Inv(s) && s.memory == Some(m)
    ensures s.acknowledged <= m.lastSequence <= |s.history|
  {
    hide ManifestInv, LogsInv, SnapshotsInv, BackgroundInv, Numbered, Represents;
  }

  lemma StepOfRun(states: seq<State>, actions: seq<Action>, i: nat)
    requires Run(states, actions) && i < |actions|
    ensures i + 1 < |states| && Step(states[i], actions[i], states[i + 1])
  {
    hide Step;
  }

  /** What compactions preserve reads from is the oldest live snapshot itself. */
  lemma OldestIsLeast(m: Memory)
    requires SnapshotsInv(m)
    ensures IsLiveSnapshot(m, Oldest(m))
    ensures forall snapshot | IsLiveSnapshot(m, snapshot) :: Oldest(m) <= snapshot
  {
    forall snapshot | IsLiveSnapshot(m, snapshot)
      ensures Oldest(m) <= snapshot
    {
      LiveSnapshotInRange(m, snapshot);
    }
  }

  /** Releasing a snapshot takes exactly that one away. */
  lemma ReleaseDropsOne(states: seq<State>, actions: seq<Action>, i: nat)
    requires Run(states, actions) && i < |actions| && actions[i].ReleaseSnapshot?
    ensures states[i].memory.Some? && states[i + 1].memory.Some?
    ensures var held, left := states[i].memory.value.snapshots, states[i + 1].memory.value.snapshots;
            var p := actions[i].index;
            && p < |held| && |left| + 1 == |held|
            && forall q | 0 <= q < |left| :: left[q] == if q < p then held[q] else held[q + 1]
  {
    assert Step(states[i], actions[i], states[i + 1]);
  }

  /** A snapshot taken in state i is one new snapshot; every acknowledged write is in it and nothing logged later. In
      every later running state that still holds it, it reads what state i showed as current. */
  lemma SnapshotIsCurrent(states: seq<State>, actions: seq<Action>, i: nat) returns (snapshot: nat)
    requires Run(states, actions) && i < |actions| && actions[i].TakeSnapshot?
    ensures states[i].memory.Some? && states[i + 1].memory.Some?
    ensures var m, m' := states[i].memory.value, states[i + 1].memory.value;
            m'.snapshots == m.snapshots + [snapshot] && IsLiveSnapshot(m', snapshot)
    ensures states[i].acknowledged <= snapshot <= |states[i].history|
    ensures forall j, k | i < j < |states| && states[j].memory.Some?
              && IsLiveSnapshot(states[j].memory.value, snapshot) ::
              var m := states[i].memory.value;
              && Read(DbContents(states[j].memory.value), k, snapshot) == Read(DbContents(m), k, m.lastSequence)
              && Read(DbContents(states[j].memory.value), k, snapshot) ==
                   Read(EntriesOf(states[i].history[..snapshot]), k, snapshot)
  {
    hide Run, Inv, Read, DbContents, IsLiveSnapshot;
    StepOfRun(states, actions, i);
    RunKeepsInv(states, actions, i);
    TakeAddsOne(states, actions, i);
    var m := states[i].memory.value;
    snapshot := m.lastSequence;
    LastIsLive(m);
    forall j, k | i < j < |states| && states[j].memory.Some? && IsLiveSnapshot(states[j].memory.value, snapshot)
      ensures Read(DbContents(states[j].memory.value), k, snapshot) == Read(DbContents(m), k, m.lastSequence)
      ensures Read(DbContents(states[j].memory.value), k, snapshot) == Read(EntriesOf(states[i].history[..snapshot]),
              k, snapshot)
    {
      SnapshotReadsAreStable(states, actions, i, j, k, snapshot);
      ReadsMatchHistory(states[i], m, k, snapshot);
    }
  }

  lemma LastIsLive(m: Memory)
    ensures IsLiveSnapshot(m, m.lastSequence)
  {
  }

  /** Every running state keeps the level invariant. */
  lemma LevelsStaySound(states: seq<State>, actions: seq<Action>, n: nat)
    requires Run(states, actions) && n < |states| && states[n].memory.Some?
    ensures LevelInvariant(states[n].memory.value.current)
  {
    RunKeepsInv(states, actions, n);
  }

  /** After a crash anywhere in a run: the manifest replays to a version whose tables are all on disk, and that
      version together with the logs from its log number on answers like every write ever logged. */
  lemma CrashLosesNothing(states: seq<State>, actions: seq<Action>, n: nat, w: Levels, hi: nat, k: UserKey)
    requires Run(states, actions) && n < |states| && states[n].memory.None?
    requires states[n].disk.records != []
    requires Saves(EMPTY_VERSION, [SnapshotOf(states[n].disk.base)] + Edits(states[n].disk.records), w)
    requires LogBound(states[n].disk.logs, hi)
    ensures TablesPresent(w, states[n].disk.tables)
    ensures var replayed := LogEntries(states[n].disk.logs, Last(states[n].disk).logNumber, hi);
            && MaxSequence(replayed, Last(states[n].disk).lastSequence) == |states[n].history|
            && Read(Contents(w) + EntriesOf(replayed), k, |states[n].history|) == Read(EntriesOf(states[n].history), k,
                 |states[n].history|)
  {
    RunKeepsInv(states, actions, n);
    RecoveryFindsEverything(states[n], w, hi);
  }
}
