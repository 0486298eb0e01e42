/** Every action keeps the durability invariant. */
module DurabilityProofs {
  import opened InternalKeys
  import opened SnapshotReads
  import opened Versions
  import opened Compaction
  import opened Manifest
  import opened ManifestGrowth
  import opened LevelChanges
  import opened HistoryReads
  import opened Durability

  // ----- logs -----

  lemma {:induction false} LogEntriesAgree(logs: map<nat, seq<Entry>>, logs': map<nat, seq<Entry>>, lo: nat, hi: nat)
    requires forall n | lo <= n < hi :: (n in logs ==> n in logs' && logs'[n] == logs[n])
               && (n in logs' && n !in logs ==> logs'[n] == [])
    ensures LogEntries(logs, lo, hi) == LogEntries(logs', lo, hi)
  {
    if lo < hi {
      LogEntriesAgree(logs, logs', lo, hi - 1);
    }
  }

  lemma {:induction false} LogEntriesPastBound(logs: map<nat, seq<Entry>>, lo: nat, hi: nat, hi': nat)
    requires LogBound(logs, hi) && hi <= hi'
    ensures LogEntries(logs, lo, hi) == LogEntries(logs, lo, hi')
    decreases hi'
  {
    if hi < hi' {
      LogEntriesPastBound(logs, lo, hi, hi' - 1);
      if hi' <= lo {
        assert LogEntries(logs, lo, hi) == [];
      }
    }
  }

  lemma AnyBound(logs: map<nat, seq<Entry>>, lo: nat, hi: nat, hi': nat)
    requires LogBound(logs, hi) && LogBound(logs, hi')
    ensures LogEntries(logs, lo, hi) == LogEntries(logs, lo, hi')
  {
    if hi <= hi' {
      LogEntriesPastBound(logs, lo, hi, hi');
    } else {
      LogEntriesPastBound(logs, lo, hi', hi);
    }
  }

  lemma SplitTail<T>(h: seq<T>, a: nat, b: nat)
    requires a <= b <= |h|
    ensures h[a..] == h[a..b] + h[b..]
  {
  }

  /** While running, the logs the manifest's log number selects hold what its version lacks. */
  lemma RunningLogTail(s: State, m: Memory)
    requires LogsInv(s, m) && s.disk.records != [] && BackgroundInv(s, m)
    ensures LogTail(s.disk.logs, Last(s.disk).logNumber, s.history, s.durable)
  {
    var logs, lf := s.disk.logs, m.logfileNumber;
    assert LogEntries(logs, m.logNumber, lf + 1) == LogEntries(logs, m.logNumber, lf) + logs[lf];
    SplitTail(s.history, s.flushed, s.switched);
    assert LogEntries(logs, lf, lf + 1) == [] + logs[lf];
    assert [] + logs[lf] == logs[lf];
    assert LogBound(logs, lf + 1);
  }

  // ----- steps that leave the version and the change in progress alone -----

  lemma StableChange(s: State, m: Memory, s': State, m': Memory, e: Edit, next: Levels, flush: bool, bound: nat,
                     bound': nat)
    requires s.disk.records != [] && ChangeInv(s, m, e, next, flush, bound)
    requires m'.current == m.current && s'.disk.records == s.disk.records && s'.disk.tables == s.disk.tables
    requires s'.flushed == s.flushed && s.history <= s'.history && Oldest(m) <= Oldest(m')
    requires m.imm.Some? ==> m'.imm == m.imm && s'.switched == s.switched
    requires bound <= bound' <= m'.nextFile
    ensures ChangeInv(s', m', e, next, flush, bound')
  {
    RepresentsLater(next, s.history, s'.history[|s.history|..], Target(s, flush), Oldest(m), Oldest(m'));
    assert s.history + s'.history[|s.history|..] == s'.history;
  }

  ghost predicate SameVersions(s: State, m: Memory, s': State, m': Memory) {
    && s'.disk.base == s.disk.base && s'.disk.records == s.disk.records && s'.disk.tables == s.disk.tables
    && m'.current == m.current && m'.background == m.background && m'.logNumber == m.logNumber
    && (forall v | v in m'.pinned :: v in m.pinned)
    && s'.flushed == s.flushed && s'.durable == s.durable
    && s.history <= s'.history && Oldest(m) <= Oldest(m') && m.nextFile <= m'.nextFile
    && (m.imm.Some? ==> m'.imm == m.imm && s'.switched == s.switched && m'.logfileNumber == m.logfileNumber)
  }

  lemma StableBackground(s: State, m: Memory, s': State, m': Memory)
    requires s.disk.records != [] && BackgroundInv(s, m) && SameVersions(s, m, s', m')
    ensures BackgroundInv(s', m')
  {
    match m.background {
      case Resting =>
      case Built(e, next, flush) => StableChange(s, m, s', m', e, next, flush, m.nextFile, m'.nextFile);
      case Prepared(r, next, flush) => StableChange(s, m, s', m', r.edit, next, flush, r.nextFile, r.nextFile);
      case Appended(r, next, flush) =>
    }
  }

  lemma StableStep(s: State, m: Memory, s': State, m': Memory)
    requires RunningInv(s, m) && SameVersions(s, m, s', m')
    requires MemoryInv(s', m') && LogsInv(s', m') && SnapshotsInv(m')
    ensures RunningInv(s', m')
  {
    hide Represents, TablesPresent, SoundManifest, MemoryInv, LogsInv, SnapshotsInv, BackgroundInv, Edits;
    var more := s'.history[|s.history|..];
    assert s.history + more == s'.history;
    RepresentsLater(m.current, s.history, more, s.flushed, Oldest(m), Oldest(m'));
    RepresentsLater(DurableVersion(m), s.history, more, s.durable, Oldest(m), Oldest(m'));
    StableBackground(s, m, s', m');
  }

  // ----- the writer -----

  lemma NumberedGrows(h: seq<Entry>, g: seq<Entry>)
    requires Numbered(h) && forall i | 0 <= i < |g| :: g[i].key.sequence == |h| + 1 + i
    ensures Numbered(h + g)
  {
  }

  lemma WriterKeepsInv(s: State, m: Memory, a: Action, s': State)
    requires s.memory == Some(m) && Inv(s)
    requires (a.LogGroup? || a.InsertGroup? || a.Publish? || a.SwitchMemTable?) && WriterStep(s, m, a, s')
    ensures Inv(s')
  {
    hide ManifestInv, Represents, TablesPresent, BackgroundInv, LogEntries, NumbersUnder, LogBound;
    var m' := s'.memory.value;
    match a {
      case LogGroup(g) =>
        NumberedGrows(s.history, g);
        LogGroupKeepsLogs(s, m, g, s', m');
      case InsertGroup =>
        assert LogsInv(s', m') && MemoryInv(s', m');
      case Publish =>
        assert LogsInv(s', m') && MemoryInv(s', m');
      case SwitchMemTable =>
        SwitchKeepsLogs(s, m, s', m');
    }
    hide LogsInv, MemoryInv, Numbered;
    StableStep(s, m, s', m');
  }

  lemma LogGroupKeepsLogs(s: State, m: Memory, g: seq<Entry>, s': State, m': Memory)
    requires MemoryInv(s, m) && LogsInv(s, m) && WriterStep(s, m, LogGroup(g), s') && s'.memory == Some(m')
    ensures MemoryInv(s', m') && LogsInv(s', m')
  {
    LogEntriesAgree(s.disk.logs, s'.disk.logs, m.logNumber, m.logfileNumber);
    assert s'.history[s.switched..] == s.history[s.switched..] + g;
    assert s'.history[s.flushed..s.switched] == s.history[s.flushed..s.switched];
  }

  lemma SwitchKeepsLogs(s: State, m: Memory, s': State, m': Memory)
    requires MemoryInv(s, m) && LogsInv(s, m) && WriterStep(s, m, SwitchMemTable, s') && s'.memory == Some(m')
    ensures MemoryInv(s', m') && LogsInv(s', m')
  {
    var logs, lf := s.disk.logs, m.logfileNumber;
    LogEntriesAgree(logs, s'.disk.logs, m.logNumber, lf + 1);
    LogEntriesPastBound(logs, m.logNumber, lf + 1, m.nextFile);
    LogEntriesAgree(logs, s'.disk.logs, m.logNumber, m.nextFile);
    assert LogEntries(logs, m.logNumber, lf + 1) == LogEntries(logs, m.logNumber, lf) + logs[lf];
    assert s.history[s.flushed..s.switched] == [];
    assert s.history[s.switched..] == s.history[s.switched..|s.history|];
  }

  // ----- snapshots, pinned versions, file deletion -----

  lemma HousekeepingKeepsInv(s: State, m: Memory, a: Action, s': State)
    requires s.memory == Some(m) && Inv(s)
    requires (a.DeleteObsolete? || a.TakeSnapshot? || a.ReleaseSnapshot? || a.Unpin?) && HousekeepingStep(s, m, a, s')
    ensures Inv(s')
  {
    hide ManifestInv, Represents, TablesPresent, BackgroundInv, Numbered, LogEntries, NumbersUnder, LogBound;
    var m' := s'.memory.value;
    if a.DeleteObsolete? {
      DeletionKeepsInv(s, m, a.goneLogs, a.goneTables, s');
    } else {
      StableStep(s, m, s', m');
    }
  }

  lemma LiveTablesSurvive(m: Memory, v: Levels, tables: map<nat, seq<Entry>>, gone: set<nat>)
    requires v == m.current || v in m.pinned
    requires TablesPresent(v, tables) && forall n | n in gone :: !IsLive(m, n)
    ensures TablesPresent(v, tables - gone)
  {
    forall l, f | 0 <= l < NUM_LEVELS && f in v[l]
      ensures f.number !in gone
    {
      if v in m.pinned {
        var i :| 0 <= i < |m.pinned| && m.pinned[i] == v;
        assert f in m.pinned[i][l];
      }
      assert IsLive(m, f.number);
    }
  }

  /** DeleteObsoleteFiles removes no log that recovery needs and no table of a referenced version. */
  lemma DeletionKeepsInv(s: State, m: Memory, goneLogs: set<nat>, goneTables: set<nat>, s': State)
    requires s.memory == Some(m) && Inv(s) && HousekeepingStep(s, m, DeleteObsolete(goneLogs, goneTables), s')
    ensures Inv(s')
    ensures LogTail(s'.disk.logs, Last(s'.disk).logNumber, s'.history, s'.durable)
    ensures forall v | v == m.current || v in m.pinned :: TablesPresent(v, s'.disk.tables)
  {
    hide Represents, SoundManifest, Numbered, NumbersUnder;
    var m' := s'.memory.value;
    LogEntriesAgree(s.disk.logs, s'.disk.logs, m.logNumber, m.logfileNumber);
    LiveTablesSurvive(m, m.current, s.disk.tables, goneTables);
    forall v | v in m.pinned
      ensures TablesPresent(v, s'.disk.tables)
    {
      LiveTablesSurvive(m, v, s.disk.tables, goneTables);
    }
    RunningLogTail(s', m');
  }

  /** DeleteObsoleteFiles, run to its end, keeps the logs from the manifest's number on, the tables of referenced
      versions, and nothing else. */
  lemma OnlyNeededFilesStay(s: State, m: Memory) returns (goneLogs: set<nat>, goneTables: set<nat>, s': State)
    requires s.memory == Some(m) && Inv(s) && m.background.Resting?
    ensures Step(s, DeleteObsolete(goneLogs, goneTables), s') && Inv(s')
    ensures forall n: nat :: n in s'.disk.logs <==> n in s.disk.logs && m.logNumber <= n
    ensures forall n: nat :: n in s'.disk.tables <==> n in s.disk.tables && IsLive(m, n)
  {
    hide Inv, IsLive;
    goneLogs := set n | n in s.disk.logs && n < m.logNumber;
    goneTables := set n | n in s.disk.tables && !IsLive(m, n);
    s' := s.(disk := s.disk.(logs := s.disk.logs - goneLogs, tables := s.disk.tables - goneTables));
    DeletionKeepsInv(s, m, goneLogs, goneTables, s');
  }

  // ----- building a change -----

  lemma {:induction false} AddTablesKeeps(tables: map<nat, seq<Entry>>, files: seq<File>)
    requires forall i, j | 0 <= i < j < |files| :: files[i].number != files[j].number
    ensures forall f | f in files :: f.number in AddTables(tables, files)
              && AddTables(tables, files)[f.number] == f.entries
    ensures forall n | (forall f | f in files :: f.number != n) ::
              (n in AddTables(tables, files) <==> n in tables)
                  && (n in tables ==> AddTables(tables, files)[n] == tables[n])
  {
    if files != [] {
      var last := files[|files| - 1];
      AddTablesKeeps(tables, files[..|files| - 1]);
      assert files == files[..|files| - 1] + [last];
    }
  }

  lemma PresentAfterAdding(v: Levels, tables: map<nat, seq<Entry>>, files: seq<File>, bound: nat)
    requires TablesPresent(v, tables)
    requires NumbersUnder(v, bound)
    requires forall f | f in files :: bound <= f.number
    requires forall i, j | 0 <= i < j < |files| :: files[i].number != files[j].number
    ensures TablesPresent(v, AddTables(tables, files))
  {
    AddTablesKeeps(tables, files);
  }

  /** Files that a change leaves in place, plus files whose tables were just written. */
  lemma PresentAfterChange(v: Levels, e: Edit, v': Levels, tables: map<nat, seq<Entry>>)
    requires Saves(v, [e], v') && TablesPresent(v, tables)
    requires forall p | p in e.added :: p.1.number in tables && tables[p.1.number] == p.1.entries
    ensures TablesPresent(v', tables)
  {
    forall l, f | 0 <= l < NUM_LEVELS && f in v'[l]
      ensures f.number in tables && tables[f.number] == f.entries
    {
      StillThere(v, e, v', l, f);
      if f in AddedFiles(e, l) {
        var i :| 0 <= i < |e.added| && e.added[i].0 == l && e.added[i].1 == f;
        assert e.added[i] in e.added;
      }
    }
  }

  lemma PresentAt(v: Levels, tables: map<nat, seq<Entry>>, level: nat, f: File)
    requires TablesPresent(v, tables) && level < NUM_LEVELS && f in v[level]
    ensures f.number in tables && tables[f.number] == f.entries
  {
  }

  /** The state after a build step is right when the change it proposes is. */
  lemma BuiltIsInv(s: State, m: Memory, s': State, m': Memory, e: Edit, next: Levels, flush: bool)
    requires s.memory == Some(m) && Inv(s) && m.background.Resting?
    requires m' == m.(nextFile := m'.nextFile, background := Built(e, next, flush)) && m.nextFile <= m'.nextFile
    requires s' == s.(disk := s.disk.(tables := s'.disk.tables), memory := Some(m'))
    requires TablesPresent(m.current, s'.disk.tables) && forall v | v in m.pinned :: TablesPresent(v, s'.disk.tables)
    requires ChangeInv(s', m', e, next, flush, m'.nextFile)
    ensures Inv(s')
  {
    hide Represents, TablesPresent, SoundManifest, Saves, SoundAdditions, Numbered, LogEntries;
  }

  lemma LiveBelowNextFile(s: State, m: Memory)
    requires RunningInv(s, m) && !m.background.Appended?
    ensures NumbersUnder(m.current, Last(s.disk).nextFile) && Last(s.disk).nextFile <= m.nextFile
  {
    LiveNumbersBelow(s.disk.base, Edits(s.disk.records), m.current, Last(s.disk).nextFile);
  }

  lemma EmptyEditSaves(v: Levels, next: Levels)
    requires LevelsSorted(v) && Saves(v, [Edit({}, [])], next)
    ensures next == v
  {
    forall l | 0 <= l < NUM_LEVELS
      ensures next[l] == v[l]
    {
      OneEdit(Edit({}, []), l);
      assert AddedFiles(Edit({}, []), l) == {};
      assert DeletedNumbers(Edit({}, []), l) == {};
      SortedFilesUnique(next[l], v[l]);
    }
  }

  lemma ImmTabulated(s: State, m: Memory, f: File)
    requires MemoryInv(s, m) && m.imm.Some? && EntriesOf(f.entries) == EntriesOf(m.imm.value)
    ensures Tabulates(f, s.history, s.flushed, s.switched)
  {
    assert f.entries[0] in EntriesOf(m.imm.value);
  }

  lemma BuildTableKeepsInv(s: State, m: Memory, level: nat, f: File, next: Levels, s': State)
    requires s.memory == Some(m) && Inv(s) && BuildStep(s, m, BuildTable(level, Some(f), next), s')
    ensures Inv(s')
  {
    hide Represents, TablesPresent, SoundManifest, Numbered, LogEntries, Edits, Saves, AddTables;
    var m' := s'.memory.value;
    var e := FlushEdit(level, f);
    LiveBelowNextFile(s, m);
    ImmTabulated(s, m, f);
    FlushRepresents(m.current, s.history, s.flushed, s.switched, Oldest(m), level, f, next);
    PresentAfterAdding(m.current, s.disk.tables, [f], m.nextFile);
    OneTable(s.disk.tables, f);
    forall v | v in m.pinned
      ensures TablesPresent(v, s'.disk.tables)
    {
      PresentAfterAdding(v, s.disk.tables, [f], m.nextFile);
    }
    assert SoundAdditions(m.current, e, Last(s.disk).nextFile, m'.nextFile);
    PresentAfterChange(m.current, e, next, s'.disk.tables);
    BuiltIsInv(s, m, s', m', e, next, true);
  }

  lemma OneTable(tables: map<nat, seq<Entry>>, f: File)
    ensures AddTables(tables, [f]) == tables[f.number := f.entries]
  {
    assert [f][..0] == [];
  }

  lemma BuildNothingKeepsInv(s: State, m: Memory, level: nat, next: Levels, s': State)
    requires s.memory == Some(m) && Inv(s) && BuildStep(s, m, BuildTable(level, None, next), s')
    ensures Inv(s')
  {
    var m' := s'.memory.value;
    EmptyEditSaves(m.current, next);
    assert s.flushed == s.switched;
    BuiltIsInv(s, m, s', m', Edit({}, []), next, true);
  }

  lemma OutputNumbers(outputs: seq<File>, first: nat, v: Levels, level: nat, in0: seq<File>)
    requires forall i | 0 <= i < |outputs| :: outputs[i].number == first + i
    requires NumbersUnder(v, first)
    ensures FreeNumbers(v, level, in0, outputs)
    ensures forall f | f in outputs :: first <= f.number < first + |outputs|
    ensures forall i, j | 0 <= i < j < |outputs| :: outputs[i].number != outputs[j].number
  {
  }

  lemma OutputAdditionsSound(v: Levels, level: nat, in0: seq<File>, in1: seq<File>, outputs: seq<File>, bound: nat,
                             first: nat)
    requires level + 1 < NUM_LEVELS && bound <= first
    requires forall i | 0 <= i < |outputs| :: outputs[i].number == first + i
    ensures SoundAdditions(v, CompactionEdit(level, in0, in1, outputs), bound, first + |outputs|)
  {
    var e := CompactionEdit(level, in0, in1, outputs);
    forall p | p in e.added
      ensures p.0 < NUM_LEVELS && bound <= p.1.number < first + |outputs|
    {
      var i :| 0 <= i < |e.added| && e.added[i] == p;
      assert p == (level + 1, outputs[i]);
    }
  }

  /** The change a compaction proposes. */
  lemma OutputsChange(v: Levels, h: seq<Entry>, n: nat, level: nat, in0: seq<File>, in1: seq<File>, input: seq<Entry>,
                      outs: seq<seq<Entry>>, outputs: seq<File>, smallest: SequenceNumber, bound: nat, first: nat,
                          next: Levels)
    requires Represents(v, h, n, smallest) && NumbersUnder(v, first) && bound <= first
    requires Compacts(v, level, in0, in1, input, outs, outputs, smallest, first, next)
    ensures level + 1 < NUM_LEVELS && Saves(v, [CompactionEdit(level, in0, in1, outputs)], next)
    ensures Represents(next, h, n, smallest)
    ensures SoundAdditions(v, CompactionEdit(level, in0, in1, outputs), bound, first + |outputs|)
    ensures forall f | f in outputs :: first <= f.number
    ensures forall i, j | 0 <= i < j < |outputs| :: outputs[i].number != outputs[j].number
  {
    OutputNumbers(outputs, first, v, level, in0);
    CompactionRepresents(v, h, n, level, in0, in1, input, outs, outputs, smallest, next);
    OutputAdditionsSound(v, level, in0, in1, outputs, bound, first);
  }

  lemma BuildOutputsKeepsInv(s: State, m: Memory, level: nat, in0: seq<File>, in1: seq<File>, input: seq<Entry>,
                             outs: seq<seq<Entry>>, outputs: seq<File>, next: Levels, s': State)
    requires s.memory == Some(m) && Inv(s)
    requires BuildStep(s, m, BuildOutputs(level, in0, in1, input, outs, outputs, next), s')
    ensures Inv(s')
  {
    hide Compacts, Represents, SoundManifest, SoundAdditions, Saves, Numbered, LogEntries, AddTables, MemoryInv,
         LogsInv, SnapshotsInv;
    var m' := s'.memory.value;
    var e := CompactionEdit(level, in0, in1, outputs);
    OutputsChange(m.current, s.history, s.flushed, level, in0, in1, input, outs, outputs, Oldest(m),
                  Last(s.disk).nextFile, m.nextFile, next);
    OutputTablesPresent(m.current, e, next, s.disk.tables, outputs, level + 1, m.nextFile);
    forall v | v in m.pinned
      ensures TablesPresent(v, s'.disk.tables)
    {
      PresentAfterAdding(v, s.disk.tables, outputs, m.nextFile);
    }
    BuiltIsInv(s, m, s', m', e, next, false);
  }

  lemma OutputTablesPresent(v: Levels, e: Edit, next: Levels, tables: map<nat, seq<Entry>>, outputs: seq<File>,
                            level: nat, first: nat)
    requires Saves(v, [e], next) && TablesPresent(v, tables) && NumbersUnder(v, first)
    requires e.added == LevelAdditions(outputs, level)
    requires forall f | f in outputs :: first <= f.number
    requires forall i, j | 0 <= i < j < |outputs| :: outputs[i].number != outputs[j].number
    ensures TablesPresent(v, AddTables(tables, outputs)) && TablesPresent(next, AddTables(tables, outputs))
  {
    PresentAfterAdding(v, tables, outputs, first);
    AddTablesKeeps(tables, outputs);
    AdditionsOf(outputs, level);
    PresentAfterChange(v, e, next, AddTables(tables, outputs));
  }

  lemma AdditionsOf(files: seq<File>, level: nat)
    ensures forall p | p in LevelAdditions(files, level) :: p.0 == level && p.1 in files
  {
  }

  lemma MoveKeepsInv(s: State, m: Memory, level: nat, f: File, next: Levels, s': State)
    requires s.memory == Some(m) && Inv(s) && BuildStep(s, m, MoveFile(level, f, next), s')
    ensures Inv(s')
  {
    hide Represents, TablesPresent, SoundManifest, Numbered, LogEntries, Edits, Saves;
    var m' := s'.memory.value;
    var e := CompactionEdit(level, [f], [], [f]);
    LiveBelowNextFile(s, m);
    MoveRepresents(m.current, s.history, s.flushed, level, f, Oldest(m), next);
    assert f in [f];
    assert f in m.current[level];
    PresentAt(m.current, s.disk.tables, level, f);
    AdditionsOf([f], level + 1);
    assert SoundAdditions(m.current, e, Last(s.disk).nextFile, m.nextFile);
    PresentAfterChange(m.current, e, next, s'.disk.tables);
    BuiltIsInv(s, m, s', m', e, next, false);
  }

  // ----- manifest append and installation -----

  lemma EditsAppend(records: seq<Record>, r: Record)
    ensures Edits(records + [r]) == Edits(records) + [r.edit]
  {
    assert (records + [r])[..|records|] == records;
  }

  lemma PrepareKeepsInv(s: State, m: Memory, s': State)
    requires s.memory == Some(m) && Inv(s) && ManifestStep(s, m, PrepareRecord, s')
    ensures Inv(s')
  {
    hide Represents, TablesPresent, SoundManifest, Numbered, LogEntries, Edits, Saves, SoundAdditions;
  }

  lemma AppendedManifest(d: Disk, v: Levels, h: seq<Entry>, n: nat, smallest: nat, r: Record, v': Levels, n': nat)
    requires ManifestInv(d, v, n, h, smallest)
    requires Saves(v, [r.edit], v') && Represents(v', h, n', smallest) && TablesPresent(v', d.tables)
    requires SoundAdditions(v, r.edit, Last(d).nextFile, r.nextFile)
    requires r.logNumber < r.nextFile && n' <= r.lastSequence <= |h|
    ensures ManifestInv(d.(records := d.records + [r]), v', n', h, smallest)
    ensures Last(d.(records := d.records + [r])) == r
  {
    EditsAppend(d.records, r);
    SoundManifestExtends(d.base, Edits(d.records), v, r.edit, v', Last(d).nextFile, r.nextFile);
  }

  lemma AppendKeepsInv(s: State, m: Memory, s': State)
    requires s.memory == Some(m) && Inv(s) && ManifestStep(s, m, AppendRecord, s')
    ensures Inv(s')
  {
    var b := m.background;
    hide SoundManifest, Represents, TablesPresent, SoundAdditions, Saves, NumbersUnder;
    AppendedManifest(s.disk, m.current, s.history, s.durable, Oldest(m), b.record, b.next, Target(s, b.flush));
  }

  lemma InstallKeepsInv(s: State, m: Memory, pin: bool, s': State)
    requires s.memory == Some(m) && Inv(s) && ManifestStep(s, m, Install(pin), s')
    ensures Inv(s')
  {
    hide Represents, TablesPresent, SoundManifest, Numbered, Edits, Saves, SoundAdditions;
    var b := m.background;
    LiveNumbersBelow(s.disk.base, Edits(s.disk.records), b.next, Last(s.disk).nextFile);
    assert b.flush ==> LogEntries(s.disk.logs, m.logfileNumber, m.logfileNumber) == [];
    assert b.flush ==> s.history[s.switched..s.switched] == [];
  }

  // ----- crash and recovery -----

  lemma RepresentsWeaken(v: Levels, h: seq<Entry>, n: nat, smallest: int, smallest': int)
    requires Represents(v, h, n, smallest) && smallest <= smallest'
    ensures Represents(v, h, n, smallest')
  {
    RepresentsLater(v, h, [], n, smallest, smallest');
    assert h + [] == h;
  }

  lemma CrashKeepsInv(s: State, m: Memory, s': State)
    requires s.memory == Some(m) && Inv(s) && s' == s.(memory := None)
    ensures Inv(s')
  {
    RunningLogTail(s, m);
    RepresentsWeaken(DurableVersion(m), s.history, s.durable, Oldest(m), |s.history|);
    assert DiskInv(s'.disk, DurableVersion(m), s'.durable, s'.history, |s'.history|);
  }

  lemma AbandonKeepsInv(s: State, newLog: nat, tables: map<nat, seq<Entry>>, s': State)
    requires Inv(s) && RestartStep(s, AbandonRecovery(newLog, tables), s')
    ensures Inv(s')
  {
    var v :| DiskInv(s.disk, v, s.durable, s.history, |s.history|);
    var lo := Last(s.disk).logNumber;
    var hi: nat :| LogBound(s.disk.logs, hi) && LogEntries(s.disk.logs, lo, hi) == s.history[s.durable..];
    var hi' := hi + newLog + 1;
    LogEntriesPastBound(s.disk.logs, lo, hi, hi');
    LogEntriesAgree(s.disk.logs, s'.disk.logs, lo, hi');
    assert LogBound(s'.disk.logs, hi');
    LiveNumbersBelow(s.disk.base, Edits(s.disk.records), v, Last(s.disk).nextFile);
    assert TablesPresent(v, s'.disk.tables);
    assert DiskInv(s'.disk, v, s'.durable, s'.history, |s'.history|);
  }

  lemma {:induction false} MaxSequenceOfTail(h: seq<Entry>, n: nat, m: nat, start: nat)
    requires Numbered(h) && n <= m <= |h|
    ensures MaxSequence(h[n..m], start) == if n < m && start < m then m else start
  {
    if n < m {
      assert h[n..m][..m - n - 1] == h[n..m - 1];
      MaxSequenceOfTail(h, n, m - 1, start);
    }
  }

  /** Whatever a crash left behind, recovery reads back the described version with all its tables, and the
      remaining logs replay exactly the writes that version lacks. */
  lemma RecoveryFindsEverything(s: State, w: Levels, hi: nat)
    requires s.memory.None? && Inv(s)
    requires Saves(EMPTY_VERSION, [SnapshotOf(s.disk.base)] + Edits(s.disk.records), w) && LogBound(s.disk.logs, hi)
    ensures DiskInv(s.disk, w, s.durable, s.history, |s.history|)
    ensures LogEntries(s.disk.logs, Last(s.disk).logNumber, hi) == s.history[s.durable..]
    ensures MaxSequence(s.history[s.durable..], Last(s.disk).lastSequence) == |s.history|
    ensures SameReadsFrom(Contents(w) + EntriesOf(s.history[s.durable..]), EntriesOf(s.history), |s.history|)
  {
    var v :| DiskInv(s.disk, v, s.durable, s.history, |s.history|);
    SoundManifestRecovers(s.disk.base, Edits(s.disk.records), v, Last(s.disk).nextFile, w);
    var lo := Last(s.disk).logNumber;
    var hi': nat :| LogBound(s.disk.logs, hi') && LogEntries(s.disk.logs, lo, hi') == s.history[s.durable..];
    AnyBound(s.disk.logs, lo, hi, hi');
    MaxSequenceOfTail(s.history, s.durable, |s.history|, Last(s.disk).lastSequence);
    RepresentedExtends(w, s.history, s.durable, |s.history|, |s.history|);
    assert s.history[..|s.history|] == s.history;
    assert s.history[s.durable..|s.history|] == s.history[s.durable..];
  }

  lemma TabulatedLogsAreRecovered(files: seq<File>, cuts: seq<nat>, h: seq<Entry>, n: nat, first: nat)
    returns (shifted: seq<nat>)
    requires n <= |h| && TabulateLogs(files, cuts, h[n..], first)
    ensures RecoveredTables(files, shifted, h, n)
  {
    shifted := seq(|cuts|, i requires 0 <= i < |cuts| => n + cuts[i]);
    forall i | 0 <= i < |files|
      ensures Tabulates(files[i], h, shifted[i], shifted[i + 1])
    {
      assert Tabulates(files[i], h[n..], cuts[i], cuts[i + 1]);
      assert h[n..][cuts[i]..cuts[i + 1]] == h[shifted[i]..shifted[i + 1]];
    }
  }

  lemma RecoveryAdditionsSound(v: Levels, files: seq<File>, bound: nat, nextFile: nat)
    requires bound <= nextFile
    requires forall i | 0 <= i < |files| :: bound <= files[i].number < nextFile
    requires forall i, j | 0 <= i < j < |files| :: files[i].number < files[j].number
    ensures SoundAdditions(v, RecoveryEdit(files), bound, nextFile)
  {
    var e := RecoveryEdit(files);
    forall p | p in e.added
      ensures p.0 < NUM_LEVELS && bound <= p.1.number < nextFile
    {
      var i :| 0 <= i < |e.added| && e.added[i] == p;
      assert p == (0, files[i]);
    }
  }

  /** The manifest recovery writes is sound for the version it installs. */
  lemma RecoveredManifest(v: Levels, files: seq<File>, bound: nat, r: Record, next: Levels, h: seq<Entry>,
                          logs: map<nat, seq<Entry>>, tables: map<nat, seq<Entry>>)
    requires WellFormed(v) && NumbersUnder(v, bound) && TablesPresent(v, tables)
    requires r.edit == RecoveryEdit(files) && Saves(v, [r.edit], next) && Represents(next, h, |h|, |h|)
    requires forall i | 0 <= i < |files| :: bound <= files[i].number < r.nextFile
    requires forall i, j | 0 <= i < j < |files| :: files[i].number < files[j].number
    requires bound <= r.nextFile && r.logNumber < r.nextFile && r.lastSequence == |h|
    ensures ManifestInv(Disk(v, [r], logs, AddTables(tables, files)), next, |h|, h, |h|)
  {
    FreshManifestIsSound(v, bound);
    RecoveryAdditionsSound(v, files, bound, r.nextFile);
    SoundManifestExtends(v, [], v, r.edit, next, bound, r.nextFile);
    assert [r][..0] == [] && [] + [r.edit] == [r.edit];
    assert Edits([r]) == [r.edit];
    OutputTablesPresent(v, r.edit, next, tables, files, 0, bound);
  }

  lemma RecoverKeepsInv(s: State, v: Levels, hi: nat, files: seq<File>, cuts: seq<nat>, newLog: nat, nextFile: nat,
                        next: Levels, s': State)
    requires Inv(s) && RestartStep(s, Recover(v, hi, files, cuts, newLog, nextFile, next), s')
    ensures Inv(s')
    ensures s'.history == s.history && s'.flushed == |s.history|
  {
    hide SoundManifest, RecoveredTables, SameReadsFrom, Contents, EntriesOf, Saves, LevelInvariant;
    var last, h := Last(s.disk), s.history;
    RecoveryFindsEverything(s, v, hi);
    var shifted := TabulatedLogsAreRecovered(files, cuts, h, s.durable, last.nextFile + 1);
    LiveNumbersBelow(s.disk.base, Edits(s.disk.records), v, last.nextFile);
    RecoveryRepresents(v, h, s.durable, |h|, files, shifted, next);
    var r := Last(s'.disk);
    RecoveredManifest(v, files, last.nextFile, r, next, h, s'.disk.logs, s.disk.tables);
    RecoveredIsRunning(s', s'.memory.value, next, r);
  }

  lemma RecoveredIsRunning(s: State, m: Memory, next: Levels, r: Record)
    requires m == Memory([], None, next, [], r.logNumber, r.logNumber, r.nextFile, |s.history|, [], Idle, Resting)
    requires Numbered(s.history) && |s.history| < MAX_SEQUENCE && s.acknowledged <= |s.history|
    requires s.memory == Some(m) && s.flushed == s.durable == s.switched == |s.history|
    requires s.disk.records == [r] && ManifestInv(s.disk, next, |s.history|, s.history, |s.history|)
    requires r.logNumber in s.disk.logs && s.disk.logs[r.logNumber] == [] && LogBound(s.disk.logs, r.logNumber + 1)
    ensures Inv(s)
  {
    assert Last(s.disk) == r;
    LiveNumbersBelow(s.disk.base, Edits(s.disk.records), next, r.nextFile);
    assert LogEntries(s.disk.logs, m.logNumber, m.logfileNumber) == [];
    assert s.history[|s.history|..] == [] && s.history[|s.history|..|s.history|] == [];
  }

  // ----- whole runs -----

  lemma StepKeepsInv(s: State, a: Action, s': State)
    requires Inv(s) && Step(s, a, s')
    ensures Inv(s')
  {
    hide Inv, WriterStep, BuildStep, ManifestStep, HousekeepingStep, RestartStep;
    match a {
      case AbandonRecovery(newLog, tables) => AbandonKeepsInv(s, newLog, tables, s');
      case Recover(v, hi, files, cuts, newLog, nextFile, next) => RecoverKeepsInv(s, v, hi, files, cuts, newLog,
          nextFile, next, s');
      case Crash => CrashKeepsInv(s, s.memory.value, s');
      case LogGroup(_) => WriterKeepsInv(s, s.memory.value, a, s');
      case InsertGroup => WriterKeepsInv(s, s.memory.value, a, s');
      case Publish => WriterKeepsInv(s, s.memory.value, a, s');
      case SwitchMemTable => WriterKeepsInv(s, s.memory.value, a, s');
      case BuildTable(level, None, next) => BuildNothingKeepsInv(s, s.memory.value, level, next, s');
      case BuildTable(level, Some(f), next) => BuildTableKeepsInv(s, s.memory.value, level, f, next, s');
      case BuildOutputs(level, in0, in1, input, outs, outputs, next) =>
        BuildOutputsKeepsInv(s, s.memory.value, level, in0, in1, input, outs, outputs, next, s');
      case MoveFile(level, f, next) => MoveKeepsInv(s, s.memory.value, level, f, next, s');
      case PrepareRecord => PrepareKeepsInv(s, s.memory.value, s');
      case AppendRecord => AppendKeepsInv(s, s.memory.value, s');
      case Install(pin) => InstallKeepsInv(s, s.memory.value, pin, s');
      case DeleteObsolete(_, _) => HousekeepingKeepsInv(s, s.memory.value, a, s');
      case TakeSnapshot => HousekeepingKeepsInv(s, s.memory.value, a, s');
      case ReleaseSnapshot(_) => HousekeepingKeepsInv(s, s.memory.value, a, s');
      case Unpin(_) => HousekeepingKeepsInv(s, s.memory.value, a, s');
    }
  }

  lemma EmptyIsWellFormed()
    ensures WellFormed(EMPTY_VERSION)
  {
    assert forall l | 0 <= l < NUM_LEVELS :: EMPTY_VERSION[l] == [];
  }

  lemma EmptyHoldsNothing()
    ensures Contents(EMPTY_VERSION) == iset{} && EntriesOf([][..0]) == iset{}
  {
    assert forall l | 0 <= l < NUM_LEVELS :: EMPTY_VERSION[l] == [];
  }

  lemma EmptyVersionRepresentsNothing()
    ensures Represents(EMPTY_VERSION, [], 0, 0)
  {
    EmptyIsWellFormed();
    EmptyHoldsNothing();
    hide Contents, EntriesOf, WellFormed;
  }

  lemma EmptyEditSavesEmpty()
    ensures Saves(EMPTY_VERSION, [Edit({}, [])], EMPTY_VERSION)
  {
    forall l | 0 <= l < NUM_LEVELS
      ensures AllAdded([Edit({}, [])], l) == {} && AllDeleted([Edit({}, [])], l) == {}
    {
      OneEdit(Edit({}, []), l);
    }
  }

  lemma InitHasInv(s: State)
    requires Init(s)
    ensures Inv(s)
  {
    var v, e := EMPTY_VERSION, Edit({}, []);
    assert forall l | 0 <= l < NUM_LEVELS :: v[l] == [];
    EmptyIsSorted();
    EmptyEditSavesEmpty();
    EmptyVersionRepresentsNothing();
    FreshManifestIsSound(v, 2);
    SoundManifestExtends(v, [], v, e, v, 2, 2);
    assert s.disk.records[..0] == [] && [] + [e] == [e];
    assert Edits(s.disk.records) == [e];
    assert LogEntries(s.disk.logs, 0, 0) == [][0..];
    assert LogBound(s.disk.logs, 0);
    assert DiskInv(s.disk, v, 0, [], 0);
  }

  ghost predicate Run(states: seq<State>, actions: seq<Action>) {
    && |states| == |actions| + 1 && Init(states[0])
    && forall i | 0 <= i < |actions| :: Step(states[i], actions[i], states[i + 1])
  }

  lemma {:induction false} RunKeepsInv(states: seq<State>, actions: seq<Action>, n: nat)
    requires Run(states, actions) && n < |states|
    ensures Inv(states[n])
  {
    hide Step, Inv, Init;
    if n == 0 {
      InitHasInv(states[0]);
    } else {
      RunKeepsInv(states, actions, n - 1);
      StepKeepsInv(states[n - 1], actions[n - 1], states[n]);
    }
  }
}
