/** The database as a state machine over its disk and its memory: group logging, memtable switch, flush,
    compaction, manifest append, installation, file deletion, snapshots, crash and recovery
    (db/db_impl.cc). Each action is what happens between two points where the mutex changes hands or the
    process may die. I/O errors do not occur; a log record torn by a crash is one that was never logged. */
module Durability {
  import opened InternalKeys
  import opened SnapshotReads
  import opened Versions
  import opened Selection
  import opened Compaction
  import opened Manifest
  import opened ManifestGrowth
  import opened LevelChanges
  import opened CompactionReads
  import opened HistoryReads

  /** What LogAndApply appends to the manifest; every record carries all three numbers. */
  datatype Record = Record(edit: Edit, logNumber: nat, nextFile: nat, lastSequence: nat)

  /** `base` is the version written by WriteSnapshot at the head of the manifest CURRENT points to. */
  datatype Disk = Disk(base: Levels, records: seq<Record>, logs: map<nat, seq<Entry>>, tables: map<nat, seq<Entry>>)

  /** The writer at the front of the queue. */
  datatype Writer = Idle | Logged(group: seq<Entry>) | Inserted(group: seq<Entry>)

  /** The background thread: LogAndApply fills in the record, appends it unlocked, then installs. */
  datatype Background =
    | Resting
    | Built(edit: Edit, next: Levels, flush: bool)
    | Prepared(record: Record, next: Levels, flush: bool)
    | Appended(record: Record, next: Levels, flush: bool)

  datatype Memory = Memory(
    mem: seq<Entry>,
    imm: Option<seq<Entry>>,
    current: Levels,
    pinned: seq<Levels>,
    logNumber: nat,
    logfileNumber: nat,
    nextFile: nat,
    lastSequence: nat,
    snapshots: seq<nat>,
    writer: Writer,
    background: Background)

  /** `history` is every write ever logged; the current version represents its first `flushed` writes, the
      version the manifest describes its first `durable`, and the memtable starts after `switched`. */
  datatype State = State(
    disk: Disk,
    memory: Option<Memory>,
    history: seq<Entry>,
    flushed: nat,
    durable: nat,
    switched: nat,
    acknowledged: nat)

  function Edits(records: seq<Record>): (es: seq<Edit>)
    ensures |es| == |records|
  {
    if records == [] then [] else Edits(records[..|records| - 1]) + [records[|records| - 1].edit]
  }

  function Last(d: Disk): Record
    requires d.records != []
  {
    d.records[|d.records| - 1]
  }

  /** The oldest snapshot a compaction must preserve: snapshots_.oldest() or LastSequence(). */
  function Oldest(m: Memory): nat {
    if m.snapshots == [] then m.lastSequence else m.snapshots[0]
  }

  /** The logs numbered lo .. hi-1, in the order of their numbers. */
  function LogEntries(logs: map<nat, seq<Entry>>, lo: nat, hi: nat): seq<Entry> {
    if hi <= lo then [] else LogEntries(logs, lo, hi - 1) + if hi - 1 in logs then logs[hi - 1] else []
  }

  function MaxSequence(es: seq<Entry>, start: nat): nat {
    if es == [] then start
    else
      var front := MaxSequence(es[..|es| - 1], start);
      var s := es[|es| - 1].key.sequence;
      if front < s then s else front
  }

  ghost predicate TablesPresent(v: Levels, tables: map<nat, seq<Entry>>) {
    forall l, f | 0 <= l < NUM_LEVELS && f in v[l] :: f.number in tables && tables[f.number] == f.entries
  }

  function AddTables(tables: map<nat, seq<Entry>>, files: seq<File>): map<nat, seq<Entry>> {
    if files == [] then tables
    else AddTables(tables, files[..|files| - 1])[files[|files| - 1].number := files[|files| - 1].entries]
  }

  ghost predicate LogBound(logs: map<nat, seq<Entry>>, hi: nat) {
    forall n | n in logs :: n < hi
  }

  ghost predicate IsLive(m: Memory, number: nat) {
    || (exists l, f :: 0 <= l < NUM_LEVELS && f in m.current[l] && f.number == number)
    || (exists i, l, f :: 0 <= i < |m.pinned| && 0 <= l < NUM_LEVELS && f in m.pinned[i][l] && f.number == number)
  }

  datatype Action =
    | LogGroup(group: seq<Entry>)
    | InsertGroup
    | Publish
    | SwitchMemTable
    | BuildTable(level: nat, file: Option<File>, next: Levels)
    | BuildOutputs(level: nat, in0: seq<File>, in1: seq<File>, input: seq<Entry>, outs: seq<seq<Entry>>,
        outputs: seq<File>, next: Levels)
    | MoveFile(level: nat, moved: File, next: Levels)
    | PrepareRecord
    | AppendRecord
    | Install(pin: bool)
    | DeleteObsolete(goneLogs: set<nat>, goneTables: set<nat>)
    | TakeSnapshot
    | ReleaseSnapshot(index: nat)
    | Unpin(index: nat)
    | Crash
    | AbandonRecovery(newLog: nat, tables: map<nat, seq<Entry>>)
    | Recover(version: Levels, hi: nat, files: seq<File>, cuts: seq<nat>, newLog: nat, nextFile: nat, next: Levels)

  /** DB creation: NewDB's manifest and nothing else. */
  ghost predicate Init(s: State) {
    s == State(Disk(EMPTY_VERSION, [Record(Edit({}, []), 0, 2, 0)], map[], map[]), None, [], 0, 0, 0, 0)
  }

  ghost predicate WriterStep(s: State, m: Memory, a: Action, s': State)
    requires a.LogGroup? || a.InsertGroup? || a.Publish? || a.SwitchMemTable?
  {
    match a
    case LogGroup(g) =>
      && m.writer.Idle? && m.logfileNumber in s.disk.logs
      && m.lastSequence + |g| < MAX_SEQUENCE
      && (forall i | 0 <= i < |g| :: g[i].key.sequence == m.lastSequence + 1 + i)
      && s' == s.(disk := s.disk.(logs := s.disk.logs[m.logfileNumber := s.disk.logs[m.logfileNumber] + g]),
                  memory := Some(m.(writer := Logged(g))),
                  history := s.history + g)
    case InsertGroup =>
      && m.writer.Logged?
      && s' == s.(memory := Some(m.(mem := m.mem + m.writer.group, writer := Inserted(m.writer.group))))
    case Publish =>
      && m.writer.Inserted?
      && s' == s.(memory := Some(m.(lastSequence := m.lastSequence + |m.writer.group|, writer := Idle)),
                  acknowledged := m.lastSequence + |m.writer.group|)
    case SwitchMemTable =>
      && m.writer.Idle? && m.imm.None?
      && s' == s.(disk := s.disk.(logs := s.disk.logs[m.nextFile := []]),
                  memory := Some(m.(mem := [], imm := Some(m.mem), logfileNumber := m.nextFile,
                                 nextFile := m.nextFile + 1)),
                  switched := m.lastSequence)
  }

  /** `outputs` and `next` are what DoCompactionWork and LogAndApply make of selected inputs, with new file
      numbers from `first` on, in a compaction that exposes no marker. */
  ghost predicate Compacts(v: Levels, level: nat, in0: seq<File>, in1: seq<File>, input: seq<Entry>,
                           outs: seq<seq<Entry>>,
                           outputs: seq<File>, smallest: SequenceNumber, first: nat, next: Levels) {
    && ValidInputs(v, level, in0, in1) && Merges(input, in0, in1)
    && Flatten(outs) == Survivors(input, |input|, smallest, BaseKeys(v, level))
    && Carry(outputs, outs)
    && (forall i | 0 <= i < |outputs| :: outputs[i].number == first + i)
    && NoExposedMarker(v, level, in0, in1, smallest)
    && Saves(v, [CompactionEdit(level, in0, in1, outputs)], next)
  }

  ghost predicate BuildStep(s: State, m: Memory, a: Action, s': State)
    requires a.BuildTable? || a.BuildOutputs? || a.MoveFile?
  {
    && m.background.Resting?
    && match a
       case BuildTable(level, None, next) =>
         && m.imm == Some([]) && Saves(m.current, [Edit({}, [])], next)
         && s' == s.(memory := Some(m.(nextFile := m.nextFile + 1, background := Built(Edit({}, []), next, true))))
       case BuildTable(level, Some(f), next) =>
         && m.imm.Some? && EntriesOf(f.entries) == EntriesOf(m.imm.value)
         && f.number == m.nextFile
         && SafeLevel(m.current, level, f.Smallest().userKey, f.Largest().userKey)
         && Saves(m.current, [FlushEdit(level, f)], next)
         && s' == s.(disk := s.disk.(tables := s.disk.tables[f.number := f.entries]),
                     memory := Some(m.(nextFile := m.nextFile + 1,
                                    background := Built(FlushEdit(level, f), next, true))))
       case BuildOutputs(level, in0, in1, input, outs, outputs, next) =>
         && m.imm.None? && Oldest(m) < MAX_SEQUENCE
         && Compacts(m.current, level, in0, in1, input, outs, outputs, Oldest(m), m.nextFile, next)
         && s' == s.(disk := s.disk.(tables := AddTables(s.disk.tables, outputs)),
                     memory := Some(m.(nextFile := m.nextFile + |outputs|,
                                       background := Built(CompactionEdit(level, in0, in1, outputs), next, false))))
       case MoveFile(level, f, next) =>
         && m.imm.None? && ValidInputs(m.current, level, [f], [])
         && Saves(m.current, [CompactionEdit(level, [f], [], [f])], next)
         && s' == s.(memory := Some(m.(background := Built(CompactionEdit(level, [f], [], [f]), next, false))))
  }

  ghost predicate ManifestStep(s: State, m: Memory, a: Action, s': State)
    requires a.PrepareRecord? || a.AppendRecord? || a.Install?
  {
    match a
    case PrepareRecord =>
      && m.background.Built?
      && var b := m.background;
         var record := Record(b.edit, if b.flush then m.logfileNumber else m.logNumber, m.nextFile, m.lastSequence);
         s' == s.(memory := Some(m.(background := Prepared(record, b.next, b.flush))))
    case AppendRecord =>
      && m.background.Prepared?
      && var b := m.background;
         s' == s.(disk := s.disk.(records := s.disk.records + [b.record]),
                  memory := Some(m.(background := Appended(b.record, b.next, b.flush))),
                  durable := if b.flush then s.switched else s.flushed)
    case Install(pin) =>
      && m.background.Appended?
      && var b := m.background;
         s' == s.(memory := Some(m.(current := b.next,
                                    pinned := if pin then m.pinned + [m.current] else m.pinned,
                                    logNumber := b.record.logNumber,
                                    imm := if b.flush then None else m.imm,
                                    background := Resting)),
                  flushed := s.durable)
  }

  ghost predicate HousekeepingStep(s: State, m: Memory, a: Action, s': State)
    requires a.DeleteObsolete? || a.TakeSnapshot? || a.ReleaseSnapshot? || a.Unpin?
  {
    match a
    case DeleteObsolete(goneLogs, goneTables) =>
      && m.background.Resting?
      && (forall n | n in goneLogs :: n < m.logNumber)
      && (forall n | n in goneTables :: !IsLive(m, n))
      && s' == s.(disk := s.disk.(logs := s.disk.logs - goneLogs, tables := s.disk.tables - goneTables))
    case TakeSnapshot =>
      s' == s.(memory := Some(m.(snapshots := m.snapshots + [m.lastSequence])))
    case ReleaseSnapshot(i) =>
      && i < |m.snapshots|
      && s' == s.(memory := Some(m.(snapshots := m.snapshots[..i] + m.snapshots[i + 1..])))
    case Unpin(i) =>
      && i < |m.pinned|
      && s' == s.(memory := Some(m.(pinned := m.pinned[..i] + m.pinned[i + 1..])))
  }

  /** Tables holding consecutive slices of the replayed log entries. */
  ghost predicate TabulateLogs(files: seq<File>, cuts: seq<nat>, replayed: seq<Entry>, firstNumber: nat) {
    && |cuts| == |files| + 1 && cuts[0] == 0 && cuts[|files|] == |replayed|
    && (forall i | 0 <= i < |files| :: Tabulates(files[i], replayed, cuts[i], cuts[i + 1]))
    && (forall i | 0 <= i < |files| :: firstNumber <= files[i].number)
    && (forall i, j | 0 <= i < j < |files| :: files[i].number < files[j].number)
  }

  ghost predicate RestartStep(s: State, a: Action, s': State)
    requires a.AbandonRecovery? || a.Recover?
  {
    && s.memory.None? && s.disk.records != []
    && match a
       case AbandonRecovery(newLog, tables) =>
         // died before CURRENT was switched: some tables with new numbers and perhaps an empty log are left
         && newLog !in s.disk.logs && Last(s.disk).nextFile < newLog
         && (forall n | 0 <= n <= Last(s.disk).nextFile :: (n in tables <==> n in s.disk.tables)
              && (n in tables ==> tables[n] == s.disk.tables[n]))
         && s' == s.(disk := s.disk.(logs := s.disk.logs[newLog := []], tables := tables))
       case Recover(v, hi, files, cuts, newLog, nextFile, next) =>
         var last := Last(s.disk);
         && Saves(EMPTY_VERSION, [SnapshotOf(s.disk.base)] + Edits(s.disk.records), v)
         && TablesPresent(v, s.disk.tables)
         && LogBound(s.disk.logs, hi)
         && var replayed := LogEntries(s.disk.logs, last.logNumber, hi);
            var lastSequence := MaxSequence(replayed, last.lastSequence);
            && TabulateLogs(files, cuts, replayed, last.nextFile + 1)
            && hi <= newLog && last.nextFile < newLog < nextFile
            && (forall i | 0 <= i < |files| :: files[i].number < nextFile)
            && Saves(v, [RecoveryEdit(files)], next)
            && s' == s.(disk := Disk(v, [Record(RecoveryEdit(files), newLog, nextFile, lastSequence)],
                                     s.disk.logs[newLog := []], AddTables(s.disk.tables, files)),
                        memory := Some(Memory([], None, next, [], newLog, newLog, nextFile, lastSequence, [], Idle,
                                       Resting)),
                        flushed := lastSequence, durable := lastSequence, switched := lastSequence)
  }

  ghost predicate Step(s: State, a: Action, s': State) {
    if a.AbandonRecovery? || a.Recover? then RestartStep(s, a, s')
    else
      && s.memory.Some?
      && var m := s.memory.value;
         if a.Crash? then s' == s.(memory := None)
         else if a.LogGroup? || a.InsertGroup? || a.Publish? || a.SwitchMemTable? then WriterStep(s, m, a, s')
         else if a.BuildTable? || a.BuildOutputs? || a.MoveFile? then BuildStep(s, m, a, s')
         else if a.PrepareRecord? || a.AppendRecord? || a.Install? then ManifestStep(s, m, a, s')
         else HousekeepingStep(s, m, a, s')
  }

  // ----- the invariant -----

  /** The logs from number lo on hold exactly the writes after the first n. */
  ghost predicate LogTail(logs: map<nat, seq<Entry>>, lo: nat, h: seq<Entry>, n: nat) {
    n <= |h| && exists hi :: LogBound(logs, hi) && LogEntries(logs, lo, hi) == h[n..]
  }

  /** The manifest describes `v`, its tables are all on disk, and `v` represents the first n writes. */
  ghost predicate ManifestInv(d: Disk, v: Levels, n: nat, h: seq<Entry>, smallest: nat) {
    && d.records != []
    && SoundManifest(d.base, Edits(d.records), v, Last(d).nextFile)
    && Represents(v, h, n, smallest)
    && TablesPresent(v, d.tables)
    && Last(d).logNumber < Last(d).nextFile
    && n <= Last(d).lastSequence <= |h|
  }

  /** What recovery needs: a manifest describing the first n writes and logs holding the rest. */
  ghost predicate DiskInv(d: Disk, v: Levels, n: nat, h: seq<Entry>, smallest: nat) {
    && ManifestInv(d, v, n, h, smallest)
    && LogTail(d.logs, Last(d).logNumber, h, n)
  }

  /** How the memtables and the log files share out the history. */
  ghost predicate MemoryInv(s: State, m: Memory) {
    && s.flushed <= s.switched <= m.lastSequence <= |s.history|
    && m.lastSequence < MAX_SEQUENCE
    && s.acknowledged <= m.lastSequence
    && (m.imm.None? ==> s.flushed == s.switched)
    && (m.imm.Some? ==> m.imm.value == s.history[s.flushed..s.switched])
    && (match m.writer
        case Idle => m.mem == s.history[s.switched..] && m.lastSequence == |s.history|
        case Logged(g) => m.mem + g == s.history[s.switched..] && m.lastSequence + |g| == |s.history|
        case Inserted(g) => m.mem == s.history[s.switched..] && m.lastSequence + |g| == |s.history|)
    && |s.history| < MAX_SEQUENCE
  }

  ghost predicate LogsInv(s: State, m: Memory) {
    var logs := s.disk.logs;
    && s.flushed <= s.switched <= |s.history|
    && m.logNumber <= m.logfileNumber < m.nextFile
    && m.logfileNumber in logs && LogBound(logs, m.logfileNumber + 1)
    && logs[m.logfileNumber] == s.history[s.switched..]
    && LogEntries(logs, m.logNumber, m.logfileNumber) == s.history[s.flushed..s.switched]
  }

  ghost predicate SnapshotsInv(m: Memory) {
    && (forall i, j | 0 <= i < j < |m.snapshots| :: m.snapshots[i] <= m.snapshots[j])
    && (forall i | 0 <= i < |m.snapshots| :: m.snapshots[i] <= m.lastSequence)
  }

  function Target(s: State, flush: bool): nat {
    if flush then s.switched else s.flushed
  }

  /** A change on its way into the manifest. */
  ghost predicate ChangeInv(s: State, m: Memory, e: Edit, next: Levels, flush: bool, bound: nat)
    requires s.disk.records != []
  {
    && Saves(m.current, [e], next)
    && Represents(next, s.history, Target(s, flush), Oldest(m))
    && TablesPresent(next, s.disk.tables)
    && SoundAdditions(m.current, e, Last(s.disk).nextFile, bound)
    && bound <= m.nextFile
    && (flush ==> m.imm.Some?)
  }

  ghost predicate RecordInv(s: State, m: Memory, r: Record, flush: bool) {
    && r.logNumber == (if flush then m.logfileNumber else m.logNumber)
    && r.logNumber < r.nextFile <= m.nextFile
    && Target(s, flush) <= r.lastSequence <= |s.history|
  }

  ghost predicate BackgroundInv(s: State, m: Memory)
    requires s.disk.records != []
  {
    match m.background
    case Resting => s.durable == s.flushed && Last(s.disk).logNumber == m.logNumber
    case Built(e, next, flush) =>
      && s.durable == s.flushed && Last(s.disk).logNumber == m.logNumber
      && ChangeInv(s, m, e, next, flush, m.nextFile)
    case Prepared(r, next, flush) =>
      && s.durable == s.flushed && Last(s.disk).logNumber == m.logNumber
      && ChangeInv(s, m, r.edit, next, flush, r.nextFile) && RecordInv(s, m, r, flush)
    case Appended(r, next, flush) =>
      && s.durable == Target(s, flush) && Last(s.disk) == r && RecordInv(s, m, r, flush)
      && (flush ==> m.imm.Some?)
  }

  ghost predicate NumbersUnder(v: Levels, bound: nat) {
    forall l, f | 0 <= l < NUM_LEVELS && f in v[l] :: f.number < bound
  }

  /** The version the manifest describes. */
  function DurableVersion(m: Memory): Levels {
    if m.background.Appended? then m.background.next else m.current
  }

  ghost predicate RunningInv(s: State, m: Memory) {
    && ManifestInv(s.disk, DurableVersion(m), s.durable, s.history, Oldest(m))
    && Last(s.disk).nextFile <= m.nextFile
    && Represents(m.current, s.history, s.flushed, Oldest(m))
    && TablesPresent(m.current, s.disk.tables) && NumbersUnder(m.current, m.nextFile)
    && (forall v | v in m.pinned :: TablesPresent(v, s.disk.tables) && NumbersUnder(v, m.nextFile))
    && MemoryInv(s, m) && LogsInv(s, m) && SnapshotsInv(m) && BackgroundInv(s, m)
  }

  ghost predicate Inv(s: State) {
    && Numbered(s.history) && |s.history| < MAX_SEQUENCE
    && s.acknowledged <= |s.history|
    && match s.memory
       case Some(m) => RunningInv(s, m)
       case None => exists v :: DiskInv(s.disk, v, s.durable, s.history, |s.history|)
  }
}
