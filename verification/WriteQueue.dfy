/** Group commit (db/db_impl.cc, Write and BuildBatchGroup): writers queue up, the one at the front logs and
    applies a group of them, and everyone in the group is then done. Each action is what happens while the mutex
    is held without interruption; writers may join whenever it is free. Writes do not fail. */
module WriteQueue {
  import opened SnapshotReads
  import opened WriteBatch

  /** A call of Write; no batch means a forced memtable switch. */
  datatype Writer = Writer(id: nat, batch: Option<seq<Op>>, sync: bool)

  function BatchOf(w: Writer): seq<Op> {
    if w.batch.Some? then w.batch.value else []
  }

  function BatchesOf(ws: seq<Writer>): seq<Op> {
    if ws == [] then [] else BatchesOf(ws[..|ws| - 1]) + BatchOf(ws[|ws| - 1])
  }

  lemma {:induction false} BatchesConcat(a: seq<Writer>, b: seq<Writer>)
    ensures BatchesOf(a + b) == BatchesOf(a) + BatchesOf(b)
  {
    if b == [] {
      assert a + b == a;
    } else {
      assert (a + b)[..|a + b| - 1] == a + b[..|b| - 1];
      BatchesConcat(a, b[..|b| - 1]);
    }
  }

  /** WriteBatchInternal::ByteSize of a writer's batch. */
  function ByteSize(w: Writer): nat {
    if w.batch.Some? then HEADER + |Records(w.batch.value)| else 0
  }

  function TotalSize(ws: seq<Writer>): nat {
    if ws == [] then 0 else TotalSize(ws[..|ws| - 1]) + ByteSize(ws[|ws| - 1])
  }

  const SMALL: int := 0x2_0000
  const LARGE: int := 0x10_0000

  /** A small first write limits how much the group may delay it. */
  function MaxSize(first: Writer): nat {
    if ByteSize(first) <= SMALL then ByteSize(first) + SMALL else LARGE
  }

  /** The writer after the first n may not join their group. */
  predicate Stops(queue: seq<Writer>, n: nat)
    requires 0 < n < |queue|
  {
    || (queue[n].sync && !queue[0].sync)
    || (queue[n].batch.Some? && TotalSize(queue[..n + 1]) > MaxSize(queue[0]))
  }

  /** The groups a leader may commit: all that fit behind it, and only itself when it has no batch. */
  ghost predicate IsGroup(queue: seq<Writer>, n: nat) {
    && 0 < n <= |queue|
    && (queue[0].batch.None? ==> n == 1)
    && (queue[0].batch.Some? ==>
          && (forall i | 1 <= i < n :: !Stops(queue, i))
          && (n < |queue| ==> Stops(queue, n)))
  }

  /** BuildBatchGroup: the longest group that fits, and its operations in queue order. */
  method BuildBatchGroup(queue: seq<Writer>) returns (result: seq<Op>, n: nat)
    requires queue != [] && queue[0].batch.Some?
    ensures IsGroup(queue, n) && result == BatchesOf(queue[..n])
  {
    hide Records;
    var first := queue[0];
    result := first.batch.value;
    var size := ByteSize(first);
    var maxSize := LARGE;
    if size <= SMALL {
      maxSize := size + SMALL;
    }
    assert maxSize == MaxSize(first);
    n := 1;
    assert queue[..1] == [first] && [first][..0] == [];
    while n < |queue|
      invariant 1 <= n <= |queue| && size == TotalSize(queue[..n]) && result == BatchesOf(queue[..n])
      invariant forall i | 1 <= i < n :: !Stops(queue, i)
    {
      var w := queue[n];
      assert queue[..n + 1][..n] == queue[..n];
      if w.sync && !first.sync {
        break;
      }
      if w.batch.Some? {
        size := size + ByteSize(w);
        if size > maxSize {
          break;
        }
        result := result + w.batch.value;
      }
      n := n + 1;
    }
  }

  /** A group stays within 1 MB unless its first write alone is larger, and one behind a small write within 128 KB more
      than that write. */
  lemma GroupIsBounded(queue: seq<Writer>, n: nat)
    requires IsGroup(queue, n) && queue[0].batch.Some?
    ensures TotalSize(queue[..n]) <= 1048576 || TotalSize(queue[..n]) == ByteSize(queue[0])
    ensures ByteSize(queue[0]) <= 131072 ==> TotalSize(queue[..n]) <= ByteSize(queue[0]) + 131072
  {
    hide ByteSize;
    FrontIsBounded(queue, n, n);
  }

  lemma {:induction false} FrontIsBounded(queue: seq<Writer>, n: nat, k: nat)
    requires IsGroup(queue, n) && queue[0].batch.Some? && 0 < k <= n
    ensures k == 1 ==> TotalSize(queue[..k]) == ByteSize(queue[0])
    ensures TotalSize(queue[..k]) <= MaxSize(queue[0]) || TotalSize(queue[..k]) == ByteSize(queue[0])
    decreases k
  {
    hide Records;
    assert queue[..k][..k - 1] == queue[..k - 1];
    if k > 1 {
      FrontIsBounded(queue, n, k - 1);
      assert !Stops(queue, k - 1);
    }
  }

  // ----- the protocol -----

  /** A finished writer and whether its group's log record was synced. */
  datatype Finished = Finished(writer: Writer, synced: bool)

  /** `joined` is every writer ever queued, `log` every operation logged, under its sequence number. */
  datatype State = State(
    queue: seq<Writer>,
    leading: Option<nat>,
    lastSequence: nat,
    log: seq<Numbered>,
    joined: seq<Writer>,
    finished: seq<Finished>)

  datatype Action = Join(writer: Writer) | LogGroup(n: nat) | Finish

  ghost predicate Init(s: State) {
    s.queue == [] && s.leading.None? && s.log == [] && s.joined == [] && s.finished == [] && s.lastSequence == 0
  }

  ghost predicate Step(s: State, a: Action, s': State) {
    match a
    case Join(w) =>
      && (forall v | v in s.joined :: v.id != w.id)
      && s' == s.(queue := s.queue + [w], joined := s.joined + [w])
    case LogGroup(n) =>
      && s.leading.None? && IsGroup(s.queue, n)
      && s' == s.(leading := Some(n), log := s.log + NumberFrom(s.lastSequence + 1, BatchesOf(s.queue[..n])))
    case Finish =>
      && s.leading.Some? && s.leading.value <= |s.queue|
      && var group := s.queue[..s.leading.value];
         s' == s.(leading := None, queue := s.queue[s.leading.value..],
                  lastSequence := s.lastSequence + |BatchesOf(group)|,
                  finished := s.finished + FinishAll(group, group != [] && group[0].sync))
  }

  function FinishAll(group: seq<Writer>, synced: bool): (r: seq<Finished>)
    ensures |r| == |group| && forall i | 0 <= i < |r| :: r[i] == Finished(group[i], synced)
  {
    seq(|group|, i requires 0 <= i < |group| => Finished(group[i], synced))
  }

  function WritersOf(fs: seq<Finished>): (ws: seq<Writer>)
    ensures |ws| == |fs| && forall i | 0 <= i < |fs| :: ws[i] == fs[i].writer
  {
    seq(|fs|, i requires 0 <= i < |fs| => fs[i].writer)
  }

  /** The writers whose operations are in the log: the finished ones and the group being committed. */
  function Logged(s: State): seq<Writer> {
    WritersOf(s.finished) + if s.leading.Some? && s.leading.value <= |s.queue| then s.queue[..s.leading.value] else []
  }

  ghost predicate Inv(s: State) {
    && (s.leading.Some? ==> 0 < s.leading.value <= |s.queue| && Together(s.queue, s.leading.value))
    && (forall i, j | 0 <= i < j < |s.joined| :: s.joined[i].id != s.joined[j].id)
    && s.joined == WritersOf(s.finished) + s.queue
    && s.lastSequence == |BatchesOf(WritersOf(s.finished))|
    && s.log == NumberFrom(1, BatchesOf(Logged(s)))
    && (forall i | 0 <= i < |s.finished| :: s.finished[i].writer.sync ==> s.finished[i].synced)
  }

  /** Every synced write among the first n has a syncing leader. */
  ghost predicate Together(queue: seq<Writer>, n: nat)
    requires n <= |queue|
  {
    forall i | 0 <= i < n :: queue[i].sync ==> queue[0].sync
  }

  lemma GroupIsTogether(queue: seq<Writer>, n: nat)
    requires IsGroup(queue, n)
    ensures Together(queue, n)
  {
    forall i | 0 < i < n
      ensures queue[i].sync ==> queue[0].sync
    {
      assert !Stops(queue, i);
    }
  }

  lemma NumberMore(first: nat, a: seq<Op>, b: seq<Op>)
    ensures NumberFrom(first, a + b) == NumberFrom(first, a) + NumberFrom(first + |a|, b)
  {
  }

  lemma JoinKeepsInv(s: State, w: Writer, s': State)
    requires Inv(s) && Step(s, Join(w), s')
    ensures Inv(s')
  {
    if s.leading.Some? {
      assert s'.queue[..s.leading.value] == s.queue[..s.leading.value];
    }
    assert Logged(s') == Logged(s);
    assert s'.joined == WritersOf(s'.finished) + s'.queue;
  }

  lemma LogKeepsInv(s: State, n: nat, s': State)
    requires Inv(s) && Step(s, LogGroup(n), s')
    ensures Inv(s')
  {
    GroupIsTogether(s.queue, n);
    var done, group := WritersOf(s.finished), s.queue[..n];
    assert Logged(s) == done && Logged(s') == done + group;
    BatchesConcat(done, group);
    NumberMore(1, BatchesOf(done), BatchesOf(group));
  }

  lemma FinishKeepsInv(s: State, s': State)
    requires Inv(s) && Step(s, Finish, s')
    ensures Inv(s')
  {
    hide BatchesOf, NumberFrom;
    var n := s.leading.value;
    var done, group := WritersOf(s.finished), s.queue[..n];
    assert WritersOf(s'.finished) == done + group;
    assert s.queue == group + s.queue[n..];
    assert Logged(s') == done + group == Logged(s);
    BatchesConcat(done, group);
  }

  ghost predicate Run(states: seq<State>, actions: seq<Action>) {
    && |states| == |actions| + 1 && Init(states[0])
    && forall i | 0 <= i < |actions| :: Step(states[i], actions[i], states[i + 1])
  }

  lemma {:induction false} RunKeepsInv(states: seq<State>, actions: seq<Action>, n: nat)
    requires Run(states, actions) && n < |states|
    ensures Inv(states[n])
  {
    if n > 0 {
      RunKeepsInv(states, actions, n - 1);
      var s, s' := states[n - 1], states[n];
      assert Step(s, actions[n - 1], s');
      hide Step, Inv;
      match actions[n - 1] {
        case Join(w) => JoinKeepsInv(s, w, s');
        case LogGroup(k) => LogKeepsInv(s, k, s');
        case Finish => FinishKeepsInv(s, s');
      }
    }
  }

  /** Over every interleaving: writers finish in the order they joined, each once; the operations of the logged
      writers stand in the log in that order under the numbers 1, 2, 3, ...; and no synced write is ever finished
      by a group whose record was not synced. */
  lemma GroupCommit(states: seq<State>, actions: seq<Action>, n: nat)
    requires Run(states, actions) && n < |states|
    ensures var s := states[n];
            && WritersOf(s.finished) <= Logged(s) <= s.joined
            && (forall i, j | 0 <= i < j < |s.finished| :: s.finished[i].writer.id != s.finished[j].writer.id)
            && s.log == NumberFrom(1, BatchesOf(Logged(s)))
            && (forall f | f in s.finished && f.writer.sync :: f.synced)
  {
    RunKeepsInv(states, actions, n);
    hide Run, BatchesOf, NumberFrom;
    LoggedIsPrefix(states[n]);
    FinishedOnce(states[n]);
  }

  lemma LoggedIsPrefix(s: State)
    requires Inv(s)
    ensures WritersOf(s.finished) <= Logged(s) <= s.joined
  {
    hide BatchesOf, NumberFrom, WritersOf, Together;
    var k := if s.leading.Some? then s.leading.value else 0;
    assert s.queue[..0] == [];
    PrefixSplit(WritersOf(s.finished), s.queue, k);
  }

  lemma PrefixSplit<T>(a: seq<T>, q: seq<T>, k: nat)
    requires k <= |q|
    ensures a <= a + q[..k] <= a + q
  {
  }

  lemma FinishedOnce(s: State)
    requires Inv(s)
    ensures forall i, j | 0 <= i < j < |s.finished| :: s.finished[i].writer.id != s.finished[j].writer.id
  {
    hide BatchesOf, NumberFrom, Logged, Together;
    assert forall i | 0 <= i < |s.finished| :: s.joined[i] == s.finished[i].writer;
  }

  lemma {:induction false} GroupExists(queue: seq<Writer>, from: nat) returns (n: nat)
    requires queue != [] && queue[0].batch.Some? && 0 < from <= |queue| && forall i | 1 <= i < from :: !Stops(queue, i)
    ensures IsGroup(queue, n)
    decreases |queue| - from
  {
    if from == |queue| || Stops(queue, from) {
      n := from;
    } else {
      n := GroupExists(queue, from + 1);
    }
  }

  /** While anyone waits, the front writer can log a group or finish one, and finishing empties part of the queue. */
  lemma SomeoneProceeds(states: seq<State>, actions: seq<Action>, n: nat) returns (a: Action, s': State)
    requires Run(states, actions) && n < |states| && states[n].queue != []
    ensures !a.Join? && Step(states[n], a, s')
    ensures a.Finish? ==> |s'.queue| < |states[n].queue|
    ensures a.LogGroup? ==> s'.leading.Some?
  {
    RunKeepsInv(states, actions, n);
    var s := states[n];
    if s.leading.Some? {
      a := Finish;
      var group := s.queue[..s.leading.value];
      s' := s.(leading := None, queue := s.queue[s.leading.value..],
               lastSequence := s.lastSequence + |BatchesOf(group)|,
               finished := s.finished + FinishAll(group, group != [] && group[0].sync));
    } else {
      var k := 1;
      if s.queue[0].batch.Some? {
        k := GroupExists(s.queue, 1);
      }
      a := LogGroup(k);
      s' := s.(leading := Some(k), log := s.log + NumberFrom(s.lastSequence + 1, BatchesOf(s.queue[..k])));
    }
  }
}
