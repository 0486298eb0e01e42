/** The bytes of a manifest record (db/version_edit.cc). */
module VersionEditCodec {
  import opened InternalKeys
  import opened SnapshotReads
  import opened Coding

  const NUM_LEVELS: int := 7

  /** What the manifest records of a table; keys are internal keys as bytes. */
  datatype FileMeta = FileMeta(number: DoubleWord, fileSize: DoubleWord, smallest: Bytes, largest: Bytes)

  /** A field that has been set carries a value. */
  datatype Fields = Fields(
    comparator: Option<Bytes>,
    logNumber: Option<DoubleWord>,
    prevLogNumber: Option<DoubleWord>,
    nextFileNumber: Option<DoubleWord>,
    lastSequence: Option<DoubleWord>,
    compactPointers: seq<(nat, Bytes)>,
    deletedFiles: set<(nat, DoubleWord)>,
    newFiles: seq<(nat, FileMeta)>)

  /** One tagged piece of a record. */
  datatype Item =
    | Comparator(name: Bytes)
    | LogNumber(number: DoubleWord)
    | PrevLogNumber(number: DoubleWord)
    | NextFileNumber(number: DoubleWord)
    | LastSequence(number: DoubleWord)
    | CompactPointer(level: nat, key: Bytes)
    | DeletedFile(level: nat, number: DoubleWord)
    | NewFile(level: nat, file: FileMeta)

  function TagOf(item: Item): Word {
    match item
    case Comparator(_) => 1
    case LogNumber(_) => 2
    case NextFileNumber(_) => 3
    case LastSequence(_) => 4
    case CompactPointer(_, _) => 5
    case DeletedFile(_, _) => 6
    case NewFile(_, _) => 7
    case PrevLogNumber(_) => 9
  }

  function BodyOf(item: Item): Bytes {
    match item
    case Comparator(name) => LengthPrefixed(name)
    case CompactPointer(level, key) => Varint(level) + LengthPrefixed(key)
    case DeletedFile(level, number) => Varint(level) + Varint(number)
    case NewFile(level, f) =>
      Varint(level) + (Varint(f.number) + (Varint(f.fileSize)
             + (LengthPrefixed(f.smallest) + LengthPrefixed(f.largest))))
    case _ => Varint(item.number)
  }

  function ItemBytes(item: Item): Bytes {
    Varint(TagOf(item)) + BodyOf(item)
  }

  function Encoded(items: seq<Item>): Bytes {
    if items == [] then [] else Encoded(items[..|items| - 1]) + ItemBytes(items[|items| - 1])
  }

  /** Levels exist and lengths fit in 32 bits. */
  predicate Fits(item: Item) {
    match item
    case Comparator(name) => |name| < TWO_TO_32
    case CompactPointer(level, key) => level < NUM_LEVELS && |key| < TWO_TO_32
    case DeletedFile(level, _) => level < NUM_LEVELS
    case NewFile(level, f) => level < NUM_LEVELS && |f.smallest| < TWO_TO_32 && |f.largest| < TWO_TO_32
    case _ => true
  }

  /** The effect of reading one item. */
  function Apply(e: Fields, item: Item): Fields {
    match item
    case Comparator(name) => e.(comparator := Some(name))
    case LogNumber(n) => e.(logNumber := Some(n))
    case PrevLogNumber(n) => e.(prevLogNumber := Some(n))
    case NextFileNumber(n) => e.(nextFileNumber := Some(n))
    case LastSequence(n) => e.(lastSequence := Some(n))
    case CompactPointer(level, key) => e.(compactPointers := e.compactPointers + [(level, key)])
    case DeletedFile(level, n) => e.(deletedFiles := e.deletedFiles + {(level, n)})
    case NewFile(level, f) => e.(newFiles := e.newFiles + [(level, f)])
  }

  function ApplyAll(e: Fields, items: seq<Item>): Fields {
    if items == [] then e else Apply(ApplyAll(e, items[..|items| - 1]), items[|items| - 1])
  }

  // ----- the items of an edit, in the order they are written -----

  function Numbers(e: Fields): seq<Item> {
    (if e.comparator.Some? then [Comparator(e.comparator.value)] else [])
    + (if e.logNumber.Some? then [LogNumber(e.logNumber.value)] else [])
    + (if e.prevLogNumber.Some? then [PrevLogNumber(e.prevLogNumber.value)] else [])
    + (if e.nextFileNumber.Some? then [NextFileNumber(e.nextFileNumber.value)] else [])
    + (if e.lastSequence.Some? then [LastSequence(e.lastSequence.value)] else [])
  }

  function Pointers(ps: seq<(nat, Bytes)>): (items: seq<Item>)
    ensures |items| == |ps|
  {
    seq(|ps|, i requires 0 <= i < |ps| => CompactPointer(ps[i].0, ps[i].1))
  }

  function Deletions(order: seq<(nat, DoubleWord)>): (items: seq<Item>)
    ensures |items| == |order|
  {
    seq(|order|, i requires 0 <= i < |order| => DeletedFile(order[i].0, order[i].1))
  }

  function Additions(files: seq<(nat, FileMeta)>): (items: seq<Item>)
    ensures |items| == |files|
  {
    seq(|files|, i requires 0 <= i < |files| => NewFile(files[i].0, files[i].1))
  }

  /** `order` is the order in which the set of deleted files is walked. */
  function Items(e: Fields, order: seq<(nat, DoubleWord)>): seq<Item> {
    Numbers(e) + Pointers(e.compactPointers) + Deletions(order) + Additions(e.newFiles)
  }

  ghost predicate Walks(order: seq<(nat, DoubleWord)>, files: set<(nat, DoubleWord)>) {
    forall f :: f in order <==> f in files
  }

  const CLEARED: Fields := Fields(None, None, None, None, None, [], {}, [])

  lemma {:induction false} ApplyConcat(e: Fields, a: seq<Item>, b: seq<Item>)
    ensures ApplyAll(e, a + b) == ApplyAll(ApplyAll(e, a), b)
  {
    hide Apply;
    if b == [] {
      assert a + b == a;
    } else {
      assert (a + b)[..|a + b| - 1] == a + b[..|b| - 1];
      ApplyConcat(e, a, b[..|b| - 1]);
    }
  }

  lemma ApplyNumbers(e: Fields, ps: seq<(nat, Bytes)>)
    ensures ApplyAll(CLEARED.(compactPointers := ps), Numbers(e))
            == e.(compactPointers := ps, deletedFiles := {}, newFiles := [])
  {
    hide ApplyAll;
    var a := if e.comparator.Some? then [Comparator(e.comparator.value)] else [];
    var b := if e.logNumber.Some? then [LogNumber(e.logNumber.value)] else [];
    var c := if e.prevLogNumber.Some? then [PrevLogNumber(e.prevLogNumber.value)] else [];
    var d := if e.nextFileNumber.Some? then [NextFileNumber(e.nextFileNumber.value)] else [];
    var f := if e.lastSequence.Some? then [LastSequence(e.lastSequence.value)] else [];
    var start := CLEARED.(compactPointers := ps);
    ApplyConcat(start, a + b + c + d, f);
    ApplyConcat(start, a + b + c, d);
    ApplyConcat(start, a + b, c);
    ApplyConcat(start, a, b);
    AtMostOne(start, a);
    AtMostOne(ApplyAll(start, a), b);
    AtMostOne(ApplyAll(start, a + b), c);
    AtMostOne(ApplyAll(start, a + b + c), d);
    AtMostOne(ApplyAll(start, a + b + c + d), f);
  }

  lemma AtMostOne(e: Fields, items: seq<Item>)
    requires |items| <= 1
    ensures ApplyAll(e, items) == if items == [] then e else Apply(e, items[0])
  {
    if items != [] {
      assert items[..0] == [];
    }
  }

  lemma {:induction false} ApplyPointers(e: Fields, ps: seq<(nat, Bytes)>)
    ensures ApplyAll(e, Pointers(ps)) == e.(compactPointers := e.compactPointers + ps)
  {
    if ps == [] {
      assert e.compactPointers + ps == e.compactPointers;
    } else {
      var n := |ps| - 1;
      assert Pointers(ps)[..n] == Pointers(ps[..n]);
      ApplyPointers(e, ps[..n]);
      assert e.compactPointers + ps == e.compactPointers + ps[..n] + [(ps[n].0, ps[n].1)];
    }
  }

  lemma {:induction false} ApplyDeletions(e: Fields, order: seq<(nat, DoubleWord)>)
    ensures ApplyAll(e, Deletions(order)) == e.(deletedFiles := e.deletedFiles + set f | f in order)
  {
    if order == [] {
      assert e.deletedFiles + (set f | f in order) == e.deletedFiles;
    } else {
      var n := |order| - 1;
      assert Deletions(order)[..n] == Deletions(order[..n]);
      ApplyDeletions(e, order[..n]);
      LastWalked(order, n);
      hide ApplyAll;
      assert e.deletedFiles + (set f | f in order) == e.deletedFiles + (set f | f in order[..n])
             + {(order[n].0, order[n].1)};
    }
  }

  lemma LastWalked(order: seq<(nat, DoubleWord)>, n: nat)
    requires |order| == n + 1
    ensures (set f | f in order) == (set f | f in order[..n]) + {order[n]}
  {
    assert order == order[..n] + [order[n]];
  }

  lemma {:induction false} ApplyAdditions(e: Fields, files: seq<(nat, FileMeta)>)
    ensures ApplyAll(e, Additions(files)) == e.(newFiles := e.newFiles + files)
  {
    if files == [] {
      assert e.newFiles + files == e.newFiles;
    } else {
      var n := |files| - 1;
      assert Additions(files)[..n] == Additions(files[..n]);
      ApplyAdditions(e, files[..n]);
      assert e.newFiles + files == e.newFiles + files[..n] + [(files[n].0, files[n].1)];
    }
  }

  /** Reading the items of an edit restores it, after whatever compaction pointers were there before. */
  lemma ItemsRestore(e: Fields, order: seq<(nat, DoubleWord)>, ps: seq<(nat, Bytes)>)
    requires Walks(order, e.deletedFiles)
    ensures ApplyAll(CLEARED.(compactPointers := ps), Items(e, order)) == e.(compactPointers := ps + e.compactPointers)
  {
    var start := CLEARED.(compactPointers := ps);
    var a, b, c, d := Numbers(e), Pointers(e.compactPointers), Deletions(order), Additions(e.newFiles);
    hide ApplyAll, Numbers;
    ApplyConcat(start, a + b + c, d);
    ApplyConcat(start, a + b, c);
    ApplyConcat(start, a, b);
    ApplyNumbers(e, ps);
    ApplyPointers(ApplyAll(start, a), e.compactPointers);
    ApplyDeletions(ApplyAll(start, a + b), order);
    ApplyAdditions(ApplyAll(start, a + b + c), e.newFiles);
    assert {} + (set f | f in order) == e.deletedFiles;
    assert [] + e.newFiles == e.newFiles;
  }

  // ----- reading and writing -----

  lemma {:induction false} EncodedConcat(a: seq<Item>, b: seq<Item>)
    ensures Encoded(a + b) == Encoded(a) + Encoded(b)
  {
    hide ItemBytes;
    if b == [] {
      assert a + b == a;
    } else {
      assert (a + b)[..|a + b| - 1] == a + b[..|b| - 1];
      EncodedConcat(a, b[..|b| - 1]);
    }
  }

  lemma EncodedOne(items: seq<Item>, item: Item)
    ensures Encoded(items + [item]) == Encoded(items) + ItemBytes(item)
  {
    assert (items + [item])[..|items|] == items;
  }

  lemma EncodedFirst(items: seq<Item>)
    requires items != []
    ensures Encoded(items) == ItemBytes(items[0]) + Encoded(items[1..]) && Encoded(items) != []
  {
    hide ItemBytes;
    assert items == [items[0]] + items[1..];
    EncodedConcat([items[0]], items[1..]);
    assert [items[0]][..0] == [];
    NotEmpty(items[0]);
  }

  lemma NotEmpty(item: Item)
    ensures ItemBytes(item) != []
  {
  }

  datatype Status = OK | Corruption(message: string)

  /** GetLevel: a varint below the number of levels. */
  function LevelAt(b: Bytes, p: nat): (r: Option<Parsed>)
    ensures r.Some? ==> p < r.value.next <= |b| && r.value.value < NUM_LEVELS
  {
    var v := Varint32At(b, p, |b|);
    if v.Some? && v.value.value < NUM_LEVELS then v else None
  }

  lemma LevelFront(b: Bytes, p: nat, level: nat, tail: Bytes)
    requires p <= |b| && b[p..] == Varint(level) + tail && level < NUM_LEVELS
    ensures p + |Varint(level)| <= |b| && LevelAt(b, p) == Some(Parsed(level, p + |Varint(level)|))
            && b[p + |Varint(level)|..] == tail
  {
    hide Varint, Varint32At;
    Varint32Front(b, p, level, tail);
  }

  /** Reads the body of an item with this tag. */
  method DecodeBody(b: Bytes, p: nat, tag: Word, ghost want: Item, ghost tail: Bytes)
    returns (status: Status, item: Item, next: nat)
    requires p <= |b|
    ensures status.OK? ==> p <= next <= |b|
    ensures tag == TagOf(want) && Fits(want) && b[p..] == BodyOf(want) + tail ==>
              status.OK? && item == want && b[next..] == tail
  {
    hide Varint, Varint32At, Varint64At, LengthPrefixed, LengthPrefixedAt, BodyOf;
    item, next := LogNumber(0), p;
    if tag == TagOf(want) && Fits(want) && b[p..] == BodyOf(want) + tail {
      BodyReads(b, p, want, tail);
    }
    if tag == 1 {
      status := Corruption("comparator name");
      var name := LengthPrefixedAt(b, p);
      if name.Some? {
        status, item, next := OK, Comparator(name.value.bytes), name.value.next;
      }
    } else if tag == 2 || tag == 9 || tag == 3 || tag == 4 {
      status := Corruption(if tag == 2 then "log number" else if tag == 9 then "previous log number"
                           else if tag == 3 then "next file number" else "last sequence number");
      var n := Varint64At(b, p, |b|);
      if n.Some? {
        status, next := OK, n.value.next;
        item := if tag == 2 then LogNumber(n.value.value) else if tag == 9 then PrevLogNumber(n.value.value)
                else if tag == 3 then NextFileNumber(n.value.value) else LastSequence(n.value.value);
      }
    } else if tag == 5 {
      status := Corruption("compaction pointer");
      var level := LevelAt(b, p);
      if level.Some? {
        var key := LengthPrefixedAt(b, level.value.next);
        if key.Some? {
          status, item, next := OK, CompactPointer(level.value.value, key.value.bytes), key.value.next;
        }
      }
    } else if tag == 6 {
      status := Corruption("deleted file");
      var level := LevelAt(b, p);
      if level.Some? {
        var number := Varint64At(b, level.value.next, |b|);
        if number.Some? {
          status, item, next := OK, DeletedFile(level.value.value, number.value.value), number.value.next;
        }
      }
    } else if tag == 7 {
      status, item, next := DecodeNewFile(b, p, want, tail);
    } else {
      status := Corruption("unknown tag");
    }
  }

  method DecodeNewFile(b: Bytes, p: nat, ghost want: Item, ghost tail: Bytes)
    returns (status: Status, item: Item, next: nat)
    requires p <= |b|
    ensures status.OK? ==> p <= next <= |b|
    ensures want.NewFile? && Fits(want) && b[p..] == BodyOf(want) + tail ==>
              status.OK? && item == want && b[next..] == tail
  {
    hide Varint, Varint32At, Varint64At, LengthPrefixed, LengthPrefixedAt, BodyOf;
    if want.NewFile? && Fits(want) && b[p..] == BodyOf(want) + tail {
      NewFileReads(b, p, want.level, want.file, tail);
    }
    status, item, next := Corruption("new-file entry"), LogNumber(0), p;
    var level := LevelAt(b, p);
    if level.None? { return; }
    var number := Varint64At(b, level.value.next, |b|);
    if number.None? { return; }
    var fileSize := Varint64At(b, number.value.next, |b|);
    if fileSize.None? { return; }
    var smallest := LengthPrefixedAt(b, fileSize.value.next);
    if smallest.None? { return; }
    var largest := LengthPrefixedAt(b, smallest.value.next);
    if largest.None? { return; }
    status, next := OK, largest.value.next;
    item := NewFile(level.value.value, FileMeta(number.value.value, fileSize.value.value, smallest.value.bytes,
                    largest.value.bytes));
  }

  lemma BodyReads(b: Bytes, p: nat, item: Item, tail: Bytes)
    requires p <= |b| && b[p..] == BodyOf(item) + tail && Fits(item)
    ensures match item
            case Comparator(name) =>
              var r := LengthPrefixedAt(b, p);
              r.Some? && r.value.bytes == name && b[r.value.next..] == tail
            case CompactPointer(level, key) =>
              var l := LevelAt(b, p);
              && l.Some? && l.value.value == level
              && var r := LengthPrefixedAt(b, l.value.next);
                 r.Some? && r.value.bytes == key && b[r.value.next..] == tail
            case DeletedFile(level, number) =>
              var l := LevelAt(b, p);
              && l.Some? && l.value.value == level
              && var r := Varint64At(b, l.value.next, |b|);
                 r.Some? && r.value.value == number && b[r.value.next..] == tail
            case NewFile(_, _) => true
            case _ =>
              var r := Varint64At(b, p, |b|);
              r.Some? && r.value.value == item.number && b[r.value.next..] == tail
  {
    hide Varint, Varint32At, Varint64At, LengthPrefixed, LengthPrefixedAt, LevelAt;
    match item {
      case Comparator(name) => LengthPrefixedFront(b, p, name, tail);
      case CompactPointer(level, key) =>
        assert b[p..] == Varint(level) + (LengthPrefixed(key) + tail);
        LevelFront(b, p, level, LengthPrefixed(key) + tail);
        LengthPrefixedFront(b, p + |Varint(level)|, key, tail);
      case DeletedFile(level, number) =>
        assert b[p..] == Varint(level) + (Varint(number) + tail);
        LevelFront(b, p, level, Varint(number) + tail);
        Varint64Front(b, p + |Varint(level)|, number, tail);
      case NewFile(_, _) =>
      case _ => Varint64Front(b, p, item.number, tail);
    }
  }

  lemma NewFileReads(b: Bytes, p: nat, level: nat, f: FileMeta, tail: Bytes)
    requires p <= |b| && b[p..] == BodyOf(NewFile(level, f)) + tail && Fits(NewFile(level, f))
    ensures var p1 := p + |Varint(level)|;
            var p2 := p1 + |Varint(f.number)|;
            var p3 := p2 + |Varint(f.fileSize)|;
            var p4 := p3 + |LengthPrefixed(f.smallest)|;
            var p5 := p4 + |LengthPrefixed(f.largest)|;
            && p5 <= |b| && LevelAt(b, p) == Some(Parsed(level, p1))
            && Varint64At(b, p1, |b|) == Some(Parsed(f.number, p2))
                 && Varint64At(b, p2, |b|) == Some(Parsed(f.fileSize, p3))
            && LengthPrefixedAt(b, p3) == Some(Slice(f.smallest, p4))
                 && LengthPrefixedAt(b, p4) == Some(Slice(f.largest, p5))
            && b[p5..] == tail
  {
    hide Varint, Varint32At, Varint64At, LengthPrefixed, LengthPrefixedAt, LevelAt, BodyOf;
    NewFileBody(level, f);
    var s, g := LengthPrefixed(f.smallest), LengthPrefixed(f.largest);
    var z := Varint(f.fileSize) + (s + g);
    var n := Varint(f.number) + z;
    LevelThen(b, p, level, n, tail);
    Varint64Then(b, p + |Varint(level)|, f.number, z, tail);
    Varint64Then(b, p + |Varint(level)| + |Varint(f.number)|, f.fileSize, s + g, tail);
    var p3 := p + |Varint(level)| + |Varint(f.number)| + |Varint(f.fileSize)|;
    LengthPrefixedThen(b, p3, f.smallest, g, tail);
    LengthPrefixedFront(b, p3 + |s|, f.largest, tail);
  }

  lemma NewFileBody(level: nat, f: FileMeta)
    ensures BodyOf(NewFile(level, f)) ==
            Varint(level) + (Varint(f.number) + (Varint(f.fileSize)
                   + (LengthPrefixed(f.smallest) + LengthPrefixed(f.largest))))
  {
  }

  lemma LevelThen(b: Bytes, p: nat, level: nat, rest: Bytes, tail: Bytes)
    requires p <= |b| && b[p..] == Varint(level) + rest + tail && level < NUM_LEVELS
    ensures p + |Varint(level)| <= |b| && LevelAt(b, p) == Some(Parsed(level, p + |Varint(level)|))
            && b[p + |Varint(level)|..] == rest + tail
  {
    hide Varint, LevelAt;
    assert b[p..] == Varint(level) + (rest + tail);
    LevelFront(b, p, level, rest + tail);
  }

  lemma Varint64Then(b: Bytes, p: nat, v: DoubleWord, rest: Bytes, tail: Bytes)
    requires p <= |b| && b[p..] == Varint(v) + rest + tail
    ensures p + |Varint(v)| <= |b| && Varint64At(b, p, |b|) == Some(Parsed(v, p + |Varint(v)|))
            && b[p + |Varint(v)|..] == rest + tail
  {
    hide Varint, Varint64At;
    assert b[p..] == Varint(v) + (rest + tail);
    Varint64Front(b, p, v, rest + tail);
  }

  lemma LengthPrefixedThen(b: Bytes, p: nat, s: Bytes, rest: Bytes, tail: Bytes)
    requires p <= |b| && b[p..] == LengthPrefixed(s) + rest + tail && |s| < TWO_TO_32
    ensures var next := p + |LengthPrefixed(s)|;
            next <= |b| && LengthPrefixedAt(b, p) == Some(Slice(s, next)) && b[next..] == rest + tail
  {
    hide LengthPrefixed, LengthPrefixedAt;
    assert b[p..] == LengthPrefixed(s) + (rest + tail);
    LengthPrefixedFront(b, p, s, rest + tail);
  }

  class VersionEdit {
    var fields: Fields

    constructor ()
      ensures fields == CLEARED
    {
      fields := CLEARED;
    }

    /** Writes the fields that are set, then the lists; `order` is how the set of deleted files is walked. */
    method EncodeTo(order: seq<(nat, DoubleWord)>) returns (dst: Bytes)
      requires Walks(order, fields.deletedFiles)
      ensures dst == Encoded(Items(fields, order))
    {
      hide Encoded;
      dst := EncodeNumbers();
      ghost var items := Numbers(fields);
      assert items + Pointers(fields.compactPointers)[..0] == items;
      for i := 0 to |fields.compactPointers|
        invariant dst == Encoded(items + Pointers(fields.compactPointers)[..i])
      {
        NextItem(items, Pointers(fields.compactPointers), i);
        dst := AppendItem(dst, CompactPointer(fields.compactPointers[i].0, fields.compactPointers[i].1),
                          items + Pointers(fields.compactPointers)[..i]);
      }
      WholeList(items, Pointers(fields.compactPointers), Deletions(order));
      items := items + Pointers(fields.compactPointers);
      for i := 0 to |order|
        invariant dst == Encoded(items + Deletions(order)[..i])
      {
        NextItem(items, Deletions(order), i);
        dst := AppendItem(dst, DeletedFile(order[i].0, order[i].1), items + Deletions(order)[..i]);
      }
      WholeList(items, Deletions(order), Additions(fields.newFiles));
      items := items + Deletions(order);
      for i := 0 to |fields.newFiles|
        invariant dst == Encoded(items + Additions(fields.newFiles)[..i])
      {
        NextItem(items, Additions(fields.newFiles), i);
        dst := AppendItem(dst, NewFile(fields.newFiles[i].0, fields.newFiles[i].1),
                          items + Additions(fields.newFiles)[..i]);
      }
      WholeList(items, Additions(fields.newFiles), []);
    }

    method EncodeNumbers() returns (dst: Bytes)
      ensures dst == Encoded(Numbers(fields))
    {
      hide Encoded;
      EncodedNone();
      dst := [];
      ghost var items: seq<Item> := [];
      if fields.comparator.Some? {
        dst := AppendItem(dst, Comparator(fields.comparator.value), items);
        items := items + [Comparator(fields.comparator.value)];
      }
      if fields.logNumber.Some? {
        dst := AppendItem(dst, LogNumber(fields.logNumber.value), items);
        items := items + [LogNumber(fields.logNumber.value)];
      }
      if fields.prevLogNumber.Some? {
        dst := AppendItem(dst, PrevLogNumber(fields.prevLogNumber.value), items);
        items := items + [PrevLogNumber(fields.prevLogNumber.value)];
      }
      if fields.nextFileNumber.Some? {
        dst := AppendItem(dst, NextFileNumber(fields.nextFileNumber.value), items);
        items := items + [NextFileNumber(fields.nextFileNumber.value)];
      }
      if fields.lastSequence.Some? {
        dst := AppendItem(dst, LastSequence(fields.lastSequence.value), items);
        items := items + [LastSequence(fields.lastSequence.value)];
      }
      assert items == Numbers(fields);
    }

    /** Clear leaves the compaction pointers as they are. */
    method Clear()
      modifies this
      ensures fields == CLEARED.(compactPointers := old(fields).compactPointers)
    {
      fields := CLEARED.(compactPointers := fields.compactPointers);
    }

    /** Reads a record. The fields of an encoded edit come back whole, with its compaction pointers after those that
        were there before the call. */
    method DecodeFrom(src: Bytes, ghost e: Fields, ghost order: seq<(nat, DoubleWord)>) returns (status: Status)
      modifies this
      ensures Walks(order, e.deletedFiles) && (forall item | item in Items(e, order) :: Fits(item))
              && src == Encoded(Items(e, order)) ==>
                && status == OK
                && fields == e.(compactPointers := old(fields).compactPointers + e.compactPointers)
                && (fields == e <==> old(fields).compactPointers == [])
    {
      hide Items, Encoded, Fits, Varint, Varint32At, ItemBytes, Apply, ApplyAll;
      ghost var items, ps := Items(e, order), fields.compactPointers;
      ghost var expected := Walks(order, e.deletedFiles) && (forall item | item in items :: Fits(item))
                                  && src == Encoded(items);
      Clear();
      var p: nat := 0;
      ghost var done := 0;
      NothingApplied(fields, items);
      status := OK;
      while true
        invariant p <= |src| && status.OK?
        invariant expected ==> done <= |items| && src[p..] == Encoded(items[done..])
                               && fields == ApplyAll(CLEARED.(compactPointers := ps), items[..done])
        decreases |src| - p
      {
        ghost var rest := if expected then items[done..] else [];
        ghost var want, tail := if rest == [] then LogNumber(0) else rest[0], if rest == [] then []
            else Encoded(rest[1..]);
        if expected {
          TagFront(src, p, rest);
        }
        var tag := Varint32At(src, p, |src|);
        if tag.None? {
          break;
        }
        var item, next;
        status, item, next := DecodeBody(src, tag.value.next, tag.value.value, want, tail);
        if !status.OK? {
          return;
        }
        fields := Apply(fields, item);
        if expected {
          OneMoreApplied(CLEARED.(compactPointers := ps), items, done);
        }
        p, done := next, done + 1;
      }
      if p < |src| {
        status := Corruption("invalid tag");
      }
      if expected {
        AllApplied(items, done);
        ItemsRestore(e, order, ps);
        RestoredExactly(e, ps);
      }
    }
  }

  lemma RestoredExactly(e: Fields, ps: seq<(nat, Bytes)>)
    ensures e.(compactPointers := ps + e.compactPointers) == e <==> ps == []
  {
    if ps == [] {
      assert ps + e.compactPointers == e.compactPointers;
    } else {
      assert |ps + e.compactPointers| > |e.compactPointers|;
    }
  }

  /** As recovery does: every record is decoded into a new edit, which comes out equal. */
  method Reread(edit: VersionEdit, order: seq<(nat, DoubleWord)>) returns (status: Status, copy: VersionEdit)
    requires Walks(order, edit.fields.deletedFiles) && forall item | item in Items(edit.fields, order) :: Fits(item)
    ensures fresh(copy) && status == OK && copy.fields == edit.fields
  {
    hide Items, Encoded, Fits, Walks;
    var record := edit.EncodeTo(order);
    copy := new VersionEdit();
    status := copy.DecodeFrom(record, edit.fields, order);
  }

  const POINTING: Fields := CLEARED.(compactPointers := [(1, [7])])

  /** An edit that is decoded into twice keeps the pointer of the first record, which the second does not carry. */
  method PointerIsLeftOver() returns (status: Status, reused: VersionEdit)
    ensures fresh(reused) && status == OK && reused.fields == POINTING
  {
    var pointing := new VersionEdit();
    var empty := new VersionEdit();
    pointing.fields := POINTING;
    FewItems();
    hide Items, Encoded, Fits;
    var first := pointing.EncodeTo([]);
    var second := empty.EncodeTo([]);
    reused := new VersionEdit();
    status := reused.DecodeFrom(first, POINTING, []);
    status := reused.DecodeFrom(second, CLEARED, []);
  }

  lemma FewItems()
    ensures Items(POINTING, []) == [CompactPointer(1, [7])] && Items(CLEARED, []) == []
    ensures Fits(CompactPointer(1, [7]))
  {
    assert Pointers(POINTING.compactPointers) == [CompactPointer(1, [7])];
  }

  method AppendItem(dst: Bytes, item: Item, ghost items: seq<Item>) returns (r: Bytes)
    requires dst == Encoded(items)
    ensures r == Encoded(items + [item])
  {
    EncodedOne(items, item);
    hide Varint, LengthPrefixed;
    var tag := EncodeVarint32(TagOf(item));
    r := dst + (tag + BodyOf(item));
  }

  lemma EncodedNone()
    ensures Encoded([]) == []
  {
  }

  lemma NextItem(items: seq<Item>, more: seq<Item>, i: nat)
    requires i < |more|
    ensures items + more[..i] + [more[i]] == items + more[..i + 1]
  {
  }

  lemma WholeList(items: seq<Item>, more: seq<Item>, after: seq<Item>)
    ensures items + more[..|more|] == items + more == items + more + after[..0]
  {
  }

  lemma NothingApplied(e: Fields, items: seq<Item>)
    ensures ApplyAll(e, items[..0]) == e && items[0..] == items
  {
  }

  lemma OneMoreApplied(e: Fields, items: seq<Item>, n: nat)
    requires n < |items|
    ensures ApplyAll(e, items[..n + 1]) == Apply(ApplyAll(e, items[..n]), items[n])
    ensures items[n..][1..] == items[n + 1..] && items[n..][0] == items[n]
  {
    assert items[..n + 1][..n] == items[..n];
  }

  lemma AllApplied(items: seq<Item>, n: nat)
    requires n <= |items|
    ensures items[n..] == [] ==> items[..n] == items
  {
  }

  /** At the end of the items no tag can be read; before it the next item's tag and body stand there. */
  lemma TagFront(src: Bytes, p: nat, rest: seq<Item>)
    requires p <= |src| && src[p..] == Encoded(rest) && (forall item | item in rest :: Fits(item))
    ensures if rest == [] then p == |src| && Varint32At(src, p, |src|).None?
            else
              && Fits(rest[0])
              && var tag := Varint32At(src, p, |src|);
                 tag.Some? && tag.value.value == TagOf(rest[0])
                     && src[tag.value.next..] == BodyOf(rest[0]) + Encoded(rest[1..])
  {
    hide Varint, BodyOf, Fits;
    if rest != [] {
      hide Varint32At;
      EncodedFirst(rest);
      assert src[p..] == Varint(TagOf(rest[0])) + (BodyOf(rest[0]) + Encoded(rest[1..]));
      Varint32Front(src, p, TagOf(rest[0]), BodyOf(rest[0]) + Encoded(rest[1..]));
    }
  }
}
