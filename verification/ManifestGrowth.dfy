/** A manifest kept on disk: the version its first record describes, and the edits appended since. What makes
    every appended edit replayable is that file numbers are handed out once and files only move down. */
module ManifestGrowth {
  import opened Versions
  import opened Manifest

  /** Numbers the manifest ever put at a level. */
  ghost function Ever(base: Levels, edits: seq<Edit>, level: nat): set<nat>
    requires level < NUM_LEVELS
  {
    Numbers(FilesIn(base[level]) + AllAdded(edits, level))
  }

  ghost predicate Chain(base: Levels, edits: seq<Edit>, vs: seq<Levels>, v: Levels) {
    Folds(vs, edits) && vs[0] == base && vs[|edits|] == v
  }

  /** The edits, applied one version at a time, lead from `base` to `v`. */
  ghost predicate Reaches(base: Levels, edits: seq<Edit>, v: Levels) {
    exists vs :: Chain(base, edits, vs, v)
  }

  ghost predicate NumbersBelow(base: Levels, edits: seq<Edit>, bound: nat) {
    forall l, n | 0 <= l < NUM_LEVELS && n in Ever(base, edits, l) :: n < bound
  }

  /** A live file was never recorded below its level. */
  ghost predicate NeverDeeper(base: Levels, edits: seq<Edit>, v: Levels) {
    forall l, m, f | 0 <= l < m < NUM_LEVELS && f in v[l] :: f.number !in Ever(base, edits, m)
  }

  ghost predicate SoundManifest(base: Levels, edits: seq<Edit>, v: Levels, bound: nat) {
    && Reaches(base, edits, v)
    && FreshNumbers(base, edits) && LevelsSorted(base) && UniqueNumbers(base)
    && NumbersBelow(base, edits, bound) && NeverDeeper(base, edits, v)
  }

  /** Each file an edit adds has a number from `bound` on, or moves down from a shallower level. */
  ghost predicate SoundAdditions(v: Levels, e: Edit, bound: nat, bound': nat) {
    && DistinctAdditions(e)
    && bound <= bound'
    && forall p | p in e.added ::
         && p.0 < NUM_LEVELS && p.1.number < bound'
         && (bound <= p.1.number || exists l :: 0 <= l < p.0 && p.1 in v[l])
  }

  lemma EverAfter(base: Levels, edits: seq<Edit>, e: Edit, level: nat)
    requires level < NUM_LEVELS
    ensures Ever(base, edits + [e], level) == Ever(base, edits, level) + Numbers(AddedFiles(e, level))
  {
    assert (edits + [e])[..|edits|] == edits;
    var old_, added := FilesIn(base[level]) + AllAdded(edits, level), AddedFiles(e, level);
    assert FilesIn(base[level]) + AllAdded(edits + [e], level) == old_ + added;
    NumbersUnion(old_, added);
  }

  lemma NumbersUnion(a: set<File>, b: set<File>)
    ensures Numbers(a + b) == Numbers(a) + Numbers(b)
  {
    forall n | n in Numbers(a) + Numbers(b)
      ensures n in Numbers(a + b)
    {
      var f :| (f in a || f in b) && f.number == n;
      assert f in a + b;
    }
  }

  lemma AdditionIsFresh(base: Levels, edits: seq<Edit>, v: Levels, e: Edit, bound: nat, bound': nat, level: nat, n: nat)
    requires SoundManifest(base, edits, v, bound) && SoundAdditions(v, e, bound, bound')
    requires level < NUM_LEVELS && n in Numbers(AddedFiles(e, level))
    ensures n !in Ever(base, edits, level) && n < bound'
  {
    var f :| f in AddedFiles(e, level) && f.number == n;
    var i :| 0 <= i < |e.added| && e.added[i].0 == level && e.added[i].1 == f;
    assert e.added[i] in e.added;
  }

  lemma ReachesExtends(base: Levels, edits: seq<Edit>, v: Levels, e: Edit, v': Levels)
    requires Reaches(base, edits, v) && Saves(v, [e], v')
    ensures Reaches(base, edits + [e], v')
  {
    var vs :| Chain(base, edits, vs, v);
    var vs', edits' := vs + [v'], edits + [e];
    hide Saves;
    forall n | 0 <= n < |edits'|
      ensures Saves(vs'[n], [edits'[n]], vs'[n + 1])
    {
      if n < |edits| {
        assert Saves(vs[n], [edits[n]], vs[n + 1]);
      }
    }
    assert Chain(base, edits', vs', v');
  }

  lemma FreshExtends(base: Levels, edits: seq<Edit>, v: Levels, e: Edit, bound: nat, bound': nat)
    requires SoundManifest(base, edits, v, bound) && SoundAdditions(v, e, bound, bound')
    ensures FreshNumbers(base, edits + [e])
  {
    var edits' := edits + [e];
    forall n, l | 0 <= n < |edits'| && 0 <= l < NUM_LEVELS
      ensures Numbers(AddedFiles(edits'[n], l)) !! Numbers(FilesIn(base[l]) + AllAdded(edits'[..n], l))
    {
      if n < |edits| {
        assert edits'[..n] == edits[..n];
      } else {
        assert edits'[..n] == edits;
        forall k | k in Numbers(AddedFiles(e, l))
          ensures k !in Ever(base, edits, l)
        {
          AdditionIsFresh(base, edits, v, e, bound, bound', l, k);
        }
      }
    }
    forall n | 0 <= n < |edits'|
      ensures DistinctAdditions(edits'[n])
    {
    }
  }

  lemma AddedIsNotDeeper(base: Levels, edits: seq<Edit>, v: Levels, e: Edit, bound: nat, bound': nat, l: nat, m: nat,
                         f: File)
    requires SoundManifest(base, edits, v, bound) && SoundAdditions(v, e, bound, bound')
    requires l < m < NUM_LEVELS && f in AddedFiles(e, l)
    ensures f.number !in Ever(base, edits, m)
  {
    var i :| 0 <= i < |e.added| && e.added[i].0 == l && e.added[i].1 == f;
    assert e.added[i] in e.added;
  }

  /** After the edit, a file still above a level is not one the edit moved there. */
  lemma NeverDeeperExtends(base: Levels, edits: seq<Edit>, v: Levels, e: Edit, v': Levels, bound: nat, bound': nat)
    requires SoundManifest(base, edits, v, bound) && SoundAdditions(v, e, bound, bound')
    requires Saves(v, [e], v') && UniqueNumbers(v')
    ensures NeverDeeper(base, edits + [e], v')
  {
    forall l, m, f | 0 <= l < m < NUM_LEVELS && f in v'[l]
      ensures f.number !in Ever(base, edits + [e], m)
    {
      EverAfter(base, edits, e, m);
      StillThere(v, e, v', l, f);
      if f in AddedFiles(e, l) {
        AddedIsNotDeeper(base, edits, v, e, bound, bound', l, m, f);
      }
      if f.number in Numbers(AddedFiles(e, m)) {
        var g :| g in AddedFiles(e, m) && g.number == f.number;
        AddedIsThere(v, e, v', m, g);
      }
    }
  }

  lemma StillThere(v: Levels, e: Edit, v': Levels, l: nat, f: File)
    requires Saves(v, [e], v') && l < NUM_LEVELS && f in v'[l]
    ensures f in v[l] || f in AddedFiles(e, l)
  {
    OneEdit(e, l);
  }

  lemma AddedIsThere(v: Levels, e: Edit, v': Levels, l: nat, f: File)
    requires Saves(v, [e], v') && l < NUM_LEVELS && f in AddedFiles(e, l)
    ensures f in v'[l]
  {
    OneEdit(e, l);
    assert f.number in Numbers(AddedFiles(e, l));
  }

  /** Appending such an edit keeps the manifest sound. */
  lemma SoundManifestExtends(base: Levels, edits: seq<Edit>, v: Levels, e: Edit, v': Levels, bound: nat, bound': nat)
    requires SoundManifest(base, edits, v, bound) && SoundAdditions(v, e, bound, bound')
    requires Saves(v, [e], v') && UniqueNumbers(v')
    ensures SoundManifest(base, edits + [e], v', bound')
  {
    ReachesExtends(base, edits, v, e, v');
    FreshExtends(base, edits, v, e, bound, bound');
    NeverDeeperExtends(base, edits, v, e, v', bound, bound');
    forall l, n | 0 <= l < NUM_LEVELS && n in Ever(base, edits + [e], l)
      ensures n < bound'
    {
      EverAfter(base, edits, e, l);
      if n in Numbers(AddedFiles(e, l)) {
        AdditionIsFresh(base, edits, v, e, bound, bound', l, n);
      }
    }
  }

  /** A fresh manifest holds a snapshot of the version and no edits yet. */
  lemma FreshManifestIsSound(v: Levels, bound: nat)
    requires LevelsSorted(v) && UniqueNumbers(v)
    requires forall l, f | 0 <= l < NUM_LEVELS && f in v[l] :: f.number < bound
    ensures SoundManifest(v, [], v, bound)
  {
    assert Chain(v, [], [v], v);
    forall l
      ensures AllAdded([], l) == {}
    {
    }
  }

  /** Recovering a sound manifest rebuilds exactly the version it reached. */
  lemma SoundManifestRecovers(base: Levels, edits: seq<Edit>, v: Levels, bound: nat, w: Levels)
    requires SoundManifest(base, edits, v, bound)
    requires Saves(EMPTY_VERSION, [SnapshotOf(base)] + edits, w)
    ensures w == v
  {
    var vs :| Chain(base, edits, vs, v);
    RecoverRebuildsCurrent(vs, edits, w);
  }

  lemma {:induction false} ReachedFilesWereRecorded(base: Levels, edits: seq<Edit>, vs: seq<Levels>, v: Levels, l: nat,
                                                    f: File)
    requires Chain(base, edits, vs, v) && FreshNumbers(base, edits) && l < NUM_LEVELS && f in v[l]
    ensures f.number in Ever(base, edits, l)
  {
    FoldMembers(vs, edits, l, f);
    assert f in FilesIn(base[l]) + AllAdded(edits, l);
  }

  lemma LiveNumbersBelow(base: Levels, edits: seq<Edit>, v: Levels, bound: nat)
    requires SoundManifest(base, edits, v, bound)
    ensures forall l, f | 0 <= l < NUM_LEVELS && f in v[l] :: f.number < bound
  {
    var vs :| Chain(base, edits, vs, v);
    forall l, f | 0 <= l < NUM_LEVELS && f in v[l]
      ensures f.number < bound
    {
      ReachedFilesWereRecorded(base, edits, vs, v, l, f);
    }
  }
}
