/** The snapshot store: metadata in an ordered database, chunks in files (snapshots/store.go).

  Backend calls succeed. Directories are modelled because `Prune` removes them and fails when one is
  missing or not empty. The hash function is a parameter. */
module SnapshotStore {
  import opened Common
  import opened Lex
  import opened Outcomes
  import opened ChunkStream
  import opened SnapshotKeys

  datatype Snapshot = Snapshot(height: nat, format: nat, chunks: nat, hash: Bytes, chunkHashes: seq<Bytes>)

  datatype SaveResult = Saved(snapshot: Snapshot) | ZeroHeight | AlreadySaving | AlreadyExists

  const UINT32: nat := 0x1_0000_0000

  const MAX_KEY: Bytes := EncodeKey(MAX_HEIGHT, MAX_FORMAT)

  /** The metadata under a key describes the height and format in the key. */
  ghost predicate KeysMatch(db: map<Bytes, Snapshot>) {
    forall k :: k in db ==> DecodeKey(k) == Some((db[k].height, db[k].format))
  }

  lemma MatchedKey(db: map<Bytes, Snapshot>, k: Bytes)
    requires KeysMatch(db) && k in db
    ensures InRange(db[k].height, db[k].format) && k == EncodeKey(db[k].height, db[k].format)
  {
    DecodedKey(k);
  }

  /** The heights the iterators see: everything but the largest possible key, which they exclude. */
  ghost function Heights(db: map<Bytes, Snapshot>): set<nat> {
    set k | k in db && k != MAX_KEY :: db[k].height
  }

  ghost predicate TopHeights(top: set<nat>, all: set<nat>, retain: nat) {
    && top <= all
    && |top| == (if retain < |all| then retain else |all|)
    && forall a, b :: a in top && b in all && b !in top ==> b < a
  }

  /** There is only one set of the `retain` greatest heights. */
  lemma TopHeightsUnique(s: set<nat>, t: set<nat>, all: set<nat>, retain: nat)
    requires TopHeights(s, all, retain) && TopHeights(t, all, retain)
    ensures s == t
  {
    assert s == s * t + (s - t) && t == s * t + (t - s);
    assert |s - t| == |t - s|;
    assert forall a, b :: a in s - t && b in t - s ==> b < a && a < b;
    assert s - t == {} || t - s == {};
  }

  ghost function Kept(db: map<Bytes, Snapshot>, top: set<nat>): map<Bytes, Snapshot> {
    map k | k in db && (k == MAX_KEY || db[k].height in top) :: db[k]
  }

  // ---------------------------------------------------------------- the first loop of Prune

  ghost predicate NonIncreasing(hs: seq<nat>) {
    forall i, j :: 0 <= i < j < |hs| ==> hs[j] <= hs[i]
  }

  /** After the first `i` heights `skip` are the ones kept. A height is dropped only when `retain`
      greater ones are kept. */
  ghost predicate Progress(hs: seq<nat>, i: nat, retain: nat, skip: set<nat>) {
    && i <= |hs|
    && |skip| <= retain
    && (forall a :: a in skip ==> a in hs[..i])
    && (forall j :: 0 <= j < i && hs[j] !in skip ==> |skip| == retain)
    && (forall j, a :: 0 <= j < i && hs[j] !in skip && a in skip ==> hs[j] < a)
  }

  lemma ProgressKeep(hs: seq<nat>, i: nat, retain: nat, skip: set<nat>)
    requires NonIncreasing(hs) && Progress(hs, i, retain, skip) && i < |hs|
    requires hs[i] in skip || |skip| < retain
    ensures Progress(hs, i + 1, retain, skip + {hs[i]})
    ensures forall j :: 0 <= j < i ==> (hs[j] in skip + {hs[i]} <==> hs[j] in skip)
  {
    hide Progress;
    if hs[i] in skip {
      ProgressAgain(hs, i, retain, skip);
      assert skip + {hs[i]} == skip;
    } else {
      ProgressNew(hs, i, retain, skip);
    }
  }

  lemma ProgressAgain(hs: seq<nat>, i: nat, retain: nat, skip: set<nat>)
    requires Progress(hs, i, retain, skip) && i < |hs| && hs[i] in skip
    ensures Progress(hs, i + 1, retain, skip)
  {
    forall a | a in skip ensures a in hs[..i + 1] {
      assert a in hs[..i];
    }
  }

  /** As long as there is room, every height so far is kept. */
  lemma ProgressNew(hs: seq<nat>, i: nat, retain: nat, skip: set<nat>)
    requires Progress(hs, i, retain, skip) && i < |hs| && hs[i] !in skip && |skip| < retain
    ensures Progress(hs, i + 1, retain, skip + {hs[i]})
    ensures forall j :: 0 <= j < i ==> hs[j] in skip
  {
    var more := skip + {hs[i]};
    assert forall j :: 0 <= j < i ==> hs[j] in skip;
    forall a | a in more ensures a in hs[..i + 1] {
      if a in skip {
        assert a in hs[..i];
      } else {
        assert hs[..i + 1][i] == a;
      }
    }
  }

  lemma ProgressDrop(hs: seq<nat>, i: nat, retain: nat, skip: set<nat>)
    requires NonIncreasing(hs) && Progress(hs, i, retain, skip) && i < |hs|
    requires hs[i] !in skip && |skip| >= retain
    ensures Progress(hs, i + 1, retain, skip)
    ensures forall j :: i <= j < |hs| ==> hs[j] !in skip
  {
    assert hs[..i + 1] == hs[..i] + [hs[i]];
    forall a | a in skip ensures hs[i] < a {
      var j :| 0 <= j < i && hs[j] == a;
    }
  }

  /** When a height has to be dropped, or at the end, `skip` is the set of the greatest heights. */
  lemma ProgressTop(hs: seq<nat>, i: nat, retain: nat, skip: set<nat>, all: set<nat>)
    requires NonIncreasing(hs) && Progress(hs, i, retain, skip)
    requires i < |hs| ==> hs[i] !in skip && |skip| >= retain
    requires forall h :: h in all <==> h in hs
    ensures TopHeights(skip, all, retain)
  {
    assert skip <= all by {
      forall a | a in skip ensures a in all { assert a in hs[..i]; }
    }
    SubsetCount(skip, all);
    if i < |hs| {
      ProgressDrop(hs, i, retain, skip);
    }
    forall a, b | a in skip && b in all && b !in skip ensures b < a {
      var j :| 0 <= j < |hs| && hs[j] == b;
      if j >= i {
        var l :| 0 <= l < i && hs[l] == a;
      }
    }
    if |skip| < retain {
      assert all == skip;
    }
  }

  // ---------------------------------------------------------------- iterating over the database

  /** The iterator's keys and the heights they stand for. */
  ghost predicate Iterated(db: map<Bytes, Snapshot>, ks: seq<Bytes>, hs: seq<nat>) {
    && |ks| == |hs|
    && (forall j :: 0 <= j < |ks| ==> ks[j] in db && ks[j] != MAX_KEY && db[ks[j]].height == hs[j])
    && (forall k :: k in db && k != MAX_KEY ==> k in ks)
    && Distinct(ks)
    && NonIncreasing(hs)
  }

  ghost predicate Distinct(ks: seq<Bytes>) {
    forall i, j :: 0 <= i < j < |ks| ==> ks[i] != ks[j]
  }

  lemma KeyInIteration(db: map<Bytes, Snapshot>, k: Bytes)
    requires KeysMatch(db) && k in db
    ensures !Less(k, EncodeKey(0, 0))
    ensures Less(k, MAX_KEY) <==> k != MAX_KEY
  {
    hide EncodeKey, Less;
    MatchedKey(db, k);
    KeyOrder(db[k].height, db[k].format, 0, 0);
    KeyOrder(db[k].height, db[k].format, MAX_HEIGHT, MAX_FORMAT);
    LessIrreflexive(k);
  }

  lemma LaterKey(db: map<Bytes, Snapshot>, k: Bytes, l: Bytes)
    requires KeysMatch(db) && k in db && l in db && Less(l, k)
    ensures db[l].height <= db[k].height && k != l
  {
    hide EncodeKey, Less;
    MatchedKey(db, k);
    MatchedKey(db, l);
    KeyOrder(db[l].height, db[l].format, db[k].height, db[k].format);
    LessIrreflexive(k);
  }

  /** `ReverseIterator` over the whole key range yields every snapshot but the largest possible one,
      from the greatest height down. */
  method Iterate(db: map<Bytes, Snapshot>) returns (ks: seq<Bytes>, ghost hs: seq<nat>)
    requires KeysMatch(db)
    ensures Iterated(db, ks, hs)
    ensures Descending(ks)
  {
    hide EncodeKey, Less;
    ks := ReverseIterate(db.Keys, EncodeKey(0, 0), MAX_KEY);
    forall k | k in db ensures k in ks <==> k != MAX_KEY {
      KeyInIteration(db, k);
    }
    assert forall j :: 0 <= j < |ks| ==> ks[j] in ks;
    hs := seq(|ks|, j requires 0 <= j < |ks| => db[ks[j]].height);
    forall i, j | 0 <= i < j < |ks| ensures hs[j] <= hs[i] && ks[i] != ks[j] {
      LaterKey(db, ks[i], ks[j]);
    }
  }

  lemma HeightsIterated(db: map<Bytes, Snapshot>, ks: seq<Bytes>, hs: seq<nat>)
    requires Iterated(db, ks, hs)
    ensures forall h :: h in Heights(db) <==> h in hs
  {
    forall h | h in Heights(db) ensures h in hs {
      var k :| k in db && k != MAX_KEY && db[k].height == h;
      var j :| 0 <= j < |ks| && ks[j] == k;
      assert hs[j] == h;
    }
  }

  // ---------------------------------------------------------------- deleting

  /** Chunk files by format directory, a directory being named by height and format. */
  type Dirs = map<(nat, nat), map<nat, Bytes>>

  ghost predicate DirsInRange(dirs: Dirs) {
    forall d :: d in dirs ==> InRange(d.0, d.1)
  }

  ghost function WithoutDirs(dirs: Dirs, gone: set<Bytes>): Dirs {
    map d | d in dirs && EncodeKey(d.0, d.1) !in gone :: dirs[d]
  }

  lemma RemoveOneDir(dirs: Dirs, gone: set<Bytes>, h: nat, f: nat)
    requires DirsInRange(dirs) && InRange(h, f)
    ensures WithoutDirs(dirs, gone + {EncodeKey(h, f)}) == WithoutDirs(dirs, gone) - {(h, f)}
  {
    hide EncodeKey, DecodeKey;
    KeyRoundTrip(h, f);
    forall d | d in dirs ensures EncodeKey(d.0, d.1) == EncodeKey(h, f) <==> d == (h, f) {
      KeyRoundTrip(d.0, d.1);
    }
  }

  /** The keys deleted among the first `i`, and their heights. */
  ghost predicate Deleted(ks: seq<Bytes>, hs: seq<nat>, i: nat, skip: set<nat>, gone: set<Bytes>, heights: set<nat>)
    requires |ks| == |hs| && i <= |ks|
  {
    && (forall j :: 0 <= j < i ==> (ks[j] in gone <==> hs[j] !in skip))
    && (forall k :: k in gone ==> k in ks[..i])
    && (forall j :: 0 <= j < i && hs[j] !in skip ==> hs[j] in heights)
    && (forall h :: h in heights ==> h in hs[..i] && h !in skip)
  }

  lemma DeletedKeep(ks: seq<Bytes>, hs: seq<nat>, i: nat, retain: nat, skip: set<nat>,
                    gone: set<Bytes>, heights: set<nat>)
    requires |ks| == |hs| && Distinct(ks) && NonIncreasing(hs) && Progress(hs, i, retain, skip) && i < |ks|
    requires hs[i] in skip || |skip| < retain
    requires Deleted(ks, hs, i, skip, gone, heights)
    ensures Progress(hs, i + 1, retain, skip + {hs[i]})
    ensures Deleted(ks, hs, i + 1, skip + {hs[i]}, gone, heights)
  {
    hide Progress, NonIncreasing;
    ProgressKeep(hs, i, retain, skip);
    assert ks[..i + 1] == ks[..i] + [ks[i]] && hs[..i + 1] == hs[..i] + [hs[i]];
    assert ks[i] !in gone;
  }

  lemma DeletedDrop(ks: seq<Bytes>, hs: seq<nat>, i: nat, retain: nat, skip: set<nat>,
                    gone: set<Bytes>, heights: set<nat>)
    requires |ks| == |hs| && Distinct(ks) && NonIncreasing(hs) && Progress(hs, i, retain, skip) && i < |ks|
    requires hs[i] !in skip && |skip| >= retain
    requires Deleted(ks, hs, i, skip, gone, heights)
    ensures Progress(hs, i + 1, retain, skip)
    ensures Deleted(ks, hs, i + 1, skip, gone + {ks[i]}, heights + {hs[i]})
    ensures ks[i] !in gone
  {
    hide Progress, NonIncreasing;
    ProgressDrop(hs, i, retain, skip);
    assert ks[..i + 1] == ks[..i] + [ks[i]] && hs[..i + 1] == hs[..i] + [hs[i]];
  }

  /** What the first loop of `Prune` works on. */
  datatype Scan = Scan(db: map<Bytes, Snapshot>, dirs: Dirs, ks: seq<Bytes>, hs: seq<nat>, retain: nat)

  ghost predicate Dropping(s: Scan, i: nat, skip: set<nat>, gone: set<Bytes>, heights: set<nat>) {
    && KeysMatch(s.db) && DirsInRange(s.dirs) && Iterated(s.db, s.ks, s.hs)
    && i <= |s.ks|
    && Progress(s.hs, i, s.retain, skip)
    && Deleted(s.ks, s.hs, i, skip, gone, heights)
  }

  /** The next height has to be dropped. */
  ghost predicate Stuck(s: Scan, i: nat, skip: set<nat>) {
    i < |s.ks| && i < |s.hs| && s.hs[i] !in skip && |skip| >= s.retain
  }

  lemma DroppingNothing(s: Scan)
    requires KeysMatch(s.db) && DirsInRange(s.dirs) && Iterated(s.db, s.ks, s.hs)
    ensures Dropping(s, 0, {}, {}, {})
  {
    hide EncodeKey;
  }

  lemma DroppingStart(s: Scan)
    requires Dropping(s, 0, {}, {}, {})
    ensures s.db - {} == s.db && WithoutDirs(s.dirs, {}) == s.dirs
  {
    hide EncodeKey;
  }

  lemma DroppingKey(s: Scan, i: nat, skip: set<nat>, gone: set<Bytes>, heights: set<nat>)
    requires Dropping(s, i, skip, gone, heights) && i < |s.ks|
    ensures i < |s.hs| && DecodeKey(s.ks[i]).Some? && DecodeKey(s.ks[i]).value.0 == s.hs[i]
    ensures InRange(s.hs[i], DecodeKey(s.ks[i]).value.1)
    ensures EncodeKey(s.hs[i], DecodeKey(s.ks[i]).value.1) == s.ks[i]
  {
    hide EncodeKey, Progress, Deleted;
    MatchedKey(s.db, s.ks[i]);
  }

  lemma DroppingKeep(s: Scan, i: nat, skip: set<nat>, gone: set<Bytes>, heights: set<nat>)
    requires Dropping(s, i, skip, gone, heights) && i < |s.ks| && i < |s.hs|
    requires s.hs[i] in skip || |skip| < s.retain
    ensures Dropping(s, i + 1, skip + {s.hs[i]}, gone, heights)
  {
    hide EncodeKey, Progress, Deleted, Distinct, NonIncreasing;
    DeletedKeep(s.ks, s.hs, i, s.retain, skip, gone, heights);
  }

  lemma DroppingDrop(s: Scan, i: nat, skip: set<nat>, gone: set<Bytes>, heights: set<nat>)
    requires Dropping(s, i, skip, gone, heights) && i < |s.ks| && i < |s.hs|
    requires s.hs[i] !in skip && |skip| >= s.retain
    ensures Stuck(s, i, skip)
    ensures Dropping(s, i + 1, skip, gone + {s.ks[i]}, heights + {s.hs[i]})
    ensures s.ks[i] !in gone
    ensures DecodeKey(s.ks[i]).Some? && InRange(s.hs[i], DecodeKey(s.ks[i]).value.1)
    ensures WithoutDirs(s.dirs, gone + {s.ks[i]})
         == WithoutDirs(s.dirs, gone) - {(s.hs[i], DecodeKey(s.ks[i]).value.1)}
  {
    hide EncodeKey, Progress, Deleted, Distinct, NonIncreasing, WithoutDirs;
    DeletedDrop(s.ks, s.hs, i, s.retain, skip, gone, heights);
    DroppingKey(s, i, skip, gone, heights);
    RemoveOneDir(s.dirs, gone, s.hs[i], DecodeKey(s.ks[i]).value.1);
  }

  /** At the end, or when a height cannot be deleted, the greatest heights are known and still there. */
  lemma DroppingEnd(s: Scan, i: nat, skip: set<nat>, gone: set<Bytes>, heights: set<nat>)
    requires Dropping(s, i, skip, gone, heights)
    requires i == |s.ks| || Stuck(s, i, skip)
    ensures TopHeights(skip, Heights(s.db), s.retain)
    ensures Retains(s.db, s.db - gone, skip)
    ensures Stuck(s, i, skip) ==> i < |s.hs| && s.hs[i] in Heights(s.db) && s.hs[i] !in skip
  {
    hide EncodeKey, Progress, Deleted, Distinct, NonIncreasing, Heights, TopHeights, Retains;
    HeightsIterated(s.db, s.ks, s.hs);
    ProgressTop(s.hs, i, s.retain, skip, Heights(s.db));
    RetainedSurvive(s.db, s.ks, s.hs, i, skip, gone, heights);
    if i < |s.ks| { assert s.hs[i] in s.hs; }
  }

  lemma RetainedSurvive(db: map<Bytes, Snapshot>, ks: seq<Bytes>, hs: seq<nat>, i: nat,
                        skip: set<nat>, gone: set<Bytes>, heights: set<nat>)
    requires Iterated(db, ks, hs) && i <= |ks| && Deleted(ks, hs, i, skip, gone, heights)
    ensures Retains(db, db - gone, skip)
  {
    hide EncodeKey;
    forall k | k in gone ensures k in db && k != MAX_KEY && db[k].height !in skip {
      var j :| 0 <= j < i && ks[j] == k;
    }
  }

  lemma KeptIsRest(db: map<Bytes, Snapshot>, skip: set<nat>, gone: set<Bytes>)
    requires IsGone(db, skip, gone)
    ensures db - gone == Kept(db, skip)
    ensures |gone| == |db| - |Kept(db, skip)|
  {
    hide EncodeKey;
    assert db.Keys == gone + (db.Keys - gone);
    assert (db - gone).Keys == db.Keys - gone;
  }

  lemma DeletedHeights(db: map<Bytes, Snapshot>, ks: seq<Bytes>, hs: seq<nat>, skip: set<nat>,
                       gone: set<Bytes>, heights: set<nat>)
    requires Iterated(db, ks, hs) && Deleted(ks, hs, |ks|, skip, gone, heights)
    ensures heights == Heights(db) - skip
  {
    hide EncodeKey, Heights;
    HeightsIterated(db, ks, hs);
    assert hs[..|ks|] == hs;
    forall h | h in Heights(db) && h !in skip ensures h in heights {
      var j :| 0 <= j < |hs| && hs[j] == h;
    }
  }

  ghost predicate IsGone(db: map<Bytes, Snapshot>, skip: set<nat>, gone: set<Bytes>) {
    forall k :: k in gone <==> k in db && k != MAX_KEY && db[k].height !in skip
  }

  lemma AllDeleted(s: Scan, skip: set<nat>, gone: set<Bytes>, heights: set<nat>)
    requires Dropping(s, |s.ks|, skip, gone, heights)
    ensures s.db - gone == Kept(s.db, skip)
    ensures |gone| == |s.db| - |Kept(s.db, skip)|
    ensures heights == Heights(s.db) - skip
    ensures IsGone(s.db, skip, gone)
  {
    hide EncodeKey, Deleted, Iterated, Heights, Kept;
    DeletedHeights(s.db, s.ks, s.hs, skip, gone, heights);
    forall k ensures k in gone <==> k in s.db && k != MAX_KEY && s.db[k].height !in skip {
      GoneKey(s.db, s.ks, s.hs, skip, gone, heights, k);
    }
    KeptIsRest(s.db, skip, gone);
  }

  lemma GoneKey(db: map<Bytes, Snapshot>, ks: seq<Bytes>, hs: seq<nat>, skip: set<nat>,
                gone: set<Bytes>, heights: set<nat>, k: Bytes)
    requires Iterated(db, ks, hs) && Deleted(ks, hs, |ks|, skip, gone, heights)
    ensures k in gone <==> k in db && k != MAX_KEY && db[k].height !in skip
  {
    hide EncodeKey;
    if k in gone {
      assert k in ks[..|ks|];
      var j :| 0 <= j < |ks| && ks[j] == k;
    }
    if k in db && k != MAX_KEY {
      var j :| 0 <= j < |ks| && ks[j] == k;
    }
  }

  /** What a failed prune still guarantees: nothing to be kept is lost and nothing is added. */
  ghost predicate Retains(before: map<Bytes, Snapshot>, after: map<Bytes, Snapshot>, top: set<nat>) {
    && (forall k :: k in after ==> k in before && after[k] == before[k])
    && (forall k :: k in before && (k == MAX_KEY || before[k].height in top) ==> k in after)
  }

  /** The height can be pruned: it is not being saved, its directory exists, and the directory holds
      nothing but snapshots that are pruned with it. */
  ghost predicate Prunable(db: map<Bytes, Snapshot>, saving: set<nat>, heightDirs: set<nat>, dirs: Dirs, h: nat) {
    && h !in saving
    && h in heightDirs
    && forall d :: d in dirs && d.0 == h ==> EncodeKey(d.0, d.1) in db && EncodeKey(d.0, d.1) != MAX_KEY
  }

  ghost predicate AllPrunable(db: map<Bytes, Snapshot>, saving: set<nat>, heightDirs: set<nat>, dirs: Dirs,
                              heights: set<nat>)
  {
    forall h :: h in heights ==> Prunable(db, saving, heightDirs, dirs, h)
  }

  /** The directory of `h` exists and is empty. */
  ghost predicate Removable(heightDirs: set<nat>, dirs: Dirs, h: nat) {
    h in heightDirs && forall d :: d in dirs ==> d.0 != h
  }

  ghost predicate AllRemovable(heightDirs: set<nat>, dirs: Dirs, heights: set<nat>) {
    forall h :: h in heights ==> Removable(heightDirs, dirs, h)
  }

  lemma NotPrunable(s: Scan, saving: set<nat>, heightDirs: set<nat>, heights: set<nat>, h: nat)
    requires h in saving && h in heights
    ensures !AllPrunable(s.db, saving, heightDirs, s.dirs, heights)
  {
    assert !Prunable(s.db, saving, heightDirs, s.dirs, h);
  }

  lemma PrunableHeight(s: Scan, saving: set<nat>, heightDirs: set<nat>, skip: set<nat>, gone: set<Bytes>, h: nat)
    requires KeysMatch(s.db) && DirsInRange(s.dirs) && IsGone(s.db, skip, gone)
    requires h !in skip && h !in saving
    ensures Prunable(s.db, saving, heightDirs, s.dirs, h) <==> Removable(heightDirs, WithoutDirs(s.dirs, gone), h)
  {
    hide EncodeKey, DecodeKey;
    forall d | d in s.dirs && d.0 == h
      ensures d in WithoutDirs(s.dirs, gone) <==> !(EncodeKey(d.0, d.1) in s.db && EncodeKey(d.0, d.1) != MAX_KEY)
    {
      KeyRoundTrip(d.0, d.1);
    }
  }

  /** After the first loop the directories left decide whether the second one succeeds. */
  lemma PrunableHeights(s: Scan, saving: set<nat>, heightDirs: set<nat>, skip: set<nat>,
                        gone: set<Bytes>, heights: set<nat>)
    requires Dropping(s, |s.ks|, skip, gone, heights) && IsGone(s.db, skip, gone)
    requires heights * saving == {} && heights * skip == {}
    ensures AllPrunable(s.db, saving, heightDirs, s.dirs, heights)
       <==> AllRemovable(heightDirs, WithoutDirs(s.dirs, gone), heights)
  {
    hide EncodeKey, Prunable, Removable, IsGone, Iterated, Progress, Deleted, WithoutDirs;
    forall h | h in heights
      ensures Prunable(s.db, saving, heightDirs, s.dirs, h) <==> Removable(heightDirs, WithoutDirs(s.dirs, gone), h)
    {
      assert h !in heights * saving && h !in heights * skip;
      PrunableHeight(s, saving, heightDirs, skip, gone, h);
    }
  }

  /** File names are 32-bit chunk numbers: chunk `j` of `n` is still there unless a later chunk has the same
      number. */
  predicate Live(j: nat, n: nat) {
    j < n <= j + UINT32
  }

  lemma NumbersApart(j: nat, n: nat)
    requires j < n < j + UINT32
    ensures j % UINT32 != n % UINT32
  {
  }

  /** The chunk whose file a loaded chunk number names: one of the last `n % 2^32` chunks. */
  function LastLap(i: nat, n: nat): (j: nat)
    requires i < n % UINT32
    ensures Live(j, n) && j % UINT32 == i
  {
    n - n % UINT32 + i
  }

  /** The snapshot's chunks are on disk with the hashes in its metadata, and the chunk count is 32 bits. */
  ghost predicate StoredIn(s: Snapshot, dirs: Dirs, sha256: Bytes -> Bytes) {
    && s.chunks == |s.chunkHashes| % UINT32
    && forall j :: 0 <= j < |s.chunkHashes| && Live(j, |s.chunkHashes|) ==>
         && (s.height, s.format) in dirs && j % UINT32 in dirs[(s.height, s.format)]
         && sha256(dirs[(s.height, s.format)][j % UINT32]) == s.chunkHashes[j]
  }

  function FilesIn(dirs: Dirs, height: nat, format: nat): map<nat, Bytes> {
    if (height, format) in dirs then dirs[(height, format)] else map[]
  }

  /** The first `n` chunks have been written, each to the file of its number. */
  ghost predicate OnDisk(dirs: Dirs, height: nat, format: nat, chunks: seq<Bytes>, n: nat) {
    n <= |chunks| && forall j :: 0 <= j < n && Live(j, n) ==>
      var files := FilesIn(dirs, height, format);
      j % UINT32 in files && files[j % UINT32] == chunks[j]
  }

  lemma OnDiskNext(before: Dirs, after: Dirs, height: nat, format: nat, chunks: seq<Bytes>, n: nat)
    requires n < |chunks| && OnDisk(before, height, format, chunks, n)
    requires FilesIn(after, height, format) == FilesIn(before, height, format)[n % UINT32 := chunks[n]]
    ensures OnDisk(after, height, format, chunks, n + 1)
  {
    hide FilesIn;
    forall j | 0 <= j < n + 1 && Live(j, n + 1)
      ensures var files := FilesIn(after, height, format);
        j % UINT32 in files && files[j % UINT32] == chunks[j]
    {
      if j < n {
        NumbersApart(j, n);
      }
    }
  }

  lemma StoredFromDisk(s: Snapshot, dirs: Dirs, chunks: seq<Bytes>, sha256: Bytes -> Bytes)
    requires OnDisk(dirs, s.height, s.format, chunks, |chunks|) && Hashed(chunks, s.chunkHashes, sha256)
    requires s.chunks == |chunks| % UINT32
    ensures StoredIn(s, dirs, sha256)
  {
    forall j | 0 <= j < |chunks| && Live(j, |chunks|)
      ensures var files := FilesIn(dirs, s.height, s.format);
        (s.height, s.format) in dirs && j % UINT32 in files && sha256(files[j % UINT32]) == s.chunkHashes[j]
    {
    }
  }

  /** The hash in the metadata that belongs to chunk number `i`. Below 2^32 chunks it is the one at `i`. */
  function HashOf(s: Snapshot, i: nat): Bytes
    requires s.chunks == |s.chunkHashes| % UINT32 && i < s.chunks
  {
    s.chunkHashes[LastLap(i, |s.chunkHashes|)]
  }

  lemma StoredChunk(s: Snapshot, dirs: Dirs, sha256: Bytes -> Bytes, i: nat)
    requires StoredIn(s, dirs, sha256) && i < s.chunks
    ensures var files := FilesIn(dirs, s.height, s.format);
      (s.height, s.format) in dirs && i in files && sha256(files[i]) == HashOf(s, i)
  {
    var j := LastLap(i, |s.chunkHashes|);
    assert s.chunkHashes[j] == s.chunkHashes[j];
  }

  /** Chunks read from the files numbered from zero. */
  ghost predicate ReadFrom(dirs: Dirs, height: nat, format: nat, chunks: seq<Bytes>, n: nat) {
    n == |chunks| && forall i :: 0 <= i < n ==>
      i in FilesIn(dirs, height, format) && FilesIn(dirs, height, format)[i] == chunks[i]
  }

  /** Below 2^32 chunks, what is read back is what was written. */
  lemma ReadBack(dirs: Dirs, height: nat, format: nat, chunks: seq<Bytes>, parts: seq<Bytes>)
    requires |chunks| == |parts| < UINT32
    requires OnDisk(dirs, height, format, chunks, |chunks|) && ReadFrom(dirs, height, format, parts, |parts|)
    ensures parts == chunks
  {
    forall i | 0 <= i < |chunks| ensures chunks[i] == parts[i] {
      assert Live(i, |chunks|);
    }
  }

  ghost predicate Hashed(chunks: seq<Bytes>, hashes: seq<Bytes>, sha256: Bytes -> Bytes) {
    |hashes| == |chunks| && forall i :: 0 <= i < |chunks| ==> hashes[i] == sha256(chunks[i])
  }

  ghost predicate Describes(s: Snapshot, height: nat, format: nat, chunks: seq<Bytes>, sha256: Bytes -> Bytes) {
    && s.height == height && s.format == format && s.chunks == |chunks| % UINT32
    && s.hash == sha256(Concat(chunks))
    && Hashed(chunks, s.chunkHashes, sha256)
  }

  class Store {
    const sha256: Bytes -> Bytes
    var db: map<Bytes, Snapshot>
    var dirs: Dirs
    var heightDirs: set<nat>
    var saving: set<nat>

    ghost predicate Valid()
      reads this
    {
      && KeysMatch(db)
      && DirsInRange(dirs)
      && (forall k :: k in db ==> StoredIn(db[k], dirs, sha256))
      && (forall d :: d in dirs ==> d.0 in heightDirs)
    }

    lemma ValidParts()
      requires Valid()
      ensures KeysMatch(db) && DirsInRange(dirs)
    {
    }

    constructor (hash: Bytes -> Bytes)
      ensures Valid() && db == map[] && saving == {} && sha256 == hash
    {
      sha256 := hash;
      db := map[];
      dirs := map[];
      heightDirs := {};
      saving := {};
    }

    /** `Delete` refuses while the height is being saved. */
    method Delete(height: nat, format: nat) returns (ok: bool)
      requires Valid() && InRange(height, format)
      modifies this`db, this`dirs
      ensures Valid()
      ensures ok <==> height !in saving
      ensures ok ==> db == old(db) - {EncodeKey(height, format)} && dirs == old(dirs) - {(height, format)}
      ensures !ok ==> db == old(db) && dirs == old(dirs)
    {
      hide EncodeKey, DecodeKey;
      if height in saving {
        return false;
      }
      KeyRoundTrip(height, format);
      forall k | k in db && k != EncodeKey(height, format)
        ensures (db[k].height, db[k].format) != (height, format)
      {
        MatchedKey(db, k);
      }
      db := db - {EncodeKey(height, format)};
      dirs := dirs - {(height, format)};
      return true;
    }

    /** `GetLatest`: the snapshot with the greatest height, and among those the greatest format. The
        largest possible key is never looked at. */
    method GetLatest() returns (r: Option<Snapshot>)
      requires Valid()
      ensures r.None? <==> forall k :: k in db ==> k == MAX_KEY
      ensures r.Some? ==> exists k :: k in db && k != MAX_KEY && db[k] == r.value
      ensures r.Some? ==> forall k :: k in db && k != MAX_KEY ==>
                !Before(r.value.height, r.value.format, db[k].height, db[k].format)
    {
      hide EncodeKey, Less;
      var ks, hs := Iterate(db);
      if ks == [] {
        return None;
      }
      assert ks[0] in db;
      forall k | k in db && k != MAX_KEY
        ensures !Before(db[ks[0]].height, db[ks[0]].format, db[k].height, db[k].format)
      {
        var j :| 0 <= j < |ks| && ks[j] == k;
        MatchedKey(db, ks[0]);
        MatchedKey(db, k);
        if j > 0 {
          KeyOrder(db[k].height, db[k].format, db[ks[0]].height, db[ks[0]].format);
        }
      }
      return Some(db[ks[0]]);
    }

    /** `List`: every snapshot the iterator sees, newest first. */
    method List() returns (r: seq<Snapshot>)
      requires Valid()
      ensures forall s :: s in r <==> exists k :: k in db && k != MAX_KEY && db[k] == s
      ensures forall i, j :: 0 <= i < j < |r| ==> Before(r[j].height, r[j].format, r[i].height, r[i].format)
    {
      hide EncodeKey, Less;
      var entries := db;
      var ks, hs := Iterate(entries);
      r := seq(|ks|, j requires 0 <= j < |ks| => entries[ks[j]]);
      forall i, j | 0 <= i < j < |r| ensures Before(r[j].height, r[j].format, r[i].height, r[i].format) {
        MatchedKey(entries, ks[i]);
        MatchedKey(entries, ks[j]);
        KeyOrder(r[j].height, r[j].format, r[i].height, r[i].format);
      }
      forall s | exists k :: k in db && k != MAX_KEY && db[k] == s ensures s in r {
        var k :| k in db && k != MAX_KEY && db[k] == s;
        var j :| 0 <= j < |ks| && ks[j] == k;
        assert r[j] == s;
      }
    }

    /** `Prune` keeps every format of the `retain` greatest heights, removes all other snapshots and
        returns their number. It succeeds exactly when every dropped height can be pruned; when it
        fails, what was to be kept is still there. */
    method Prune(retain: nat) returns (r: Option<nat>, ghost kept: set<nat>)
      requires Valid()
      modifies this`db, this`dirs, this`heightDirs
      ensures Valid()
      ensures TopHeights(kept, Heights(old(db)), retain)
      ensures r.Some? <==> AllPrunable(old(db), saving, old(heightDirs), old(dirs), Heights(old(db)) - kept)
      ensures r.Some? ==> db == Kept(old(db), kept) && r.value == |old(db)| - |db|
      ensures Retains(old(db), db, kept)
    {
      hide *;
      ValidParts();
      var ks, hs := Iterate(db);
      ghost var scan := Scan(db, dirs, ks, hs, retain);
      DroppingNothing(scan);
      ghost var at: nat, gone: set<Bytes>;
      var ok, pruned, heights;
      ok, pruned, heights, at, kept, gone := DropOldest(scan, ks, retain);
      DroppingEnd(scan, at, kept, gone, heights);
      if !ok {
        NotPrunable(scan, saving, heightDirs, Heights(scan.db) - kept, scan.hs[at]);
        return None, kept;
      }
      AllDeleted(scan, kept, gone, heights);
      PrunableHeights(scan, saving, heightDirs, kept, gone, heights);
      var done := RemoveHeightDirs(heights);
      r := if done then Some(pruned) else None;
    }

    /** The first loop of `Prune`: walk the keys downwards, keep `retain` heights, delete the rest. It
        stops at a height that is being saved. */
    method DropOldest(ghost scan: Scan, ks: seq<Bytes>, retain: nat)
      returns (ok: bool, pruned: nat, heights: set<nat>, ghost at: nat, ghost skipped: set<nat>, ghost gone: set<Bytes>)
      requires Valid() && Dropping(scan, 0, {}, {}, {})
      requires scan.db == db && scan.dirs == dirs && scan.ks == ks && scan.retain == retain
      modifies this`db, this`dirs
      ensures Valid()
      ensures Dropping(scan, at, skipped, gone, heights)
      ensures db == scan.db - gone && dirs == WithoutDirs(scan.dirs, gone) && pruned == |gone|
      ensures heights * saving == {}
      ensures ok ==> at == |ks|
      ensures !ok ==> Stuck(scan, at, skipped) && scan.hs[at] in saving
    {
      hide *;
      DroppingStart(scan);
      var skip: set<nat>, i: nat := {}, 0;
      pruned, heights, gone := 0, {}, {};
      while i < |ks|
        invariant i <= |ks|
        invariant Valid()
        invariant Dropping(scan, i, skip, gone, heights)
        invariant db == scan.db - gone && dirs == WithoutDirs(scan.dirs, gone) && pruned == |gone|
        invariant heights * saving == {}
      {
        DroppingKey(scan, i, skip, gone, heights);
        var decoded := DecodeKey(ks[i]);
        var height, format := decoded.value.0, decoded.value.1;
        if height in skip || |skip| < retain {
          DroppingKeep(scan, i, skip, gone, heights);
          skip := skip + {height};
        } else {
          DroppingDrop(scan, i, skip, gone, heights);
          ok := Delete(height, format);
          if !ok {
            at, skipped := i, skip;
            return;
          }
          assert db == scan.db - (gone + {ks[i]});
          pruned, gone, heights := pruned + 1, gone + {ks[i]}, heights + {height};
        }
        i := i + 1;
      }
      ok, at, skipped := true, i, skip;
    }

    /** The second loop of `Prune`, in any order: an absent or non-empty directory stops it. */
    method RemoveHeightDirs(heights: set<nat>) returns (ok: bool)
      requires Valid()
      modifies this`heightDirs
      ensures Valid()
      ensures ok <==> AllRemovable(old(heightDirs), dirs, heights)
    {
      var rest := heights;
      while rest != {}
        invariant Valid() && rest <= heights
        invariant forall h :: h in rest ==> (h in heightDirs <==> h in old(heightDirs))
        invariant forall h :: h in heights && h !in rest ==> Removable(old(heightDirs), dirs, h)
        decreases rest
      {
        var h :| h in rest;
        if h !in heightDirs || exists d | d in dirs :: d.0 == h {
          return false;
        }
        heightDirs := heightDirs - {h};
        rest := rest - {h};
      }
      return true;
    }

    /** Whether a snapshot with this height and format is in the database. */
    ghost predicate Has(height: nat, format: nat)
      reads this
    {
      EncodeKey(height, format) in db
    }

    lemma OtherSnapshot(height: nat, format: nat, k: Bytes)
      requires Valid() && InRange(height, format) && !Has(height, format) && k in db
      ensures (db[k].height, db[k].format) != (height, format)
    {
      hide EncodeKey, DecodeKey, StoredIn;
      MatchedKey(db, k);
    }

    /** One turn of the loop of `Save`: make the directory and create the chunk file. */
    method WriteChunk(height: nat, format: nat, index: nat, body: Bytes)
      requires Valid() && InRange(height, format) && !Has(height, format)
      modifies this`dirs, this`heightDirs
      ensures Valid()
      ensures (height, format) in dirs
      ensures dirs == old(dirs)[(height, format) := FilesIn(old(dirs), height, format)[index := body]]
    {
      hide EncodeKey, DecodeKey;
      forall k | k in db ensures (db[k].height, db[k].format) != (height, format) {
        OtherSnapshot(height, format, k);
      }
      heightDirs := heightDirs + {height};
      var d := (height, format);
      dirs := dirs[d := FilesIn(dirs, height, format)[index := body]];
    }

    method WriteChunks(height: nat, format: nat, chunks: seq<Bytes>) returns (hashes: seq<Bytes>)
      requires Valid() && InRange(height, format) && !Has(height, format)
      modifies this`dirs, this`heightDirs
      ensures Valid()
      ensures Hashed(chunks, hashes, sha256)
      ensures OnDisk(dirs, height, format, chunks, |chunks|)
      ensures forall d :: d in old(dirs) && d != (height, format) ==> d in dirs && dirs[d] == old(dirs)[d]
    {
      hide EncodeKey, DecodeKey, StoredIn, OnDisk, KeysMatch, DirsInRange;
      hashes := [];
      var index := 0;
      NothingOnDisk(dirs, height, format, chunks);
      for n := 0 to |chunks|
        invariant Valid() && index == n % UINT32
        invariant |hashes| == n && forall i :: 0 <= i < n ==> hashes[i] == sha256(chunks[i])
        invariant OnDisk(dirs, height, format, chunks, n)
        invariant forall d :: d in old(dirs) && d != (height, format) ==> d in dirs && dirs[d] == old(dirs)[d]
      {
        ghost var before := dirs;
        WriteChunk(height, format, index, chunks[n]);
        OnDiskNext(before, dirs, height, format, chunks, n);
        hashes := hashes + [sha256(chunks[n])];
        index := (index + 1) % UINT32;
      }
    }

    /** `Save`: refuses height zero, a height that is being saved and an existing snapshot; otherwise
        the chunks are on disk in order, and the metadata holds their number and their hashes. The number
        is a 32-bit counter, and later chunks overwrite earlier ones with the same number. */
    method Save(height: nat, format: nat, chunks: seq<Bytes>) returns (r: SaveResult)
      requires Valid() && InRange(height, format)
      modifies this`db, this`dirs, this`heightDirs, this`saving
      ensures Valid() && saving == old(saving)
      ensures r.ZeroHeight? <==> height == 0
      ensures r.AlreadySaving? <==> height != 0 && height in saving
      ensures r.AlreadyExists? <==> height != 0 && height !in saving && EncodeKey(height, format) in old(db)
      ensures !r.Saved? ==> db == old(db) && dirs == old(dirs)
      ensures r.Saved? ==>
                && Describes(r.snapshot, height, format, chunks, sha256)
                && db == old(db)[EncodeKey(height, format) := r.snapshot]
                && OnDisk(dirs, height, format, chunks, |chunks|)
                && forall d :: d in old(dirs) && d != (height, format) ==> d in dirs && dirs[d] == old(dirs)[d]
    {
      hide EncodeKey, DecodeKey, StoredIn, OnDisk, DirsInRange;
      if height == 0 {
        return ZeroHeight;
      }
      var busy := height in saving;
      saving := saving + {height};
      if busy {
        return AlreadySaving;
      }
      if EncodeKey(height, format) in db {
        saving := saving - {height};
        return AlreadyExists;
      }
      var hashes := WriteChunks(height, format, chunks);
      var snapshot := Snapshot(height, format, |chunks| % UINT32, sha256(Concat(chunks)), hashes);
      KeyRoundTrip(height, format);
      StoredFromDisk(snapshot, dirs, chunks, sha256);
      db := db[EncodeKey(height, format) := snapshot];
      saving := saving - {height};
      return Saved(snapshot);
    }

    /** What `Valid` says about one snapshot. */
    lemma StoredSnapshot(height: nat, format: nat)
      requires Valid() && InRange(height, format) && Has(height, format)
      ensures var s := db[EncodeKey(height, format)];
        s.height == height && s.format == format && StoredIn(s, dirs, sha256)
    {
      hide EncodeKey, DecodeKey, StoredIn;
      KeyRoundTrip(height, format);
    }

    /** `Load`: the metadata and the chunks read from the files in order, which have the hashes in the
        metadata. */
    method Load(height: nat, format: nat) returns (r: Option<(Snapshot, seq<Bytes>)>)
      requires Valid() && InRange(height, format)
      ensures r.None? <==> EncodeKey(height, format) !in db
      ensures r.Some? ==>
                && r.value.0 == db[EncodeKey(height, format)]
                && r.value.0.chunks == |r.value.0.chunkHashes| % UINT32
                && ReadFrom(dirs, height, format, r.value.1, r.value.0.chunks)
                && forall i :: 0 <= i < |r.value.1| ==> sha256(r.value.1[i]) == HashOf(r.value.0, i)
    {
      hide EncodeKey, DecodeKey, StoredIn, HashOf, Valid;
      var k := EncodeKey(height, format);
      if k !in db {
        return None;
      }
      StoredSnapshot(height, format);
      var snapshot := db[k];
      StoredCount(snapshot, dirs, sha256);
      var chunks := [];
      for i := 0 to snapshot.chunks
        invariant ReadFrom(dirs, height, format, chunks, i)
        invariant forall j :: 0 <= j < i ==> sha256(chunks[j]) == HashOf(snapshot, j)
      {
        StoredChunk(snapshot, dirs, sha256, i);
        chunks := chunks + [dirs[(height, format)][i]];
      }
      return Some((snapshot, chunks));
    }

    /** `LoadChunk`: every chunk number of a stored snapshot is found and has the hash in the metadata;
        nothing is returned only when there is no such file. */
    method LoadChunk(height: nat, format: nat, index: nat) returns (r: Option<Bytes>)
      requires Valid() && InRange(height, format)
      ensures r.Some? <==> index in FilesIn(dirs, height, format)
      ensures r.Some? ==> r.value == FilesIn(dirs, height, format)[index]
      ensures EncodeKey(height, format) in db ==>
                var s := db[EncodeKey(height, format)];
                && s.chunks == |s.chunkHashes| % UINT32
                && (index < s.chunks ==> r.Some? && sha256(r.value) == HashOf(s, index))
    {
      hide EncodeKey, DecodeKey, StoredIn, HashOf, Valid;
      if Has(height, format) {
        StoredSnapshot(height, format);
        var s := db[EncodeKey(height, format)];
        StoredCount(s, dirs, sha256);
        if index < s.chunks {
          StoredChunk(s, dirs, sha256, index);
        }
      }
      if (height, format) in dirs && index in dirs[(height, format)] {
        return Some(dirs[(height, format)][index]);
      }
      return None;
    }
  }

  lemma NothingOnDisk(dirs: Dirs, height: nat, format: nat, chunks: seq<Bytes>)
    ensures OnDisk(dirs, height, format, chunks, 0)
  {
  }

  lemma StoredCount(s: Snapshot, dirs: Dirs, sha256: Bytes -> Bytes)
    requires StoredIn(s, dirs, sha256)
    ensures s.chunks == |s.chunkHashes| % UINT32
  {
  }
}
