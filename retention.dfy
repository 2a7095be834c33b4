/**
 * `cleanupDownloadsIfLowSpace` (server.js): when a first usage reading is
 * present and shows less than 20% free, the downloads are sorted oldest
 * first and removed one at a time, re-reading usage before each removal and
 * stopping as soon as a reading is missing or shows at least 50% free.
 *
 * The capacity command is an oracle: call `k` of `getDiskUsage()` (call 0
 * is the gate) sees `probe(k)` as the command's output. Whether
 * `unlinkSync` succeeds for a path is a predicate; a failure is ignored.
 */
module Retention {
  import opened Wrappers
  import opened Layout
  import opened DiskUsage
  import opened Inventory
  import opened MtimeOrder

  /** What successive `getDiskUsage()` calls return, call 0 being the gate. */
  type Readings = nat -> Option<Usage>

  /** The readings when call `k`'s command printed `probe(k)` (`None`: it threw). */
  function ReadingsOf(platform: Platform, probe: nat -> Option<string>): Readings {
    (k: nat) => GetDiskUsage(platform, probe(k))
  }

  /** The gate: a present reading below 20% free starts eviction. */
  predicate LowSpace(u: Option<Usage>) {
    u.Some? && !Healthy(u.value)
  }

  /** The loop condition: a present reading below 50% free removes one more file. */
  predicate StillLow(u: Option<Usage>) {
    u.Some? && !Restored(u.value)
  }

  /** The files the loop shifts off `queue` when its next re-read is call `q`. */
  function Evicted(readings: Readings, queue: seq<StoredFile>, q: nat): seq<StoredFile>
    decreases |queue|
  {
    if |queue| == 0 || !StillLow(readings(q)) then []
    else [queue[0]] + Evicted(readings, queue[1..], q + 1)
  }

  /** The files a cleanup pass removes (or tries to), given the inventory. */
  function Removals(readings: Readings, files: seq<StoredFile>): seq<StoredFile> {
    if LowSpace(readings(0)) then Evicted(readings, SortByMtime(files), 1) else []
  }

  /** The files among `removed` whose `unlinkSync` succeeds. */
  function Unlinked(removed: seq<StoredFile>, unlinkOk: string -> bool): seq<StoredFile>
    decreases |removed|
  {
    if |removed| == 0 then []
    else Unlinked(removed[..|removed| - 1], unlinkOk) +
         (if unlinkOk(removed[|removed| - 1].path) then [removed[|removed| - 1]] else [])
  }

  /** One cleanup pass. `removed` are the files shifted off the sorted list
      (an unlink was attempted for each), `deleted` those whose unlink
      succeeded, and `queries` the number of `getDiskUsage()` calls. */
  method CleanupDownloadsIfLowSpace(
    host: Host, fs: Directories, probe: nat -> Option<string>, unlinkOk: string -> bool)
    returns (removed: seq<StoredFile>, deleted: seq<StoredFile>, queries: nat)
    ensures removed == Removals(ReadingsOf(host.platform, probe), DownloadFiles(host, fs))
    ensures deleted == Unlinked(removed, unlinkOk)
    ensures !LowSpace(ReadingsOf(host.platform, probe)(0)) ==> removed == [] && queries == 1
    ensures LowSpace(ReadingsOf(host.platform, probe)(0)) ==>
              queries == 1 + |removed| + (if |removed| < |DownloadFiles(host, fs)| then 1 else 0)
  {
    removed, deleted := [], [];
    var usage := GetDiskUsage(host.platform, probe(0));
    queries := 1;
    if usage.None? {
      return;
    }
    if Healthy(usage.value) {
      return;
    }
    var files := ListDownloadFiles(host, fs);
    files := SortByMtime(files);
    removed, deleted, queries := EvictOldest(ReadingsOf(host.platform, probe), unlinkOk, files);
  }

  /** The `while` loop of a cleanup pass over the sorted `queue`, after the
      gate's call: re-read usage, then stop or shift off and unlink the
      oldest file. Call `k` of `getDiskUsage()` returns `readings(k)`. */
  method EvictOldest(readings: Readings, unlinkOk: string -> bool, queue: seq<StoredFile>)
    returns (removed: seq<StoredFile>, deleted: seq<StoredFile>, queries: nat)
    ensures removed == Evicted(readings, queue, 1)
    ensures deleted == Unlinked(removed, unlinkOk)
    ensures queries == 1 + |removed| + (if |removed| < |queue| then 1 else 0)
  {
    removed, deleted := [], [];
    queries := 1;
    var files := queue;
    while |files| > 0
      invariant queries == 1 + |removed|
      invariant removed + files == queue
      invariant Evicted(readings, queue, 1) == removed + Evicted(readings, files, queries)
      invariant deleted == Unlinked(removed, unlinkOk)
      decreases |files|
    {
      var currentUsage := readings(queries);
      if currentUsage.None? || Restored(currentUsage.value) {
        EvictionStops(readings, queue, removed, files, queries);
        queries := queries + 1;
        break;
      }
      EvictionContinues(readings, queue, removed, files, queries);
      queries := queries + 1;
      var file := files[0];
      files := files[1..];
      assert (removed + [file])[..|removed|] == removed;
      removed := removed + [file];
      if unlinkOk(file.path) {
        deleted := deleted + [file];
      }
    }
  }

  /** The loop's exit: a missing reading or one at 50% ends the removals. */
  lemma EvictionStops(
    readings: Readings, queue: seq<StoredFile>, removed: seq<StoredFile>, files: seq<StoredFile>, q: nat)
    requires !StillLow(readings(q))
    requires Evicted(readings, queue, 1) == removed + Evicted(readings, files, q)
    ensures Evicted(readings, queue, 1) == removed
  {
    assert Evicted(readings, files, q) == [];
    assert removed + [] == removed;
  }

  /** One turn of the loop: the first remaining file moves to the removed ones. */
  lemma EvictionContinues(
    readings: Readings, queue: seq<StoredFile>, removed: seq<StoredFile>, files: seq<StoredFile>, q: nat)
    requires |files| > 0 && StillLow(readings(q))
    requires removed + files == queue
    requires Evicted(readings, queue, 1) == removed + Evicted(readings, files, q)
    ensures removed + [files[0]] + files[1..] == queue
    ensures Evicted(readings, queue, 1) == removed + [files[0]] + Evicted(readings, files[1..], q + 1)
  {
    EvictedStep(readings, files, q);
    AppendAssoc(removed, [files[0]], Evicted(readings, files[1..], q + 1));
    AppendAssoc(removed, [files[0]], files[1..]);
    assert [files[0]] + files[1..] == files;
  }

  lemma AppendAssoc(a: seq<StoredFile>, b: seq<StoredFile>, c: seq<StoredFile>)
    ensures a + b + c == a + (b + c)
  {
  }

  lemma EvictedStep(readings: Readings, queue: seq<StoredFile>, q: nat)
    requires |queue| > 0 && StillLow(readings(q))
    ensures Evicted(readings, queue, q) == [queue[0]] + Evicted(readings, queue[1..], q + 1)
  {
  }

  /** The removed files are the first ones of the queue. */
  lemma {:induction false} EvictedIsPrefix(readings: Readings, queue: seq<StoredFile>, q: nat)
    ensures |Evicted(readings, queue, q)| <= |queue|
    ensures Evicted(readings, queue, q) == queue[..|Evicted(readings, queue, q)|]
    decreases |queue|
  {
    if |queue| > 0 && StillLow(readings(q)) {
      EvictedIsPrefix(readings, queue[1..], q + 1);
    }
  }

  /** Every removal was preceded by a re-read showing less than 50% free,
      and when files remain, the re-read after the last removal was missing
      or showed at least 50%. */
  lemma {:induction false} EvictedStopsWhere(readings: Readings, queue: seq<StoredFile>, q: nat)
    ensures forall j: nat :: q <= j < q + |Evicted(readings, queue, q)| ==> StillLow(readings(j))
    ensures |Evicted(readings, queue, q)| < |queue| ==> !StillLow(readings(q + |Evicted(readings, queue, q)|))
    decreases |queue|
  {
    if |queue| > 0 && StillLow(readings(q)) {
      EvictedStopsWhere(readings, queue[1..], q + 1);
    }
  }

  /** Conversely, those two facts fix how many files are removed. */
  lemma {:induction false} EvictedDeterminedBy(readings: Readings, queue: seq<StoredFile>, q: nat, k: nat)
    requires k <= |queue|
    requires forall j: nat :: q <= j < q + k ==> StillLow(readings(j))
    requires k < |queue| ==> !StillLow(readings(q + k))
    ensures Evicted(readings, queue, q) == queue[..k]
    decreases k
  {
    if k > 0 {
      assert StillLow(readings(q));
      EvictedDeterminedBy(readings, queue[1..], q + 1, k - 1);
      assert queue[..k] == [queue[0]] + queue[1..][..k - 1];
    }
  }

  /** Nothing is removed when the first reading is missing or shows at least
      20% free, and otherwise the removed files are the oldest ones: a prefix
      of the inventory sorted by time, none later than any file kept. */
  lemma RemovalsAreOldest(readings: Readings, files: seq<StoredFile>)
    ensures !LowSpace(readings(0)) ==> Removals(readings, files) == []
    ensures var sorted := SortByMtime(files); var removed := Removals(readings, files);
            |sorted| == |files| && |removed| <= |sorted| && removed == sorted[..|removed|] &&
            forall i, j :: 0 <= i < |removed| <= j < |sorted| ==> removed[i].mtimeMs <= sorted[j].mtimeMs
  {
    var sorted := SortByMtime(files);
    if LowSpace(readings(0)) {
      EvictedIsPrefix(readings, sorted, 1);
    }
  }

  /** A failed unlink only keeps that file from `deleted`: the loop goes on
      with the next file, and every file it shifted off is either deleted or
      one whose unlink failed. */
  lemma {:induction false} UnlinkedMembers(removed: seq<StoredFile>, unlinkOk: string -> bool, f: StoredFile)
    ensures f in Unlinked(removed, unlinkOk) <==> f in removed && unlinkOk(f.path)
    decreases |removed|
  {
    if |removed| > 0 {
      var init := removed[..|removed| - 1];
      UnlinkedMembers(init, unlinkOk, f);
      assert removed == init + [removed[|removed| - 1]];
    }
  }

  /** For files times `t1 <= ... <= tn` and a disk that needs exactly `k`
      removals to reach 50% free, the removed files are the `k` oldest. */
  lemma RemovalsOfSorted(readings: Readings, files: seq<StoredFile>, k: nat)
    requires Sorted(files) && LowSpace(readings(0)) && k <= |files|
    requires forall j: nat :: 1 <= j < 1 + k ==> StillLow(readings(j))
    requires k < |files| ==> !StillLow(readings(1 + k))
    ensures Removals(readings, files) == files[..k]
  {
    SortedIsUnchanged(files);
    EvictedDeterminedBy(readings, files, 1, k);
  }

  /** A disk of 1000 at 100 free when the pass starts, gaining `step` per
      removal: the gate and the first re-read both see 100. */
  function RecoveringDisk(step: nat): Readings {
    (k: nat) => Some(Usage(100 + step * (if k == 0 then 0 else k - 1), 1000))
  }

  /** Three files with times 1, 2 and 3 and a disk gaining 150 per removal:
      the re-reads before the three removals show 100, 250 and 400 of 1000,
      all below 50%, so all three files are removed. */
  lemma SlowRecoveryRemovesAll(f1: StoredFile, f2: StoredFile, f3: StoredFile)
    requires f1.mtimeMs == 1.0 && f2.mtimeMs == 2.0 && f3.mtimeMs == 3.0
    ensures Removals(RecoveringDisk(150), [f1, f2, f3]) == [f1, f2, f3]
  {
    var files, r := [f1, f2, f3], RecoveringDisk(150);
    assert LowSpace(r(0)) by {
      assert r(0) == Some(Usage(100, 1000));
    }
    forall j: nat | 1 <= j < 1 + 3 ensures StillLow(r(j)) {
      assert r(j) == Some(Usage(100 + 150 * (j - 1), 1000));
    }
    RemovalsOfSorted(r, files, 3);
    assert files[..3] == files;
  }

  /** A disk gaining 250 per removal shows 600 of 1000 before the third
      removal, so the newest file is kept. */
  lemma FastRecoveryKeepsNewest(f1: StoredFile, f2: StoredFile, f3: StoredFile)
    requires f1.mtimeMs == 1.0 && f2.mtimeMs == 2.0 && f3.mtimeMs == 3.0
    ensures Removals(RecoveringDisk(250), [f1, f2, f3]) == [f1, f2]
  {
    var files, r := [f1, f2, f3], RecoveringDisk(250);
    assert Sorted(files);
    assert LowSpace(r(0)) by {
      assert r(0) == Some(Usage(100, 1000));
    }
    assert StillLow(r(1)) && StillLow(r(2)) by {
      assert r(1) == Some(Usage(100, 1000));
      assert r(2) == Some(Usage(350, 1000));
    }
    assert !StillLow(r(3)) by {
      assert r(3) == Some(Usage(600, 1000));
    }
    assert forall j: nat :: 1 <= j < 1 + 2 ==> StillLow(r(j)) by {
      forall j: nat | 1 <= j < 3 ensures StillLow(r(j)) { assert j == 1 || j == 2; }
    }
    RemovalsOfSorted(r, files, 2);
    assert files[..2] == [f1, f2];
  }
}
