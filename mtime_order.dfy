/**
 * `files.sort((a, b) => a.mtimeMs - b.mtimeMs)` (server.js): ascending by
 * modification time. `Array.prototype.sort` is stable, so files with equal
 * times keep their inventory order. `SortByMtime` is an insertion sort;
 * `StableSortIsUnique` shows that any sorted rearrangement keeping ties in
 * order is this one, so the choice of algorithm does not matter.
 */
module MtimeOrder {
  import opened Inventory

  /** Ascending by modification time. */
  predicate Sorted(s: seq<StoredFile>) {
    forall i, j :: 0 <= i < j < |s| ==> s[i].mtimeMs <= s[j].mtimeMs
  }

  /** The files of `s` whose time is `t`, in their order in `s`. */
  function WithMtime(s: seq<StoredFile>, t: real): seq<StoredFile>
    decreases |s|
  {
    if |s| == 0 then []
    else WithMtime(s[..|s| - 1], t) + (if s[|s| - 1].mtimeMs == t then [s[|s| - 1]] else [])
  }

  /** `r` keeps, for every time, the files of `s` with that time in their
      order in `s`: what a stable sort by time guarantees. */
  ghost predicate KeepsTies(r: seq<StoredFile>, s: seq<StoredFile>) {
    forall t :: WithMtime(r, t) == WithMtime(s, t)
  }

  /** `f` placed after every file of `s` whose time is not later than its own. */
  function Insert(f: StoredFile, s: seq<StoredFile>): seq<StoredFile>
    decreases |s|
  {
    if |s| == 0 then [f]
    else if s[|s| - 1].mtimeMs <= f.mtimeMs then s + [f]
    else Insert(f, s[..|s| - 1]) + [s[|s| - 1]]
  }

  lemma {:induction false} InsertMultiset(f: StoredFile, s: seq<StoredFile>)
    ensures multiset(Insert(f, s)) == multiset(s) + multiset{f}
    decreases |s|
  {
    if |s| > 0 && s[|s| - 1].mtimeMs > f.mtimeMs {
      InsertMultiset(f, s[..|s| - 1]);
      assert s == s[..|s| - 1] + [s[|s| - 1]];
    }
  }

  lemma {:induction false} InsertSorted(f: StoredFile, s: seq<StoredFile>)
    requires Sorted(s)
    ensures Sorted(Insert(f, s))
    decreases |s|
  {
    if |s| > 0 {
      var last := s[|s| - 1];
      if last.mtimeMs > f.mtimeMs {
        var init := s[..|s| - 1];
        InsertSorted(f, init);
        InsertBelow(f, init, last);
        assert s == init + [last];
      }
    }
  }

  /** Inserting into files no later than `last` keeps them no later. */
  lemma InsertBelow(f: StoredFile, init: seq<StoredFile>, last: StoredFile)
    requires f.mtimeMs < last.mtimeMs
    requires forall g :: g in init ==> g.mtimeMs <= last.mtimeMs
    ensures forall g :: g in Insert(f, init) ==> g.mtimeMs <= last.mtimeMs
  {
    InsertMultiset(f, init);
    var r := Insert(f, init);
    forall g | g in r ensures g.mtimeMs <= last.mtimeMs {
      assert g in multiset(r);
    }
  }

  /** Appending a file extends the files of its time and leaves the others. */
  lemma WithMtimeSnoc(s: seq<StoredFile>, g: StoredFile, t: real)
    ensures WithMtime(s + [g], t) == WithMtime(s, t) + (if g.mtimeMs == t then [g] else [])
  {
    assert (s + [g])[..|s|] == s;
  }

  lemma {:induction false} InsertKeepsTies(f: StoredFile, s: seq<StoredFile>, t: real)
    ensures WithMtime(Insert(f, s), t) == WithMtime(s, t) + (if f.mtimeMs == t then [f] else [])
    decreases |s|
  {
    if |s| == 0 {
      WithMtimeSnoc([], f, t);
    } else {
      var init, last := s[..|s| - 1], s[|s| - 1];
      assert s == init + [last];
      WithMtimeSnoc(init, last, t);
      if last.mtimeMs <= f.mtimeMs {
        WithMtimeSnoc(s, f, t);
      } else {
        InsertKeepsTies(f, init, t);
        WithMtimeSnoc(Insert(f, init), last, t);
      }
    }
  }

  /** The sorted array: ascending by time, a rearrangement of `files`, and
      files with equal times in their original order. */
  function SortByMtime(files: seq<StoredFile>): (r: seq<StoredFile>)
    ensures Sorted(r)
    ensures |r| == |files| && multiset(r) == multiset(files)
    ensures KeepsTies(r, files)
    decreases |files|
  {
    if |files| == 0 then []
    else
      var sortedInit := SortByMtime(files[..|files| - 1]);
      InsertStep(files, sortedInit);
      Insert(files[|files| - 1], sortedInit)
  }

  /** Inserting the last file into the sorted prefix sorts the whole. */
  lemma InsertStep(files: seq<StoredFile>, sortedInit: seq<StoredFile>)
    requires |files| > 0
    requires Sorted(sortedInit) && multiset(sortedInit) == multiset(files[..|files| - 1])
    requires KeepsTies(sortedInit, files[..|files| - 1])
    ensures Sorted(Insert(files[|files| - 1], sortedInit))
    ensures |Insert(files[|files| - 1], sortedInit)| == |files|
    ensures multiset(Insert(files[|files| - 1], sortedInit)) == multiset(files)
    ensures KeepsTies(Insert(files[|files| - 1], sortedInit), files)
  {
    var init, last := files[..|files| - 1], files[|files| - 1];
    var r := Insert(last, sortedInit);
    assert files == init + [last];
    InsertSorted(last, sortedInit);
    assert |r| == |files| && multiset(r) == multiset(files) by {
      InsertMultiset(last, sortedInit);
      assert |r| == |multiset(r)|;
    }
    forall t ensures WithMtime(r, t) == WithMtime(files, t) {
      InsertKeepsTies(last, sortedInit, t);
      WithMtimeSnoc(init, last, t);
    }
  }

  lemma {:induction false} WithMtimeMembers(s: seq<StoredFile>, t: real, g: StoredFile)
    ensures g in WithMtime(s, t) ==> g in s && g.mtimeMs == t
    decreases |s|
  {
    if |s| > 0 {
      WithMtimeMembers(s[..|s| - 1], t, g);
      assert s == s[..|s| - 1] + [s[|s| - 1]];
    }
  }

  /** A non-empty sequence's files with the last file's time end with it. */
  lemma LastOfWithMtime(r: seq<StoredFile>)
    requires |r| > 0
    ensures var w := WithMtime(r, r[|r| - 1].mtimeMs); |w| > 0 && w[|w| - 1] == r[|r| - 1]
  {
    WithMtimeSnoc(r[..|r| - 1], r[|r| - 1], r[|r| - 1].mtimeMs);
    assert r == r[..|r| - 1] + [r[|r| - 1]];
  }

  /** Removing equal last files keeps two sequences that agree at time `t`
      in agreement there. */
  lemma DropLastAt(r1: seq<StoredFile>, r2: seq<StoredFile>, t: real)
    requires |r1| > 0 && |r2| > 0 && r1[|r1| - 1] == r2[|r2| - 1]
    requires WithMtime(r1, t) == WithMtime(r2, t)
    ensures WithMtime(r1[..|r1| - 1], t) == WithMtime(r2[..|r2| - 1], t)
  {
    var init1, init2, a := r1[..|r1| - 1], r2[..|r2| - 1], r1[|r1| - 1];
    var x := if a.mtimeMs == t then [a] else [];
    assert WithMtime(r1, t) == WithMtime(init1, t) + x;
    assert WithMtime(r2, t) == WithMtime(init2, t) + x;
    AppendCancel(WithMtime(init1, t), WithMtime(init2, t), x);
  }

  lemma AppendCancel(u1: seq<StoredFile>, u2: seq<StoredFile>, x: seq<StoredFile>)
    requires u1 + x == u2 + x
    ensures u1 == u2
  {
    assert |u1| == |u2|;
    assert u1 == (u1 + x)[..|u1|] && u2 == (u2 + x)[..|u2|];
  }

  /** Two sorted sequences that agree for every time end with the same file. */
  lemma SameLast(r1: seq<StoredFile>, r2: seq<StoredFile>)
    requires Sorted(r1) && Sorted(r2) && |r1| > 0 && |r2| > 0
    requires KeepsTies(r1, r2)
    ensures r1[|r1| - 1] == r2[|r2| - 1]
  {
    LastHasLargestTime(r1, r2);
    LastHasLargestTime(r2, r1);
    LastOfWithMtime(r1);
    LastOfWithMtime(r2);
    var m := r1[|r1| - 1].mtimeMs;
    assert WithMtime(r1, m) == WithMtime(r2, m);
  }

  /** Two sorted sequences that hold the same files for every time, in the
      same order, are equal. */
  lemma {:induction false} StableSortIsUnique(r1: seq<StoredFile>, r2: seq<StoredFile>)
    requires Sorted(r1) && Sorted(r2)
    requires KeepsTies(r1, r2)
    ensures r1 == r2
    decreases |r1| + |r2|
  {
    EmptyTogether(r1, r2);
    if |r1| > 0 {
      SameLast(r1, r2);
      var init1, init2 := r1[..|r1| - 1], r2[..|r2| - 1];
      assert Sorted(init1) && Sorted(init2) && KeepsTies(init1, init2) by {
        DropLast(r1, r2);
      }
      StableSortIsUnique(init1, init2);
      SnocEqual(r1, r2);
    }
  }

  /** Sequences holding the same files for every time are empty together. */
  lemma EmptyTogether(r1: seq<StoredFile>, r2: seq<StoredFile>)
    requires KeepsTies(r1, r2)
    ensures |r1| == 0 <==> |r2| == 0
  {
    if |r1| > 0 { LastOfWithMtime(r1); }
    if |r2| > 0 { LastOfWithMtime(r2); }
  }

  /** Dropping equal last files keeps order and agreement for every time. */
  lemma DropLast(r1: seq<StoredFile>, r2: seq<StoredFile>)
    requires Sorted(r1) && Sorted(r2) && KeepsTies(r1, r2)
    requires |r1| > 0 && |r2| > 0 && r1[|r1| - 1] == r2[|r2| - 1]
    ensures Sorted(r1[..|r1| - 1]) && Sorted(r2[..|r2| - 1])
    ensures KeepsTies(r1[..|r1| - 1], r2[..|r2| - 1])
  {
    var init1, init2 := r1[..|r1| - 1], r2[..|r2| - 1];
    forall t ensures WithMtime(init1, t) == WithMtime(init2, t) {
      DropLastAt(r1, r2, t);
    }
  }

  lemma SnocEqual(r1: seq<StoredFile>, r2: seq<StoredFile>)
    requires |r1| > 0 && |r2| > 0 && r1[|r1| - 1] == r2[|r2| - 1]
    requires r1[..|r1| - 1] == r2[..|r2| - 1]
    ensures r1 == r2
  {
    assert r1 == r1[..|r1| - 1] + [r1[|r1| - 1]];
    assert r2 == r2[..|r2| - 1] + [r2[|r2| - 1]];
  }

  /** The last file of a sorted `r1` is at least as late as the last file of
      any `r2` holding the same files for every time. */
  lemma LastHasLargestTime(r1: seq<StoredFile>, r2: seq<StoredFile>)
    requires Sorted(r1) && |r1| > 0 && |r2| > 0
    requires KeepsTies(r1, r2)
    ensures r2[|r2| - 1].mtimeMs <= r1[|r1| - 1].mtimeMs
  {
    var b := r2[|r2| - 1];
    var t := b.mtimeMs;
    WithMtimeSnoc(r2[..|r2| - 1], b, t);
    assert r2 == r2[..|r2| - 1] + [b];
    var w := WithMtime(r2, t);
    assert w[|w| - 1] == b;
    assert WithMtime(r1, t) == w;
    WithMtimeMembers(r1, t, b);
    var i :| 0 <= i < |r1| && r1[i] == b;
    assert i == |r1| - 1 || r1[i].mtimeMs <= r1[|r1| - 1].mtimeMs;
  }

  /** Whatever stable sort the engine uses, the result is `SortByMtime`. */
  lemma StableSortIsSortByMtime(files: seq<StoredFile>, r: seq<StoredFile>)
    requires Sorted(r) && KeepsTies(r, files)
    ensures r == SortByMtime(files)
  {
    var s := SortByMtime(files);
    assert KeepsTies(r, s);
    StableSortIsUnique(r, s);
  }

  /** Files already in time order are left as they are. */
  lemma SortedIsUnchanged(files: seq<StoredFile>)
    requires Sorted(files)
    ensures SortByMtime(files) == files
  {
    StableSortIsSortByMtime(files, files);
  }
}
