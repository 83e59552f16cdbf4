/**
 Verification of a refcount tree's blocks (fsck.ocfs2/refcount.c) and of the extent lists that lead to them
 (fsck.ocfs2/extent.c).  Records that point outside the volume or run into an earlier one are taken out of
 their arrays in place; the end of the last good record is threaded through all blocks of the tree.
 */
module RefcountCheck {
  import opened RefcountRecords
  import opened Common

  /** A refcount record as it is stored: a 64-bit position, 32-bit length and count. */
  type DiskRec = r: Rec |
    r.cpos < UINT64_RANGE && r.clusters < UINT32_RANGE && r.refcount < UINT32_RANGE witness Rec(0, 0, 0)

  /** The array of a leaf block; it is as long as a block has room for. */
  datatype RefList = RefList(count: nat, used: nat, recs: seq<DiskRec>)

  /** What a block turns out to be when it is read as a refcount block of this volume. */
  datatype RefBlock = BadRef | Leaf(list: RefList) | Root(tree: ExtentList)

  /** What a block turns out to be when it is read as an extent block of this volume. */
  datatype ListBlock = BadList | Good(list: ExtentList)

  datatype ExtentList = ExtentList(depth: nat, count: nat, nextFree: nat, recs: seq<Extent>)

  /** An extent record, and what its block holds, read either way. */
  datatype Extent = Extent(cpos: nat, clusters: nat, blkno: nat, asRef: RefBlock, asList: ListBlock)

  /** The volume: its clusters, their size in blocks, and whether files may be sparse. */
  datatype Volume = Volume(clusters: nat, bpc: nat, sparse: bool)

  predicate OutOfRange(v: Volume, block: nat) { OutOfVolume(v.clusters * v.bpc, block) }

  /** The last cluster of a record, as the test computes it: 64 bits, then cut to 32. */
  function LastCluster(r: Rec): nat { (r.cpos + r.clusters - 1) % UINT32_RANGE }

  predicate RecInRange(v: Volume, r: Rec) { !OutOfRange(v, LastCluster(r) * v.bpc) }

  /** The end of a record, as it is carried on: cut to 64 bits. */
  function CutEnd(r: Rec): uint64 { r.End() % UINT64_RANGE }

  predicate Overflows(r: Rec) { r.End() >= UINT64_RANGE }

  // ---- the records of one block -------------------------------------------------------------

  /** Among the first `n` records: those that survive when everything before `cend` is taken. */
  function Survivors(v: Volume, recs: seq<DiskRec>, n: nat, cend: uint64): seq<DiskRec>
    requires n <= |recs|
  {
    if n == 0 then [] else Survivors(v, recs, n - 1, cend) + if Survives(v, recs, n - 1, cend) then [recs[n-1]] else []
  }

  /** The end of the last survivor among the first `n` records. */
  function LastEnd(v: Volume, recs: seq<DiskRec>, n: nat, cend: uint64): uint64
    requires n <= |recs|
    decreases n, 0
  {
    if n == 0 then cend else if Survives(v, recs, n - 1, cend) then CutEnd(recs[n-1]) else LastEnd(v, recs, n - 1, cend)
  }

  /** The filter of a whole list, and the end that it returns. */
  function Filter(v: Volume, recs: seq<DiskRec>, cend: uint64): seq<DiskRec> { Survivors(v, recs, |recs|, cend) }

  function FilterEnd(v: Volume, recs: seq<DiskRec>, cend: uint64): uint64 { LastEnd(v, recs, |recs|, cend) }

  predicate Survives(v: Volume, recs: seq<DiskRec>, i: nat, cend: uint64)
    requires i < |recs|
    decreases i, 1
  {
    RecInRange(v, recs[i]) && LastEnd(v, recs, i, cend) <= recs[i].cpos
  }

  /** Where record `i` may start: at the end of the one before it. */
  function Floor(recs: seq<DiskRec>, from: nat, i: nat): nat
    requires i <= |recs|
  {
    if i == 0 then from else recs[i-1].End()
  }

  ghost predicate RunsAt(recs: seq<DiskRec>, from: nat, i: nat) { i < |recs| ==> Floor(recs, from, i) <= recs[i].cpos }

  /** The records follow one another from `from` on without overlap; `to` is the end of the last. */
  ghost predicate Runs(recs: seq<DiskRec>, from: nat, to: nat) {
    to == Floor(recs, from, |recs|) && forall i: nat :: RunsAt(recs, from, i)
  }

  /** The records in use, once the counts have been clamped. */
  function UsedRecs(l: RefList): seq<DiskRec> { l.recs[..Min(l.used, Min(l.count, |l.recs|))] }

  /** Removes an element of the first `n` by moving up those behind it. */
  function ShiftOut<T>(s: seq<T>, i: nat, n: nat, zero: T): (r: seq<T>)
    requires i < n <= |s|
    ensures |r| == |s| && r[..n-1] == s[..i] + s[i+1..n]
  {
    if i == n - 1 then s else s[..i] + s[i+1..n] + [zero] + s[n..]
  }

  /** Corrects the counts of a leaf block's list. */
  method ClampRl(l0: RefList) returns (l: RefList, changed: bool)
    ensures l.recs == l0.recs && l.used <= l.count == Min(l0.count, |l0.recs|) && l.recs[..l.used] == UsedRecs(l0)
    ensures !changed ==> l == l0
    ensures changed <==> l0.used > l0.count || l0.count > |l0.recs|
  {
    l, changed := l0, false;
    if l.count > |l.recs| {
      l, changed := l.(count := |l.recs|), true;
    }
    if l.used > l.count {
      l, changed := l.(used := l.count), true;
    }
  }

  /** Checks the list of a leaf block: the array is filtered in place. */
  method CheckRl(v: Volume, l0: RefList, cend0: uint64) returns (l: RefList, cend: uint64, changed: bool)
    ensures |l.recs| == |l0.recs| && l.used <= l.count == Min(l0.count, |l0.recs|)
    ensures l.recs[..l.used] == Filter(v, UsedRecs(l0), cend0) && cend == FilterEnd(v, UsedRecs(l0), cend0)
    ensures !changed ==> l == l0
    ensures changed <==> l0.used > l0.count || l0.count > |l0.recs| || Filter(v, UsedRecs(l0), cend0) != UsedRecs(l0)
  {
    ghost var clamped;
    l, changed := ClampRl(l0);
    clamped := changed;
    cend := cend0;
    var i: nat, max: nat := 0, l.used;
    ghost var all, seen: nat := UsedRecs(l0), 0;
    NothingFiltered(v, all, l.recs, max, cend0);
    while i < max
      invariant max == l.used <= l.count == Min(l0.count, |l0.recs|) && |l.recs| == |l0.recs|
      invariant FilteredTo(v, all, l.recs, i, max, seen, cend0, cend)
      invariant !changed ==> l == l0
      invariant changed <==> clamped || i < seen
      decreases max - i
    {
      var removed;
      l, i, max, cend, removed := CheckRec(v, l, i, max, cend, all, seen, cend0);
      changed := changed || removed;
      seen := seen + 1;
    }
    FilterDone(v, all, l.recs, i, max, seen, cend0, cend);
  }

  /** Checks one record; one that points nowhere or runs into an earlier one is taken out. */
  method CheckRec(v: Volume, l0: RefList, i: nat, max: nat, cend0: uint64, ghost all: seq<DiskRec>, ghost seen: nat,
                  ghost first: uint64)
    returns (l: RefList, i': nat, max': nat, cend: uint64, removed: bool)
    requires i < max == l0.used <= |l0.recs| && FilteredTo(v, all, l0.recs, i, max, seen, first, cend0)
    ensures FilteredTo(v, all, l.recs, i', max', seen + 1, first, cend) && max' == l.used
    ensures |l.recs| == |l0.recs| && l.count == l0.count && max' <= max && max' - i' < max - i
    ensures if removed then i' == i else i' == i + 1 && l == l0
  {
    l, i', max', cend, removed := l0, i, max, cend0, false;
    var rec := l.recs[i];
    FilterStep(v, all, l.recs, i, max, seen, first, cend);
    if RecInRange(v, rec) && cend <= rec.cpos {
      cend := CutEnd(rec);
      i' := i + 1;
    } else {
      l, removed := l.(recs := ShiftOut(l.recs, i, max, Rec(0, 0, 0)), used := l.used - 1), true;
      max' := max - 1;
    }
  }

  /** The first `seen` records have been filtered; what is left stands behind them. */
  ghost predicate FilteredTo(v: Volume, all: seq<DiskRec>, recs: seq<DiskRec>, i: nat, max: nat, seen: nat,
                             cend0: uint64, cend: uint64) {
    && i <= max <= |recs| && seen <= |all|
    && recs[i..max] == all[seen..]
    && recs[..i] == Survivors(v, all, seen, cend0) && cend == LastEnd(v, all, seen, cend0)
  }

  lemma NothingFiltered(v: Volume, all: seq<DiskRec>, recs: seq<DiskRec>, max: nat, cend: uint64)
    requires max <= |recs| && recs[..max] == all
    ensures FilteredTo(v, all, recs, 0, max, 0, cend, cend)
  {
    assert recs[0..max] == all[0..];
  }

  lemma FilterDone(v: Volume, all: seq<DiskRec>, recs: seq<DiskRec>, i: nat, max: nat, seen: nat, cend0: uint64,
                   cend: uint64)
    requires FilteredTo(v, all, recs, i, max, seen, cend0, cend) && i >= max
    ensures recs[..max] == Filter(v, all, cend0) && cend == FilterEnd(v, all, cend0)
    ensures i < seen <==> Filter(v, all, cend0) != all
  {
    assert all[seen..] == [];
    KeptAll(v, all, |all|, cend0);
  }

  lemma FilterStep(v: Volume, all: seq<DiskRec>, recs: seq<DiskRec>, i: nat, max: nat, seen: nat, cend0: uint64,
                   cend: uint64)
    requires FilteredTo(v, all, recs, i, max, seen, cend0, cend) && i < max
    ensures RecInRange(v, recs[i]) && cend <= recs[i].cpos ==>
              FilteredTo(v, all, recs, i + 1, max, seen + 1, cend0, CutEnd(recs[i]))
    ensures !(RecInRange(v, recs[i]) && cend <= recs[i].cpos) ==>
              FilteredTo(v, all, ShiftOut(recs, i, max, Rec(0, 0, 0)), i, max - 1, seen + 1, cend0, cend)
  {
    var rec := recs[i];
    assert rec == recs[i..max][0] == all[seen];
    assert all[seen+1..] == all[seen..][1..];
    assert recs[..i+1] == recs[..i] + [rec];
    assert recs[i+1..max] == recs[i..max][1..];
    Shifted(recs, ShiftOut(recs, i, max, Rec(0, 0, 0)), i, max - 1);
  }

  lemma Shifted<T>(a: seq<T>, b: seq<T>, i: nat, n: nat)
    requires i <= n < |a| == |b| && b[..n] == a[..i] + a[i+1..n+1]
    ensures b[..i] == a[..i] && b[i..n] == a[i..n+1][1..]
  {
    assert b[..i] == b[..n][..i];
    assert b[i..n] == b[..n][i..];
  }

  /** A filter that drops nothing changes nothing. */
  lemma {:induction false} KeptAll(v: Volume, recs: seq<DiskRec>, n: nat, cend: uint64)
    requires n <= |recs|
    ensures |Survivors(v, recs, n, cend)| <= n
    ensures |Survivors(v, recs, n, cend)| == n ==> Survivors(v, recs, n, cend) == recs[..n]
    ensures n == |recs| ==> recs[..n] == recs
  {
    if n > 0 {
      KeptAll(v, recs, n - 1, cend);
      assert recs[..n] == recs[..n-1] + [recs[n-1]];
    }
  }

  ghost predicate KeepsAll(v: Volume, recs: seq<DiskRec>, cend: uint64) { Filter(v, recs, cend) == recs }

  /** A list of which nothing is dropped is one of whose parts nothing is dropped. */
  lemma KeepsParts(v: Volume, a: seq<DiskRec>, b: seq<DiskRec>, cend: uint64)
    ensures KeepsAll(v, a + b, cend) <==> KeepsAll(v, a, cend) && KeepsAll(v, b, FilterEnd(v, a, cend))
  {
    FilterConcat(v, a, b, cend);
    KeptAll(v, a, |a|, cend);
    KeptAll(v, b, |b|, FilterEnd(v, a, cend));
    if KeepsAll(v, a + b, cend) {
      var fa, fb := Filter(v, a, cend), Filter(v, b, FilterEnd(v, a, cend));
      assert |fa| + |fb| == |a| + |b|;
    }
  }

  /** Filtering a list in two parts, the second from where the first ended, is filtering the whole. */
  lemma FilterConcat(v: Volume, a: seq<DiskRec>, b: seq<DiskRec>, cend: uint64)
    ensures Filter(v, a + b, cend) == Filter(v, a, cend) + Filter(v, b, FilterEnd(v, a, cend))
    ensures FilterEnd(v, a + b, cend) == FilterEnd(v, b, FilterEnd(v, a, cend))
  {
    FilterPrefix(v, a, b, |a|, cend);
    FilterSuffix(v, a, b, |b|, cend);
  }

  lemma {:induction false} FilterPrefix(v: Volume, a: seq<DiskRec>, b: seq<DiskRec>, n: nat, cend: uint64)
    requires n <= |a|
    ensures Survivors(v, a + b, n, cend) == Survivors(v, a, n, cend)
    ensures LastEnd(v, a + b, n, cend) == LastEnd(v, a, n, cend)
  {
    if n > 0 {
      FilterPrefix(v, a, b, n - 1, cend);
    }
  }

  lemma {:induction false} FilterSuffix(v: Volume, a: seq<DiskRec>, b: seq<DiskRec>, n: nat, cend: uint64)
    requires n <= |b|
    ensures var mid := FilterEnd(v, a, cend);
            && Survivors(v, a + b, |a| + n, cend) == Filter(v, a, cend) + Survivors(v, b, n, mid)
            && LastEnd(v, a + b, |a| + n, cend) == LastEnd(v, b, n, mid)
  {
    if n == 0 {
      FilterPrefix(v, a, b, |a|, cend);
    } else {
      FilterSuffix(v, a, b, n - 1, cend);
      assert (a + b)[|a| + n - 1] == b[n-1];
    }
  }

  lemma {:induction false} NoneSurvive(v: Volume, recs: seq<DiskRec>, n: nat, cend: uint64)
    requires n <= |recs| && Survivors(v, recs, n, cend) == []
    ensures LastEnd(v, recs, n, cend) == cend
  {
    if n > 0 {
      NoneSurvive(v, recs, n - 1, cend);
    }
  }

  /** Where nothing survives the end stays. */
  lemma EndStays(v: Volume, recs: seq<DiskRec>, cend: uint64)
    ensures Filter(v, recs, cend) == [] ==> FilterEnd(v, recs, cend) == cend
  {
    if Filter(v, recs, cend) == [] {
      NoneSurvive(v, recs, |recs|, cend);
    }
  }

  /** A surviving record, with its place among the survivors. */
  lemma {:induction false} SurvivorAt(v: Volume, recs: seq<DiskRec>, n: nat, cend: uint64, i: nat)
    requires i < n <= |recs| && Survives(v, recs, i, cend)
    ensures var k := |Survivors(v, recs, i, cend)|;
            k < |Survivors(v, recs, n, cend)| && Survivors(v, recs, n, cend)[k] == recs[i]
  {
    if i < n - 1 {
      SurvivorAt(v, recs, n - 1, cend, i);
    }
  }

  lemma {:induction false} SurvivorsInRange(v: Volume, recs: seq<DiskRec>, n: nat, cend: uint64)
    requires n <= |recs|
    ensures forall r | r in Survivors(v, recs, n, cend) :: RecInRange(v, r)
  {
    if n > 0 {
      SurvivorsInRange(v, recs, n - 1, cend);
    }
  }

  /** A record survives whose end does not fit in 64 bits. */
  predicate OverflowAt(v: Volume, recs: seq<DiskRec>, cend: uint64, i: nat) {
    i < |recs| && Overflows(recs[i]) && Survives(v, recs, i, cend)
  }

  /** Without such a record, the surviving ones run on from where the earlier ones ended. */
  lemma {:induction false} SurvivingRuns(v: Volume, recs: seq<DiskRec>, n: nat, cend: uint64)
    requires n <= |recs| && forall i: nat | i < n :: !OverflowAt(v, recs, cend, i)
    ensures Runs(Survivors(v, recs, n, cend), cend, LastEnd(v, recs, n, cend))
  {
    if n > 0 {
      SurvivingRuns(v, recs, n - 1, cend);
      var kept := Survivors(v, recs, n - 1, cend);
      if Survives(v, recs, n - 1, cend) {
        assert !OverflowAt(v, recs, cend, n - 1);
        RunsOn(kept, recs[n-1], cend, LastEnd(v, recs, n - 1, cend));
      } else {
        assert kept + [] == kept;
      }
    }
  }

  lemma RunsOn(recs: seq<DiskRec>, r: DiskRec, from: nat, mid: nat)
    requires Runs(recs, from, mid) && mid <= r.cpos
    ensures Runs(recs + [r], from, r.End())
  {
    var recs' := recs + [r];
    forall i: nat
      ensures RunsAt(recs', from, i)
    {
      assert RunsAt(recs, from, i);
    }
  }

  /**
   The survivors are in order, and the last one ends at the end that is carried on, if and only if none of
   them has an end beyond 64 bits.
   */
  lemma FilteredInOrder(v: Volume, recs: seq<DiskRec>, cend: uint64)
    ensures InOrder(v, Filter(v, recs, cend), cend, FilterEnd(v, recs, cend)) <==>
            !exists i: nat :: OverflowAt(v, recs, cend, i)
  {
    SurvivorsInRange(v, recs, |recs|, cend);
    if i: nat :| OverflowAt(v, recs, cend, i) {
      SurvivorAt(v, recs, |recs|, cend, i);
      var kept, k := Filter(v, recs, cend), |Survivors(v, recs, i, cend)|;
      if Runs(kept, cend, FilterEnd(v, recs, cend)) {
        RunsSorted(kept, cend, FilterEnd(v, recs, cend), k, k);
        assert false;
      }
    } else {
      SurvivingRuns(v, recs, |recs|, cend);
    }
  }

  /** A record survives whose end does not fit in 64 bits, and so does a later one. */
  predicate OverflowBefore(v: Volume, recs: seq<DiskRec>, cend: uint64, i: nat, j: nat) {
    OverflowAt(v, recs, cend, i) && i < j < |recs| && Survives(v, recs, j, cend)
  }

  /** The survivors are sorted and disjoint if and only if none of them but the last has such an end. */
  lemma FilteredSorted(v: Volume, recs: seq<DiskRec>, cend: uint64)
    ensures WellFormed(Filter(v, recs, cend)) <==> !exists i: nat, j: nat :: OverflowBefore(v, recs, cend, i, j)
  {
    if i: nat, j: nat :| OverflowBefore(v, recs, cend, i, j) {
      OverflowUnsorted(v, recs, cend, i, j, |Survivors(v, recs, i, cend)|, |Survivors(v, recs, j, cend)|);
    } else {
      SortedTo(v, recs, |recs|, cend);
    }
  }

  lemma OverflowUnsorted(v: Volume, recs: seq<DiskRec>, cend: uint64, i: nat, j: nat, k: nat, m: nat)
    requires OverflowBefore(v, recs, cend, i, j)
    requires k == |Survivors(v, recs, i, cend)| && m == |Survivors(v, recs, j, cend)|
    ensures !WellFormed(Filter(v, recs, cend))
  {
    SurvivorAt(v, recs, |recs|, cend, i);
    SurvivorAt(v, recs, |recs|, cend, j);
    SurvivorAt(v, recs, j, cend, i);
    var kept := Filter(v, recs, cend);
    assert !Before(kept[k], kept[m]);
  }

  lemma {:induction false} SortedTo(v: Volume, recs: seq<DiskRec>, n: nat, cend: uint64)
    requires n <= |recs| && forall i: nat, j: nat | j < n :: !OverflowBefore(v, recs, cend, i, j)
    ensures WellFormed(Survivors(v, recs, n, cend))
  {
    if n > 0 {
      var m := n - 1;
      var kept := Survivors(v, recs, m, cend);
      if Survives(v, recs, m, cend) {
        forall i: nat | i < m
          ensures !OverflowAt(v, recs, cend, i)
        {
          assert !OverflowBefore(v, recs, cend, i, m);
        }
        SurvivingRuns(v, recs, m, cend);
        RunsOn(kept, recs[m], cend, LastEnd(v, recs, m, cend));
        RunsWellFormed(kept + [recs[m]], cend, recs[m].End());
      } else {
        SortedTo(v, recs, m, cend);
        assert kept + [] == kept;
      }
    }
  }

  lemma RunsWellFormed(recs: seq<DiskRec>, from: nat, to: nat)
    requires Runs(recs, from, to)
    ensures WellFormed(recs) && forall r | r in recs :: r.End() <= to
  {
    forall i, j | 0 <= i < j < |recs|
      ensures Before(recs[i], recs[j])
    {
      RunsSorted(recs, from, to, i, j);
    }
    forall i | 0 <= i < |recs|
      ensures recs[i].End() <= to
    {
      RunsSorted(recs, from, to, i, i);
    }
  }

  /** Three records that all survive: the second ends beyond 64 bits, so the third may lie before the first. */
  lemma OverflowBreaksOrder()
    ensures var v, recs := Volume(1000, 4, true), [Rec(5, 2, 1), Rec(UINT64_RANGE - 1, 3, 1), Rec(2, 1, 1)];
            Filter(v, recs, 0) == recs && FilterEnd(v, recs, 0) == 3 && !WellFormed(recs)
  {
    var v, recs: seq<DiskRec> := Volume(1000, 4, true), [Rec(5, 2, 1), Rec(UINT64_RANGE - 1, 3, 1), Rec(2, 1, 1)];
    assert Survives(v, recs, 0, 0) && LastEnd(v, recs, 1, 0) == 7 && Survivors(v, recs, 1, 0) == recs[..1];
    assert Survives(v, recs, 1, 0) && LastEnd(v, recs, 2, 0) == 2 && Survivors(v, recs, 2, 0) == recs[..2];
    assert Survives(v, recs, 2, 0);
    assert !Before(recs[0], recs[2]);
  }

  /** A list that is in order keeps all its records. */
  lemma {:induction false} GoodListSurvives(v: Volume, recs: seq<DiskRec>, n: nat, from: uint64)
    requires n <= |recs| && (forall i: nat :: RunsAt(recs, from, i)) && forall k | 0 <= k < n :: RecInRange(v, recs[k])
    ensures Survivors(v, recs, n, from) == recs[..n] && LastEnd(v, recs, n, from) == Floor(recs, from, n) % UINT64_RANGE
  {
    if n > 0 {
      var m := n - 1;
      GoodListSurvives(v, recs, m, from);
      assert RunsAt(recs, from, m);
      assert recs[..n] == recs[..m] + [recs[m]];
    }
  }

  /** Records that run on are sorted, do not overlap, and lie between the two ends. */
  lemma RunsSorted(recs: seq<DiskRec>, from: nat, to: nat, i: nat, j: nat)
    requires Runs(recs, from, to) && i <= j < |recs|
    ensures from <= recs[i].cpos && recs[j].End() <= to
    ensures i < j ==> recs[i].End() <= recs[j].cpos
  {
    FloorGrows(recs, from, to, 0, i);
    FloorGrows(recs, from, to, i + 1, j);
    FloorGrows(recs, from, to, j + 1, |recs|);
    assert RunsAt(recs, from, i) && RunsAt(recs, from, j);
  }

  lemma {:induction false} FloorGrows(recs: seq<DiskRec>, from: nat, to: nat, i: nat, j: nat)
    requires Runs(recs, from, to) && j <= |recs|
    ensures i <= j ==> Floor(recs, from, i) <= Floor(recs, from, j)
    decreases j
  {
    if i < j {
      FloorGrows(recs, from, to, i, j - 1);
      assert RunsAt(recs, from, j - 1);
    }
  }

  // ---- the tree -----------------------------------------------------------------------------

  /** The leftmost record of an interior list may be empty; then it is passed over. */
  predicate Skipped(v: Volume, depth: nat, i: nat, e: Extent) { v.sparse && depth > 0 && i == 0 && e.clusters == 0 }

  /** The refcount records below a block, from left to right. */
  function RefRecords(v: Volume, b: RefBlock): seq<DiskRec>
    decreases b, 1
  {
    match b
    case BadRef => []
    case Leaf(l) => l.recs[..Min(l.used, |l.recs|)]
    case Root(t) => ListRecords(v, t, Min(t.nextFree, |t.recs|))
  }

  function ListRecords(v: Volume, l: ExtentList, n: nat): seq<DiskRec>
    requires n <= |l.recs|
    decreases l, 0, n
  {
    if n == 0 then []
    else
      ListRecords(v, l, n - 1) +
      if Skipped(v, l.depth, n - 1, l.recs[n-1]) then [] else ExtentRecords(v, l.depth, l.recs[n-1])
  }

  function ExtentRecords(v: Volume, depth: nat, e: Extent): seq<DiskRec>
    decreases e, 0
  {
    if depth == 0 then RefRecords(v, e.asRef)
    else
      match e.asList
      case BadList => []
      case Good(sub) => ListRecords(v, sub, Min(sub.nextFree, |sub.recs|))
  }

  // The records of the tree before the check, as the check comes to them.

  function RefOriginal(v: Volume, b: RefBlock): seq<DiskRec>
    decreases b, 1
  {
    match b
    case BadRef => []
    case Leaf(l) => UsedRecs(l)
    case Root(t) => ListOriginal(v, t, t.depth, |UsedExtents(t)|)
  }

  function ListOriginal(v: Volume, l: ExtentList, depth: nat, n: nat): seq<DiskRec>
    requires n <= |l.recs|
    decreases l, 0, n
  {
    if n == 0 then [] else ListOriginal(v, l, depth, n - 1) + Original(v, l, depth, n - 1)
  }

  /** The records below the `i`-th extent; none if it is passed over or leads nowhere. */
  function Original(v: Volume, l: ExtentList, depth: nat, i: nat): seq<DiskRec>
    requires i < |l.recs|
    decreases l, 0, i
  {
    var e := l.recs[i];
    if OutOfRange(v, e.blkno) || Skipped(v, depth, KeptBefore(v, l, depth, i), e) then []
    else ExtentOriginal(v, depth, e)
  }

  function ExtentOriginal(v: Volume, depth: nat, e: Extent): seq<DiskRec>
    decreases e, 0
  {
    if depth == 0 then RefOriginal(v, e.asRef)
    else
      match e.asList
      case BadList => []
      case Good(sub) => ListOriginal(v, sub, depth - 1, |UsedExtents(sub)|)
  }

  /** How many of the first `n` extents of an interior list stay. */
  function KeptBefore(v: Volume, l: ExtentList, depth: nat, n: nat): nat
    requires n <= |l.recs|
    decreases n
  {
    if n == 0 then 0
    else
      var k, e := KeptBefore(v, l, depth, n - 1), l.recs[n-1];
      if Skipped(v, depth, k, e) || (!OutOfRange(v, e.blkno) && e.asList.Good?) then k + 1 else k
  }

  /** All records are in the volume by the test, sorted, disjoint, and end at `to`. */
  ghost predicate InOrder(v: Volume, recs: seq<DiskRec>, from: nat, to: nat) {
    Runs(recs, from, to) && forall r | r in recs :: RecInRange(v, r)
  }

  function Max(a: nat, b: nat): nat { if a < b then b else a }

  /** The clusters before extent `k`, in 32 bits. */
  function OffsetTo(recs: seq<Extent>, k: nat, offset: uint32): uint32
    requires k <= |recs|
  {
    if k == 0 then offset else (OffsetTo(recs, k - 1, offset) + recs[k-1].clusters) % UINT32_RANGE
  }

  /** An extent stands behind the clusters before it; without holes, right behind them. */
  predicate PlacedFrom(cpos0: nat, cpos: nat, offset: uint32, noHoles: bool) {
    cpos == if noHoles then offset else Max(cpos0, offset)
  }

  ghost predicate PlacedAt(v: Volume, l0: ExtentList, depth: nat, offset: uint32, noHoles: bool,
                           checked: seq<Extent>, k: nat)
  {
    k < |checked| && k < |l0.recs| ==>
      var e0 := l0.recs[k];
      if OutOfRange(v, e0.blkno) || Skipped(v, depth, KeptBefore(v, l0, depth, k), e0) then checked[k].cpos == e0.cpos
      else PlacedFrom(e0.cpos, checked[k].cpos, OffsetTo(l0.recs, k, offset), noHoles)
  }

  // A tree that needs no repair.

  /** Counts fit, leaves hold something, blocks can be read, and extents stand where they should. */
  ghost predicate SoundRef(v: Volume, b: RefBlock, isRoot: bool, offset: uint32, noHoles: bool)
    decreases b, 1
  {
    match b
    case BadRef => false
    case Leaf(l) => l.used <= l.count <= |l.recs| && (isRoot || l.used > 0)
    case Root(t) => SoundList(v, t, t.depth, offset, noHoles)
  }

  ghost predicate SoundList(v: Volume, l: ExtentList, depth: nat, offset: uint32, noHoles: bool)
    decreases l, 1
  {
    && l.depth == depth && l.nextFree <= l.count <= |l.recs|
    && forall i: nat :: SoundAt(v, l, depth, offset, noHoles, i)
  }

  /** The leftmost extent of an interior list may be empty, if files may be sparse. */
  ghost predicate SoundAt(v: Volume, l: ExtentList, depth: nat, offset: uint32, noHoles: bool, i: nat)
    decreases l, 0
  {
    i < l.nextFree && i < |l.recs| ==>
      || (v.sparse && depth > 0 && i == 0 && l.recs[i].clusters == 0)
      || SoundExtent(v, l.recs[i], depth, OffsetTo(l.recs, i, offset), noHoles)
  }

  ghost predicate SoundExtent(v: Volume, e: Extent, depth: nat, offset: uint32, noHoles: bool)
    decreases e, 1
  {
    && !OutOfRange(v, e.blkno) && (e.cpos == offset || (e.cpos > offset && !noHoles))
    && (if depth == 0 then SoundRef(v, e.asRef, false, offset, noHoles)
        else e.asList.Good? && SoundList(v, e.asList.list, depth - 1, offset, noHoles))
  }

  /** A checked extent is as long as before and keeps its block, or has none. */
  predicate Kin(e0: Extent, e: Extent) { e.clusters == e0.clusters && (e.blkno == e0.blkno || e.blkno == 0) }

  /** What checking an extent record leaves of it: the filtered records, or no block number. */
  ghost predicate CheckedExtent(v: Volume, depth: nat, e0: Extent, e: Extent, cend0: uint64, cend: uint64) {
    var recs := if OutOfRange(v, e0.blkno) then [] else ExtentOriginal(v, depth, e0);
    && Kin(e0, e)
    && (if OutOfRange(v, e.blkno) then [] else ExtentRecords(v, depth, e)) == Filter(v, recs, cend0)
    && cend == FilterEnd(v, recs, cend0)
    && (depth > 0 ==> (OutOfRange(v, e.blkno) <==> OutOfRange(v, e0.blkno) || e0.asList.BadList?))
  }

  lemma ListChecked(v: Volume, depth: nat, e0: Extent, e: Extent, l0: ExtentList, l: ExtentList, cend0: uint64,
                    cend: uint64)
    requires !OutOfRange(v, e0.blkno) && depth > 0 && e0.asList == Good(l0) && e.asList == Good(l)
    requires e.clusters == e0.clusters && e.blkno == e0.blkno && l.nextFree <= |l.recs|
    requires ListRecords(v, l, l.nextFree) == Filter(v, ListOriginal(v, l0, depth - 1, |UsedExtents(l0)|), cend0)
    requires cend == FilterEnd(v, ListOriginal(v, l0, depth - 1, |UsedExtents(l0)|), cend0)
    ensures CheckedExtent(v, depth, e0, e, cend0, cend)
  {
    assert ExtentRecords(v, depth, e) == ListRecords(v, l, l.nextFree);
  }

  lemma BlockChecked(v: Volume, e0: Extent, e: Extent, valid: bool, cend0: uint64, cend: uint64)
    requires !OutOfRange(v, e0.blkno) && e.clusters == e0.clusters && e.blkno == if valid then e0.blkno else 0
    requires (if valid then RefRecords(v, e.asRef) else []) == Filter(v, RefOriginal(v, e0.asRef), cend0)
    requires cend == FilterEnd(v, RefOriginal(v, e0.asRef), cend0)
    ensures CheckedExtent(v, 0, e0, e, cend0, cend)
  {
    assert ExtentOriginal(v, 0, e0) == RefOriginal(v, e0.asRef);
  }

  /** The extents that stay in the list, given what checking made of each. */
  function KeptExtents(v: Volume, depth: nat, checked: seq<Extent>): seq<Extent> {
    if checked == [] then []
    else
      var n := |checked| - 1;
      var kept := KeptExtents(v, depth, checked[..n]);
      if Skipped(v, depth, |kept|, checked[n]) || !OutOfRange(v, checked[n].blkno) then kept + [checked[n]] else kept
  }

  /** The extent records in use, once the counts have been clamped. */
  function UsedExtents(l: ExtentList): seq<Extent> { l.recs[..Min(l.nextFree, Min(l.count, |l.recs|))] }

  /** Checks a refcount block; an empty leaf is valid only as the root of its tree. */
  method CheckRb(v: Volume, b0: RefBlock, isRoot: bool, cend0: uint64, offset: uint32, noHoles: bool)
    returns (b: RefBlock, cend: uint64, valid: bool)
    ensures (if valid then RefRecords(v, b) else []) == Filter(v, RefOriginal(v, b0), cend0)
    ensures cend == FilterEnd(v, RefOriginal(v, b0), cend0)
    ensures valid ==> (InOrder(v, RefRecords(v, b), cend0, cend) <==>
                       !exists i: nat :: OverflowAt(v, RefOriginal(v, b0), cend0, i))
    ensures !valid ==> cend == cend0
    ensures SoundRef(v, b0, isRoot, offset, noHoles) && KeepsAll(v, RefOriginal(v, b0), cend0) ==> b == b0 && valid
    ensures valid <==> !b0.BadRef? && (b0.Leaf? && !isRoot ==> Filter(v, RefOriginal(v, b0), cend0) != [])
    decreases b0
  {
    b, cend, valid := b0, cend0, true;
    FilteredInOrder(v, RefOriginal(v, b0), cend0);
    EndStays(v, RefOriginal(v, b0), cend0);
    match b0 {
      case BadRef =>
        valid := false;
      case Root(t0) =>
        var t;
        ghost var checked;
        t, cend, checked := CheckEl(v, t0, None, cend0, offset, noHoles);
        b := Root(t);
      case Leaf(l0) =>
        var l, changed;
        l, cend, changed := CheckRl(v, l0, cend0);
        b := Leaf(l);
        assert |UsedRecs(l0)| == Min(l0.used, Min(l0.count, |l0.recs|));
        if !isRoot && l.used == 0 {
          valid := false;
        }
    }
  }

  /** Checks an extent record and what it leads to; a record without a good block loses its block number. */
  method CheckEr(v: Volume, e0: Extent, depth: nat, cend0: uint64, offset: uint32, noHoles: bool)
    returns (e: Extent, cend: uint64)
    ensures CheckedExtent(v, depth, e0, e, cend0, cend)
    ensures if OutOfRange(v, e0.blkno) then e.cpos == e0.cpos else PlacedFrom(e0.cpos, e.cpos, offset, noHoles)
    ensures SoundExtent(v, e0, depth, offset, noHoles) && KeepsAll(v, ExtentOriginal(v, depth, e0), cend0) ==> e == e0
    decreases e0
  {
    e, cend := e0, cend0;
    if OutOfRange(v, e.blkno) {
      return;
    }
    if noHoles && e.cpos != offset {
      e := e.(cpos := offset);
    }
    if e.cpos < offset {
      e := e.(cpos := offset);
    }
    if depth > 0 {
      match e0.asList {
        case BadList =>
          e := e.(blkno := 0);
        case Good(l0) =>
          var l;
          ghost var checked;
          l, cend, checked := CheckEl(v, l0, Some(depth - 1), cend0, offset, noHoles);
          e := e.(asList := Good(l));
          assert SoundExtent(v, e0, depth, offset, noHoles) && KeepsAll(v, ExtentOriginal(v, depth, e0), cend0) ==>
                   GoodList(v, l0, depth - 1, offset, noHoles, cend0);
          ListChecked(v, depth, e0, e, l0, l, cend0, cend);
      }
    } else {
      var b, valid;
      b, cend, valid := CheckRb(v, e0.asRef, false, cend0, offset, noHoles);
      e := e.(asRef := b);
      if !valid {
        e := e.(blkno := 0);
      }
      BlockChecked(v, e0, e, valid, cend0, cend);
    }
  }

  /** Checks an extent list; records that lead nowhere are taken out of the array in place. */
  method CheckEl(v: Volume, l0: ExtentList, expected: Option<nat>, cend0: uint64, offset0: uint32, noHoles: bool)
    returns (l: ExtentList, cend: uint64, ghost checked: seq<Extent>)
    ensures |l.recs| == |l0.recs| && l.nextFree <= l.count == Min(l0.count, |l0.recs|)
    ensures l.depth == (match expected case None => l0.depth case Some(d) => d)
    ensures ListRecords(v, l, l.nextFree) == Filter(v, ListOriginal(v, l0, l.depth, |UsedExtents(l0)|), cend0)
    ensures cend == FilterEnd(v, ListOriginal(v, l0, l.depth, |UsedExtents(l0)|), cend0)
    ensures |checked| == |UsedExtents(l0)| && l.recs[..l.nextFree] == KeptExtents(v, l.depth, checked)
    ensures forall k | 0 <= k < |checked| :: Kin(l0.recs[k], checked[k])
    ensures forall k: nat :: PlacedAt(v, l0, l.depth, offset0, noHoles, checked, k)
    ensures GoodList(v, l0, l.depth, offset0, noHoles, cend0) ==> l == l0
    decreases l0, 2
  {
    l, cend, checked := l0, cend0, [];
    if expected.Some? {
      l := l.(depth := expected.value);
    }
    if l.count > |l.recs| {
      l := l.(count := |l.recs|);
    }
    if l.nextFree > l.count {
      l := l.(nextFree := l.count);
    }
    var i: nat, offset: uint32 := 0, offset0;
    NothingChecked(v, l0, l, cend0);
    ghost var good := GoodList(v, l0, l.depth, offset0, noHoles, cend0);
    while i < l.nextFree
      invariant |l.recs| == |l0.recs| && l.nextFree <= l.count == Min(l0.count, |l0.recs|)
      invariant l.depth == (match expected case None => l0.depth case Some(d) => d)
      invariant CheckedTo(v, l0, l, i, l.nextFree, checked, cend0, cend)
      invariant PlacedTo(v, l0, l.depth, offset0, noHoles, checked, offset)
      invariant good ==> l == l0 && i == |checked|
      decreases l.nextFree - i
    {
      if good {
        KeepsEach(v, l0, l0.depth, |UsedExtents(l0)|, cend0, |checked|);
        assert GoodAt(v, l0, offset0, noHoles, cend, i);
      }
      l, i, offset, cend, checked := CheckNext(v, l0, l, i, offset, noHoles, checked, cend0, cend, offset0);
    }
    AllChecked(v, l0, l, i, checked, cend0, cend);
  }

  /** One round of checking an extent list. */
  method CheckNext(v: Volume, ghost l0: ExtentList, l1: ExtentList, i: nat, offset: uint32, noHoles: bool,
                   ghost checked: seq<Extent>, ghost cend0: uint64, cend1: uint64, ghost offset0: uint32)
    returns (l: ExtentList, i': nat, offset': uint32, cend: uint64, ghost checked': seq<Extent>)
    requires CheckedTo(v, l0, l1, i, l1.nextFree, checked, cend0, cend1) && i < l1.nextFree
    requires PlacedTo(v, l0, l1.depth, offset0, noHoles, checked, offset)
    ensures PlacedTo(v, l0, l.depth, offset0, noHoles, checked', offset')
    ensures l1 == l0 && i == |checked| && GoodAt(v, l0, offset0, noHoles, cend1, i) ==> l == l0 && i' == |checked'|
    ensures |l.recs| == |l1.recs| && l.count == l1.count && l.depth == l1.depth && l.nextFree <= l1.nextFree
    ensures CheckedTo(v, l0, l, i', l.nextFree, checked', cend0, cend)
    ensures l.nextFree - i' < l1.nextFree - i && i' <= l.nextFree
    decreases l0, 1
  {
    NextExtent(v, l0, l1, i, checked, cend0, cend1);
    ghost var seen := |checked|;
    var e, skipped;
    e, cend, offset', skipped := CheckOne(v, l0, l1.recs[i], l1.depth, i, offset, noHoles, cend1, seen, offset0);
    checked' := checked + [e];
    PlacedStep(v, l0, l1.depth, offset0, noHoles, checked, offset, e, offset');
    l, i' := Replace(v, l1, i, e, skipped);
    if i' == i {
      DropStep(v, l0, l1, l, i, l1.nextFree, checked, cend0, cend1, e, cend);
    } else {
      KeepStep(v, l0, l1, l, i, l1.nextFree, checked, cend0, cend1, e, cend);
    }
  }

  /** Checks one extent, unless it is passed over. */
  method CheckOne(v: Volume, ghost l0: ExtentList, e0: Extent, depth: nat, i: nat, offset: uint32, noHoles: bool,
                  cend0: uint64, ghost seen: nat, ghost offset0: uint32)
    returns (e: Extent, cend: uint64, offset': uint32, skipped: bool)
    requires seen < |l0.recs| && e0 == l0.recs[seen] && (depth > 0 ==> i == KeptBefore(v, l0, depth, seen))
    requires offset == OffsetTo(l0.recs, seen, offset0)
    ensures skipped == Skipped(v, depth, i, e0) && Kin(e0, e) && offset' == (offset + e.clusters) % UINT32_RANGE
    ensures if skipped then e == e0 && cend == cend0 else CheckedExtent(v, depth, e0, e, cend0, cend)
    ensures if OutOfRange(v, e0.blkno) || skipped then e.cpos == e0.cpos
            else PlacedFrom(e0.cpos, e.cpos, offset, noHoles)
    ensures seen == i && depth == l0.depth && GoodAt(v, l0, offset0, noHoles, cend0, i) ==>
              e == e0 && (skipped || !OutOfRange(v, e.blkno))
    decreases l0, 0
  {
    e, cend, offset', skipped := e0, cend0, offset, Skipped(v, depth, i, e0);
    if skipped {
      return;
    }
    if seen == i && depth == l0.depth && GoodAt(v, l0, offset0, noHoles, cend0, i) {
      GoodExtent(v, l0, offset0, noHoles, cend0, i);
    }
    e, cend := CheckEr(v, e0, depth, cend0, offset, noHoles);
    offset' := (offset + e.clusters) % UINT32_RANGE;
  }

  /** Puts a checked extent back, or takes it out of the array in place if it leads nowhere. */
  method Replace(v: Volume, l0: ExtentList, i: nat, e: Extent, skipped: bool) returns (l: ExtentList, i': nat)
    requires i < l0.nextFree <= |l0.recs| && (skipped ==> e == l0.recs[i])
    ensures if !skipped && OutOfRange(v, e.blkno)
            then && i' == i
                 && l == l0.(recs := ShiftOut(l0.recs[i := e], i, l0.nextFree, Extent(0, 0, 0, BadRef, BadList)),
                             nextFree := l0.nextFree - 1)
            else i' == i + 1 && l == l0.(recs := l0.recs[i := e])
    ensures e == l0.recs[i] && i' == i + 1 ==> l == l0
  {
    l, i' := l0, i + 1;
    if skipped {
      assert l.recs[i := e] == l.recs;
      return;
    }
    l := l.(recs := l.recs[i := e]);
    if OutOfRange(v, e.blkno) {
      l := l.(recs := ShiftOut(l.recs, i, l.nextFree, Extent(0, 0, 0, BadRef, BadList)), nextFree := l.nextFree - 1);
      i' := i;
    } else if e == l0.recs[i] {
      assert l.recs == l0.recs;
    }
  }

  /** The extents before `i` have been checked and hold the filtered records; the rest is as it was. */
  ghost predicate CheckedTo(v: Volume, l0: ExtentList, l: ExtentList, i: nat, max: nat, checked: seq<Extent>,
                            cend0: uint64, cend: uint64) {
    && i <= max <= |l.recs| && |checked| <= |UsedExtents(l0)|
    && l.recs[i..max] == UsedExtents(l0)[|checked|..]
    && l.recs[..i] == KeptExtents(v, l.depth, checked) && (forall k | 0 <= k < |checked| :: Kin(l0.recs[k], checked[k]))
    && RecordsTo(v, l0, l, i, |checked|, cend0, cend)
  }

  ghost predicate RecordsTo(v: Volume, l0: ExtentList, l: ExtentList, i: nat, seen: nat, cend0: uint64, cend: uint64) {
    && i <= |l.recs| && seen <= |l0.recs|
    && ListRecords(v, l, i) == Filter(v, ListOriginal(v, l0, l.depth, seen), cend0)
    && cend == FilterEnd(v, ListOriginal(v, l0, l.depth, seen), cend0)
    && (l.depth > 0 ==> i == KeptBefore(v, l0, l.depth, seen))
  }

  /** All places up to here are right, and `offset` counts the clusters before the next extent. */
  ghost predicate PlacedTo(v: Volume, l0: ExtentList, depth: nat, offset0: uint32, noHoles: bool, checked: seq<Extent>,
                           offset: uint32) {
    && |checked| <= |l0.recs| && offset == OffsetTo(l0.recs, |checked|, offset0)
    && forall k: nat :: PlacedAt(v, l0, depth, offset0, noHoles, checked, k)
  }

  lemma PlacedStep(v: Volume, l0: ExtentList, depth: nat, offset0: uint32, noHoles: bool,
                   checked: seq<Extent>, offset: uint32, e: Extent, offset': uint32)
    requires PlacedTo(v, l0, depth, offset0, noHoles, checked, offset) && |checked| < |l0.recs|
    requires var e0 := l0.recs[|checked|];
             && Kin(e0, e)
             && (if OutOfRange(v, e0.blkno) || Skipped(v, depth, KeptBefore(v, l0, depth, |checked|), e0)
                 then e.cpos == e0.cpos else PlacedFrom(e0.cpos, e.cpos, offset, noHoles))
             && offset' == (offset + e.clusters) % UINT32_RANGE
    ensures PlacedTo(v, l0, depth, offset0, noHoles, checked + [e], offset')
  {
    var checked' := checked + [e];
    forall k: nat
      ensures PlacedAt(v, l0, depth, offset0, noHoles, checked', k)
    {
      assert PlacedAt(v, l0, depth, offset0, noHoles, checked, k);
    }
  }

  /** Of each extent's records nothing is dropped, if nothing is dropped at all. */
  lemma {:induction false} KeepsEach(v: Volume, l: ExtentList, depth: nat, n: nat, cend: uint64, k: nat)
    requires n <= |l.recs| && KeepsAll(v, ListOriginal(v, l, depth, n), cend)
    ensures k < n ==> KeepsAll(v, Original(v, l, depth, k), FilterEnd(v, ListOriginal(v, l, depth, k), cend))
    decreases n
  {
    if n > 0 {
      KeepsParts(v, ListOriginal(v, l, depth, n - 1), Original(v, l, depth, n - 1), cend);
      if k < n - 1 {
        KeepsEach(v, l, depth, n - 1, cend, k);
      }
    }
  }

  /** The list needs no repair, and none of the records below it is dropped. */
  ghost predicate GoodList(v: Volume, l: ExtentList, depth: nat, offset: uint32, noHoles: bool, cend: uint64) {
    SoundList(v, l, depth, offset, noHoles) && KeepsAll(v, ListOriginal(v, l, depth, |UsedExtents(l)|), cend)
  }

  ghost predicate GoodAt(v: Volume, l: ExtentList, offset: uint32, noHoles: bool, cend: uint64, i: nat) {
    && i < |l.recs| && i < l.nextFree && SoundAt(v, l, l.depth, offset, noHoles, i)
    && KeepsAll(v, Original(v, l, l.depth, i), cend)
  }

  /** Such an extent is good itself, unless it is the empty one that is passed over. */
  lemma GoodExtent(v: Volume, l: ExtentList, offset: uint32, noHoles: bool, cend: uint64, i: nat)
    requires GoodAt(v, l, offset, noHoles, cend, i) && !Skipped(v, l.depth, i, l.recs[i])
    requires l.depth > 0 ==> i == KeptBefore(v, l, l.depth, i)
    ensures SoundExtent(v, l.recs[i], l.depth, OffsetTo(l.recs, i, offset), noHoles)
    ensures KeepsAll(v, ExtentOriginal(v, l.depth, l.recs[i]), cend)
  {
  }

  lemma NothingChecked(v: Volume, l0: ExtentList, l: ExtentList, cend: uint64)
    requires l.nextFree <= |l.recs| && l.recs[..l.nextFree] == UsedExtents(l0)
    ensures CheckedTo(v, l0, l, 0, l.nextFree, [], cend, cend)
  {
    assert l.recs[0..l.nextFree] == UsedExtents(l0)[0..];
  }

  lemma AllChecked(v: Volume, l0: ExtentList, l: ExtentList, i: nat, checked: seq<Extent>, cend0: uint64, cend: uint64)
    requires CheckedTo(v, l0, l, i, l.nextFree, checked, cend0, cend) && i >= l.nextFree
    ensures |checked| == |UsedExtents(l0)| && l.recs[..l.nextFree] == KeptExtents(v, l.depth, checked)
    ensures RecordsTo(v, l0, l, l.nextFree, |UsedExtents(l0)|, cend0, cend)
  {
    assert UsedExtents(l0)[|checked|..] == [];
  }

  lemma NextExtent(v: Volume, l0: ExtentList, l: ExtentList, i: nat, checked: seq<Extent>, cend0: uint64, cend: uint64)
    requires CheckedTo(v, l0, l, i, l.nextFree, checked, cend0, cend) && i < l.nextFree
    ensures |checked| < |UsedExtents(l0)| && l.recs[i] == l0.recs[|checked|]
  {
    assert l.recs[i] == l.recs[i..l.nextFree][0] == UsedExtents(l0)[|checked|];
  }

  /** The records of one more extent, filtered from where the earlier ones ended. */
  lemma OriginalStep(v: Volume, l0: ExtentList, l: ExtentList, i: nat, seen: nat, cend0: uint64, cend: uint64)
    requires RecordsTo(v, l0, l, i, seen, cend0, cend) && seen < |l0.recs|
    ensures var all, one := ListOriginal(v, l0, l.depth, seen + 1), Original(v, l0, l.depth, seen);
            && Filter(v, all, cend0) == ListRecords(v, l, i) + Filter(v, one, cend)
            && FilterEnd(v, all, cend0) == FilterEnd(v, one, cend)
  {
    FilterConcat(v, ListOriginal(v, l0, l.depth, seen), Original(v, l0, l.depth, seen), cend0);
  }

  lemma RestStep(l0: ExtentList, recs: seq<Extent>, i: nat, max: nat, seen: nat)
    requires i < max <= |recs| && seen < |UsedExtents(l0)| && recs[i..max] == UsedExtents(l0)[seen..]
    ensures recs[i+1..max] == UsedExtents(l0)[seen+1..]
  {
    assert recs[i+1..max] == recs[i..max][1..];
    assert UsedExtents(l0)[seen+1..] == UsedExtents(l0)[seen..][1..];
  }

  /** One more extent stays. */
  lemma KeepRecords(v: Volume, l0: ExtentList, l: ExtentList, l': ExtentList, i: nat, seen: nat, cend0: uint64,
                    cend: uint64, cend': uint64)
    requires RecordsTo(v, l0, l, i, seen, cend0, cend) && seen < |l0.recs| && i < |l'.recs|
    requires l'.depth == l.depth && l'.recs[..i] == l.recs[..i]
    requires var e0, e := l0.recs[seen], l'.recs[i];
             if Skipped(v, l.depth, i, e) then e == e0 && cend' == cend
             else !OutOfRange(v, e.blkno) && CheckedExtent(v, l.depth, e0, e, cend, cend')
    ensures RecordsTo(v, l0, l', i + 1, seen + 1, cend0, cend')
  {
    SameRecords(v, l, l', i);
    OriginalStep(v, l0, l, i, seen, cend0, cend);
  }

  /** One more extent goes. */
  lemma DropRecords(v: Volume, l0: ExtentList, l: ExtentList, l': ExtentList, i: nat, seen: nat, cend0: uint64,
                    cend: uint64, e: Extent, cend': uint64)
    requires RecordsTo(v, l0, l, i, seen, cend0, cend) && seen < |l0.recs| && i <= |l'.recs|
    requires l'.depth == l.depth && l'.recs[..i] == l.recs[..i]
    requires !Skipped(v, l.depth, i, e) && OutOfRange(v, e.blkno)
    requires CheckedExtent(v, l.depth, l0.recs[seen], e, cend, cend')
    ensures RecordsTo(v, l0, l', i, seen + 1, cend0, cend')
  {
    SameRecords(v, l, l', i);
    OriginalStep(v, l0, l, i, seen, cend0, cend);
    assert ListRecords(v, l, i) + [] == ListRecords(v, l, i);
  }

  lemma KeepStep(v: Volume, l0: ExtentList, l: ExtentList, l': ExtentList, i: nat, max: nat, checked: seq<Extent>,
                 cend0: uint64, cend: uint64, e: Extent, cend': uint64)
    requires CheckedTo(v, l0, l, i, max, checked, cend0, cend) && i < max && |checked| < |UsedExtents(l0)|
    requires l' == l.(recs := l.recs[i := e])
    requires var e0 := l0.recs[|checked|];
             if Skipped(v, l.depth, i, e) then e == e0 && cend' == cend
             else !OutOfRange(v, e.blkno) && CheckedExtent(v, l.depth, e0, e, cend, cend')
    ensures CheckedTo(v, l0, l', i + 1, max, checked + [e], cend0, cend')
  {
    KeepRecords(v, l0, l, l', i, |checked|, cend0, cend, cend');
    RestStep(l0, l.recs, i, max, |checked|);
    assert (checked + [e])[..|checked|] == checked;
    assert l'.recs[..i+1] == l.recs[..i] + [e];
    assert l'.recs[i+1..max] == l.recs[i+1..max];
  }

  lemma DropStep(v: Volume, l0: ExtentList, l: ExtentList, l': ExtentList, i: nat, max: nat, checked: seq<Extent>,
                 cend0: uint64, cend: uint64, e: Extent, cend': uint64)
    requires CheckedTo(v, l0, l, i, max, checked, cend0, cend) && i < max && |checked| < |UsedExtents(l0)|
    requires !Skipped(v, l.depth, i, e) && OutOfRange(v, e.blkno)
    requires CheckedExtent(v, l.depth, l0.recs[|checked|], e, cend, cend')
    requires l' == l.(recs := ShiftOut(l.recs[i := e], i, max, Extent(0, 0, 0, BadRef, BadList)), nextFree := max - 1)
    ensures CheckedTo(v, l0, l', i, max - 1, checked + [e], cend0, cend')
  {
    var was := l.recs[i := e];
    Shifted(was, l'.recs, i, max - 1);
    DropRecords(v, l0, l, l', i, |checked|, cend0, cend, e, cend');
    RestStep(l0, l.recs, i, max, |checked|);
    assert was[i..max][1..] == l.recs[i+1..max];
    assert (checked + [e])[..|checked|] == checked;
  }

  /** The records below the first `n` extents depend on those only. */
  lemma {:induction false} SameRecords(v: Volume, l: ExtentList, l': ExtentList, n: nat)
    requires n <= |l.recs| && n <= |l'.recs| && l'.depth == l.depth && l'.recs[..n] == l.recs[..n]
    ensures ListRecords(v, l', n) == ListRecords(v, l, n)
    decreases n
  {
    if n > 0 {
      assert l'.recs[..n-1] == l'.recs[..n][..n-1] == l.recs[..n-1];
      assert l'.recs[n-1] == l'.recs[..n][n-1] == l.recs[n-1];
      SameRecords(v, l, l', n - 1);
    }
  }

  /** Records in order all stay; where the structure is sound too, the check leaves the tree as it is. */
  lemma GoodTreeKeepsAll(v: Volume, b: RefBlock, cend: uint64, to: nat)
    requires InOrder(v, RefOriginal(v, b), cend, to)
    ensures KeepsAll(v, RefOriginal(v, b), cend)
  {
    var recs := RefOriginal(v, b);
    forall k | 0 <= k < |recs|
      ensures RecInRange(v, recs[k])
    {
      assert recs[k] in recs;
    }
    GoodListSurvives(v, recs, |recs|, cend);
    assert recs[..|recs|] == recs;
  }

  // ---- the range test -----------------------------------------------------------------------

  ghost predicate InsideVolume(v: Volume, r: Rec) { r.End() <= v.clusters }

  /**
   A record that passes the test ends inside the volume, except when its last cluster is the one just
   behind the volume, or does not fit in 32 bits.
   */
  lemma InsideUnlessAtEnd(v: Volume, r: Rec)
    requires v.bpc > 0 && v.clusters <= UINT32_RANGE && r.clusters > 0 && RecInRange(v, r)
    ensures InsideVolume(v, r) <==> r.End() <= UINT32_RANGE && r.End() != v.clusters + 1
  {
    var last: nat := r.End() - 1;
    if last < UINT32_RANGE {
      assert LastCluster(r) == last;
      Below(last, v.clusters, v.bpc);
    }
  }

  lemma Below(a: nat, b: nat, c: nat)
    requires c > 0 && a * c <= b * c
    ensures a <= b
  {
    if b < a {
      assert (b + 1) * c == b * c + c;
      Product(b + 1, a, c);
    }
  }

  /** A record inside the volume that ends behind its first blocks passes, whatever its count. */
  lemma InsidePasses(v: Volume, r: Rec)
    requires r.clusters > 0 && r.End() <= v.clusters <= UINT32_RANGE && 2 <= (r.End() - 1) * v.bpc
    ensures RecInRange(v, r)
  {
    Product(r.End() - 1, v.clusters, v.bpc);
  }

  /** On a volume of eight clusters a record for cluster 8, which does not exist, passes the test. */
  lemma OnePastTheEndPasses()
    ensures RecInRange(Volume(8, 4, true), Rec(8, 1, 1)) && !InsideVolume(Volume(8, 4, true), Rec(8, 1, 1))
  {
  }
}
