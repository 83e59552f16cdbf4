/**
 Both passes over a refcount tree (fsck.ocfs2/refcount.c): the check of its blocks, and the sweep that
 makes it agree with the files that share its clusters.
 */
module RefcountRepair {
  import opened Common
  import opened RefcountRecords
  import opened RefcountClear
  import Check = RefcountCheck
  import Sweep = RefcountTree

  /** The records that the first pass leaves, from left to right, are what the second pass may start from. */
  lemma CheckedIsReady(v: Check.Volume, recs: seq<Check.DiskRec>, to: nat)
    requires Check.InOrder(v, recs, 0, to)
    ensures WellFormed(recs) && (forall i | 0 <= i < |recs| :: recs[i].End() <= to) && (to < UINT32_RANGE ==> Low(recs))
  {
    Check.RunsWellFormed(recs, 0, to);
  }

  /** The records that the first pass leaves of a tree, and their end. */
  ghost function Left(v: Check.Volume, b: Check.RefBlock): seq<Rec> { Check.Filter(v, Check.RefOriginal(v, b), 0) }

  ghost function LeftEnd(v: Check.Volume, b: Check.RefBlock): nat { Check.FilterEnd(v, Check.RefOriginal(v, b), 0) }

  /** They are in order, and no record ends beyond 32 bits. */
  ghost predicate LeftLow(v: Check.Volume, b: Check.RefBlock) {
    LeftEnd(v, b) < UINT32_RANGE && !exists i: nat :: Check.OverflowAt(v, Check.RefOriginal(v, b), 0, i)
  }

  lemma LeftStored(v: Check.Volume, b: Check.RefBlock)
    requires LeftLow(v, b)
    ensures Stored(Left(v, b)) && forall i | 0 <= i < |Left(v, b)| :: Left(v, b)[i].End() <= LeftEnd(v, b)
  {
    Check.FilteredInOrder(v, Check.RefOriginal(v, b), 0);
    CheckedIsReady(v, Check.Filter(v, Check.RefOriginal(v, b), 0), LeftEnd(v, b));
  }

  /** The state in which the sweep of a checked tree starts. */
  ghost function Start(v: Check.Volume, b: Check.RefBlock, files: seq<Sweep.FileExtents>, inUse: set<nat>,
                       dup: set<nat>): Sweep.Snapshot
  {
    Sweep.Snapshot(files, Left(v, b), 0, inUse, dup)
  }

  /** Where the clearing behind the last held cluster comes out of records with a count of zero. */
  ghost predicate LandsLow(v: Check.Volume, b: Check.RefBlock, files: seq<Sweep.FileExtents>) {
    Low(Left(v, b)) &&
    forall e: nat | Sweep.EndOfHeld(files, e) :: Landing(Left(v, b), e, LeftEnd(v, b)) < UINT32_RANGE
  }

  /**
   Checks the blocks of a tree and then its counts.  From any block with a good signature and generation, with
   any damage to lists and records below it, the counts come out as the files that share the tree demand, and the
   records that were dropped do not matter.
   */
  method RepairTree(v: Check.Volume, b0: Check.RefBlock, files: seq<Sweep.FileExtents>, marks: Sweep.ClusterMarks)
    returns (valid: bool, recs: seq<Rec>)
    requires Sweep.ValidFiles(files) && Sweep.HeldLow(files) && LeftLow(v, b0) && LandsLow(v, b0, files)
    requires Sweep.ZerosOffLive(Start(v, b0, files, marks.inUse, marks.duplicates))
    modifies marks
    ensures valid <==> !b0.BadRef?
    ensures !valid ==> unchanged(marks)
    ensures valid ==>
              && Stored(recs)
              && Sweep.TreeRepaired(Start(v, b0, files, old(marks.inUse), old(marks.duplicates)), LeftEnd(v, b0),
                                    Sweep.Snapshot([], recs, 0, marks.inUse, marks.duplicates))
  {
    var b, rfEnd;
    b, rfEnd, valid := Check.CheckRb(v, b0, true, 0, 0, false);
    recs := [];
    if valid {
      LeftStored(v, b0);
      recs := Check.RefRecords(v, b);
      var tree := new Sweep.Tree(recs, files, rfEnd);
      ghost var segs, end := tree.CheckRefcount(marks);
      recs := tree.recs;
      Sweep.SameRepair(Start(v, b0, files, old(marks.inUse), old(marks.duplicates)), rfEnd,
                       Sweep.Snapshot(tree.files, recs, tree.pCend, marks.inUse, marks.duplicates), [], 0);
    }
  }

  /**
   A volume of 1000 clusters, a file on clusters 0 to 499, and two records that survive the check.  Correcting the
   count of the first one joins it to the second, which ends beyond 32 bits; the length is cut, and cluster 200
   loses its count.
   */
  lemma LongRecordLosesCounts()
    ensures var v, recs := Check.Volume(1000, 4, true), [Rec(0, 500, 2), Rec(500, UINT32_RANGE - 400, 1)];
            var files := [[Sweep.Extent(0, 500, 0)]];
            && Check.RecInRange(v, recs[0]) && Check.RecInRange(v, recs[1]) && Check.Filter(v, recs, 0) == recs
            && WellFormed(recs) && Sweep.ValidFiles(files) && Sweep.HoldCount(files, 200) == 1
            && Edited(recs, ChangeRec(recs, 0, -1)) && CountAt(ChangeRec(recs, 0, -1), 200) == 0
  {
    var v := Check.Volume(1000, 4, true);
    var recs: seq<Check.DiskRec> := [Rec(0, 500, 2), Rec(500, UINT32_RANGE - 400, 1)];
    assert Check.Survives(v, recs, 0, 0) && Check.Survivors(v, recs, 1, 0) == recs[..1];
    assert Check.LastEnd(v, recs, 1, 0) == 500 && Check.Survives(v, recs, 1, 0);
    assert recs[..1] + [recs[1]] == recs;
    var f := [Sweep.Extent(0, 500, 0)];
    var files := [f];
    assert files[..0] == [] && f[0].Covers(200) && Sweep.Holds(f, 200);
    assert Sweep.HoldCount(files, 200) == Sweep.HoldCount([], 200) + 1;
    var t := [Rec(0, 500, 1), Rec(500, UINT32_RANGE - 400, 1)];
    assert ChangeList(recs, 0, -1) == t && Joined(t, 0) == Rec(0, 100, 1);
    assert ChangeRec(recs, 0, -1) == [Rec(0, 100, 1)] && Changed(recs, [Rec(0, 100, 1)], 0, -1);
    CountAtOne(Rec(0, 100, 1), 200);
  }
}
