/**
 Repair of the extent list of a discontiguous block group (fsck.ocfs2/pass0.c): the group is dropped,
 or its used records cover exactly as many clusters as a group has.
 */
module DiscontigGroup {
  import opened Common

  /** One extent of a group: its first block and its number of clusters. */
  datatype Rec = Rec(blkno: nat, clusters: nat)

  /** The list header and the array of records; the array is as long as a descriptor has room for. */
  datatype ExtentList = ExtentList(depth: nat, count: nat, nextFree: nat, recs: seq<Rec>)

  datatype Volume = Volume(blocks: nat, blocksPerCluster: nat)

  predicate OutOfRange(v: Volume, block: int) { OutOfVolume(v.blocks, block) }

  predicate EndMark(r: Rec) { r.blkno == 0 && r.clusters == 0 }

  predicate RecInRange(v: Volume, r: Rec) {
    !OutOfRange(v, r.blkno) && !OutOfRange(v, r.blkno + r.clusters * v.blocksPerCluster - 1)
  }

  /** What walking the records comes to: damage beyond repair, or where and with what it stopped. */
  datatype Outcome = Bad | Stop(n: nat, total: nat, fix: Option<nat>)

  /** The walk from record `i` on; `fix` is the one record so far that claims more than a group. */
  function ScanRecs(v: Volume, cpg: nat, recs: seq<Rec>, limit: nat, i: nat, total: nat, fix: Option<nat>): Outcome
    requires limit <= |recs|
    decreases limit - i
  {
    if i >= limit || EndMark(recs[i]) then Stop(i, total, fix)
    else if !RecInRange(v, recs[i]) then Bad
    else if recs[i].clusters > cpg then
      if fix.Some? then Bad else ScanRecs(v, cpg, recs, limit, i + 1, total, Some(i))
    else if total + recs[i].clusters > cpg then
      if total != cpg || fix.Some? then Bad else Stop(i, total, fix)
    else ScanRecs(v, cpg, recs, limit, i + 1, total + recs[i].clusters, fix)
  }

  /** The repaired list, or nothing when the group is dropped. */
  function Checked(v: Volume, cpg: nat, l: ExtentList): Option<ExtentList> {
    var count := Min(l.count, |l.recs|);
    match ScanRecs(v, cpg, l.recs, Min(l.nextFree, count), 0, 0, None)
    case Bad => None
    case Stop(n, total, fix) => Finished(cpg, l.(depth := 0, count := count, nextFree := n), total, fix)
  }

  /** The last step: too few clusters, one record to correct, or nothing to do. */
  function Finished(cpg: nat, l: ExtentList, total: nat, fix: Option<nat>): Option<ExtentList> {
    match fix
    case None => if total < cpg then None else Some(l)
    case Some(p) =>
      if total >= cpg || p >= |l.recs| then None
      else Some(l.(recs := l.recs[p := l.recs[p].(clusters := cpg - total)]))
  }

  method CheckDiscontigBg(v: Volume, cpg: nat, l0: ExtentList) returns (r: Option<ExtentList>)
    ensures r == Checked(v, cpg, l0) && Decided(v, cpg, l0, r)
  {
    CheckedDecided(v, cpg, l0);
    r := WalkRecs(v, cpg, l0);
  }

  method WalkRecs(v: Volume, cpg: nat, l0: ExtentList) returns (r: Option<ExtentList>)
    ensures r == Checked(v, cpg, l0)
  {
    var l := l0.(depth := 0);
    if l.count > |l.recs| {
      l := l.(count := |l.recs|);
    }
    var nextFree := if l.nextFree > l.count then l.count else l.nextFree;
    var i: nat, total: nat, fixPos: Option<nat> := 0, 0, None;
    while i < nextFree
      invariant i <= nextFree <= |l.recs| && total <= cpg
      invariant fixPos.Some? ==> fixPos.value < i
      invariant ScanRecs(v, cpg, l.recs, nextFree, 0, 0, None) == ScanRecs(v, cpg, l.recs, nextFree, i, total, fixPos)
    {
      var rec := l.recs[i];
      if rec.blkno == 0 && rec.clusters == 0 {
        break;
      }
      if OutOfRange(v, rec.blkno) || OutOfRange(v, rec.blkno + rec.clusters * v.blocksPerCluster - 1) {
        return None;
      }
      if rec.clusters > cpg {
        if fixPos.Some? {
          return None;
        }
        fixPos := Some(i);
      } else if total + rec.clusters > cpg {
        if total == cpg {
          if fixPos.Some? {
            return None;
          }
          break;
        } else {
          return None;
        }
      } else {
        total := total + rec.clusters;
      }
      i := i + 1;
    }
    l := l.(nextFree := i);
    if fixPos.None? && total < cpg {
      return None;
    }
    if fixPos.Some? {
      if total == cpg {
        return None;
      }
      var p := fixPos.value;
      l := l.(recs := l.recs[p := l.recs[p].(clusters := cpg - total)]);
    }
    r := Some(l);
  }

  // ---- what the repaired list is ------------------------------------------------------------

  function Sum(recs: seq<Rec>): nat { if recs == [] then 0 else Sum(recs[..|recs|-1]) + recs[|recs|-1].clusters }

  /** A list that needs no repair. */
  ghost predicate Sound(v: Volume, cpg: nat, l: ExtentList) {
    && l.depth == 0 && l.nextFree <= l.count <= |l.recs|
    && (forall k | 0 <= k < l.nextFree :: RecInRange(v, l.recs[k]))
    && Sum(l.recs[..l.nextFree]) == cpg
  }

  /** The clusters of all records but the one to be corrected. */
  function SumBut(recs: seq<Rec>, fix: Option<nat>): int {
    Sum(recs) - match fix case None => 0 case Some(p) => if p < |recs| then recs[p].clusters else 0
  }

  lemma SumStep(recs: seq<Rec>, i: nat)
    requires i < |recs|
    ensures Sum(recs[..i+1]) == Sum(recs[..i]) + recs[i].clusters
  {
    assert recs[..i+1][..i] == recs[..i];
  }

  /** Where the walk stops, the records before it are in range and make up the total. */
  lemma {:induction false} ScanStops(v: Volume, cpg: nat, recs: seq<Rec>, limit: nat, i: nat, total: nat,
                                     fix: Option<nat>)
    requires i <= limit <= |recs| && total <= cpg && total == SumBut(recs[..i], fix)
    requires fix.Some? ==> fix.value < i && recs[fix.value].clusters > cpg
    requires forall k | 0 <= k < i :: RecInRange(v, recs[k])
    ensures var o := ScanRecs(v, cpg, recs, limit, i, total, fix);
            o.Stop? ==>
              && o.n <= limit && o.total <= cpg && o.total == SumBut(recs[..o.n], o.fix)
              && (o.fix.Some? ==> o.fix.value < o.n && recs[o.fix.value].clusters > cpg)
              && forall k | 0 <= k < o.n :: RecInRange(v, recs[k])
    decreases limit - i
  {
    if i < limit && !EndMark(recs[i]) && RecInRange(v, recs[i]) {
      SumStep(recs, i);
      if recs[i].clusters > cpg {
        if fix.None? {
          ScanStops(v, cpg, recs, limit, i + 1, total, Some(i));
        }
      } else if total + recs[i].clusters <= cpg {
        assert fix.Some? ==> recs[..i+1][fix.value] == recs[..i][fix.value];
        ScanStops(v, cpg, recs, limit, i + 1, total + recs[i].clusters, fix);
      }
    }
  }

  lemma {:induction false} SumReplaced(recs: seq<Rec>, p: nat, r: Rec)
    requires p < |recs|
    ensures Sum(recs[p := r]) == Sum(recs) - recs[p].clusters + r.clusters
  {
    var n := |recs| - 1;
    if p == n {
      assert recs[p := r][..n] == recs[..n];
    } else {
      SumReplaced(recs[..n], p, r);
      assert recs[p := r][..n] == recs[..n][p := r];
    }
  }

  /** A record of fewer clusters does not reach further. */
  lemma ShorterInRange(v: Volume, r: Rec, clusters: nat)
    requires RecInRange(v, r) && 0 < clusters <= r.clusters && v.blocksPerCluster > 0
    ensures RecInRange(v, r.(clusters := clusters))
  {
    Product(clusters, r.clusters, v.blocksPerCluster);
    Product(1, clusters, v.blocksPerCluster);
  }

  /** A group that is not dropped ends up with records for exactly the clusters of a group. */
  lemma CheckedIsSound(v: Volume, cpg: nat, l: ExtentList)
    requires v.blocksPerCluster > 0
    ensures Checked(v, cpg, l).Some? ==> Sound(v, cpg, Checked(v, cpg, l).value)
  {
    var count := Min(l.count, |l.recs|);
    var o := ScanRecs(v, cpg, l.recs, Min(l.nextFree, count), 0, 0, None);
    ScanStops(v, cpg, l.recs, Min(l.nextFree, count), 0, 0, None);
    if o.Stop? && o.fix.Some? && o.total < cpg {
      OneCorrected(v, cpg, l, o.n, o.total, o.fix.value);
    }
  }

  lemma OneCorrected(v: Volume, cpg: nat, l: ExtentList, n: nat, total: nat, p: nat)
    requires v.blocksPerCluster > 0 && p < n <= |l.recs| && total < cpg < l.recs[p].clusters
    requires total == SumBut(l.recs[..n], Some(p))
    requires forall k | 0 <= k < n :: RecInRange(v, l.recs[k])
    ensures var recs' := l.recs[p := l.recs[p].(clusters := cpg - total)];
            Sum(recs'[..n]) == cpg && forall k | 0 <= k < n :: RecInRange(v, recs'[k])
  {
    var r := l.recs[p].(clusters := cpg - total);
    ShorterInRange(v, l.recs[p], cpg - total);
    SumReplaced(l.recs[..n], p, r);
    assert l.recs[p := r][..n] == l.recs[..n][p := r];
  }

  lemma {:induction false} SumGrows(recs: seq<Rec>, i: nat, n: nat)
    requires i <= n <= |recs|
    ensures Sum(recs[..i]) <= Sum(recs[..n])
    decreases n
  {
    if i < n {
      SumGrows(recs, i, n - 1);
      SumStep(recs, n - 1);
    }
  }

  lemma {:induction false} SoundScan(v: Volume, cpg: nat, l: ExtentList, i: nat)
    requires Sound(v, cpg, l) && i <= l.nextFree
    ensures ScanRecs(v, cpg, l.recs, l.nextFree, i, Sum(l.recs[..i]), None) == Stop(l.nextFree, cpg, None)
    decreases l.nextFree - i
  {
    if i < l.nextFree {
      SumStep(l.recs, i);
      SumGrows(l.recs, i + 1, l.nextFree);
      SoundScan(v, cpg, l, i + 1);
    }
  }

  /** A list is left as it is exactly when it is sound; in particular a repaired one is. */
  lemma KeptIffSound(v: Volume, cpg: nat, l: ExtentList)
    requires v.blocksPerCluster > 0
    ensures Checked(v, cpg, l) == Some(l) <==> Sound(v, cpg, l)
  {
    CheckedIsSound(v, cpg, l);
    if Sound(v, cpg, l) {
      SoundScan(v, cpg, l, 0);
    }
  }

  // ---- which groups stay, and as what -------------------------------------------------------

  /** The number of records that may be in use. */
  function Limit(l: ExtentList): nat { Min(l.nextFree, Min(l.count, |l.recs|)) }

  /** The first `n` records are in range, and none of them is the end mark. */
  ghost predicate GoodTo(v: Volume, l: ExtentList, n: nat) {
    n <= Limit(l) && forall k | 0 <= k < n :: !EndMark(l.recs[k]) && RecInRange(v, l.recs[k])
  }

  /** The records in use end at `n`. */
  ghost predicate EndsAt(l: ExtentList, n: nat) { n == Limit(l) || (n < Limit(l) && EndMark(l.recs[n])) }

  /**
   The first `n` records make up exactly a group, and the list ends there or goes on with a record in range that
   would be too much.
   */
  ghost predicate FillsAt(v: Volume, cpg: nat, l: ExtentList, n: nat) {
    && GoodTo(v, l, n) && Sum(l.recs[..n]) == cpg
    && (EndsAt(l, n) || (n < Limit(l) && RecInRange(v, l.recs[n]) && 0 < l.recs[n].clusters <= cpg))
  }

  /** Of the `n` records in use, `p` alone claims more than a group, and the others leave something for it. */
  ghost predicate TooLongAt(v: Volume, cpg: nat, l: ExtentList, n: nat, p: nat) {
    && GoodTo(v, l, n) && EndsAt(l, n) && p < n && l.recs[p].clusters > cpg
    && Sum(l.recs[..n]) - l.recs[p].clusters < cpg
  }

  /** The header is put right, and `n` records are in use. */
  function Cut(l: ExtentList, n: nat): ExtentList { l.(depth := 0, count := Min(l.count, |l.recs|), nextFree := n) }

  /** Record `p` gets what the others leave of a group. */
  function Corrected(cpg: nat, l: ExtentList, n: nat, p: nat): ExtentList
    requires n <= |l.recs| && p < |l.recs| && Sum(l.recs[..n]) - l.recs[p].clusters < cpg
  {
    var rest := cpg - (Sum(l.recs[..n]) - l.recs[p].clusters);
    Cut(l, n).(recs := l.recs[p := l.recs[p].(clusters := rest)])
  }

  /** What becomes of a group: it is cut where it is full, the one record that is too long is corrected, or it goes. */
  ghost predicate Decided(v: Volume, cpg: nat, l: ExtentList, r: Option<ExtentList>) {
    && (forall n: nat :: FillsAt(v, cpg, l, n) ==> r == Some(Cut(l, n)))
    && (forall n: nat, p: nat :: TooLongAt(v, cpg, l, n, p) ==> r == Some(Corrected(cpg, l, n, p)))
    && (r.Some? ==> (exists n: nat :: FillsAt(v, cpg, l, n)) || exists n: nat, p: nat :: TooLongAt(v, cpg, l, n, p))
  }

  lemma CheckedDecided(v: Volume, cpg: nat, l: ExtentList)
    ensures Decided(v, cpg, l, Checked(v, cpg, l))
  {
    forall n: nat | FillsAt(v, cpg, l, n)
      ensures Checked(v, cpg, l) == Some(Cut(l, n))
    {
      FullScan(v, cpg, l, n, 0);
    }
    forall n: nat, p: nat | TooLongAt(v, cpg, l, n, p)
      ensures Checked(v, cpg, l) == Some(Corrected(cpg, l, n, p))
    {
      OthersSum(l.recs, p, n);
      LongScan(v, cpg, l, n, p, 0);
    }
    var o := ScanRecs(v, cpg, l.recs, Limit(l), 0, 0, None);
    ScanStops(v, cpg, l.recs, Limit(l), 0, 0, None);
    ScanReason(v, cpg, l, 0, 0, None);
    if o.Stop? && o.fix.None? && o.total >= cpg {
      assert FillsAt(v, cpg, l, o.n);
    } else if o.Stop? && o.fix.Some? && o.total < cpg {
      assert l.recs[..o.n][o.fix.value] == l.recs[o.fix.value];
      assert TooLongAt(v, cpg, l, o.n, o.fix.value);
    }
  }

  /** Why the walk stops where it does. */
  lemma {:induction false} ScanReason(v: Volume, cpg: nat, l: ExtentList, i: nat, total: nat, fix: Option<nat>)
    requires GoodTo(v, l, i)
    ensures var o := ScanRecs(v, cpg, l.recs, Limit(l), i, total, fix);
            o.Stop? ==>
              && GoodTo(v, l, o.n)
              && (EndsAt(l, o.n) ||
                  (&& o.n < Limit(l) && RecInRange(v, l.recs[o.n]) && l.recs[o.n].clusters <= cpg
                   && o.total == cpg && o.fix.None? && l.recs[o.n].clusters > 0))
    decreases Limit(l) - i
  {
    if i < Limit(l) && !EndMark(l.recs[i]) && RecInRange(v, l.recs[i]) {
      if l.recs[i].clusters > cpg {
        if fix.None? {
          ScanReason(v, cpg, l, i + 1, total, Some(i));
        }
      } else if total + l.recs[i].clusters <= cpg {
        ScanReason(v, cpg, l, i + 1, total + l.recs[i].clusters, fix);
      }
    }
  }

  lemma {:induction false} FullScan(v: Volume, cpg: nat, l: ExtentList, n: nat, i: nat)
    requires FillsAt(v, cpg, l, n) && i <= n
    ensures ScanRecs(v, cpg, l.recs, Limit(l), i, Sum(l.recs[..i]), None) == Stop(n, cpg, None)
    decreases n - i
  {
    if i < n {
      SumStep(l.recs, i);
      SumGrows(l.recs, i + 1, n);
      FullScan(v, cpg, l, n, i + 1);
    }
  }

  /** The clusters of the first `i` records without record `p`. */
  function Others(recs: seq<Rec>, p: nat, i: nat): nat
    requires i <= |recs|
  {
    if i == 0 then 0 else Others(recs, p, i - 1) + if i - 1 == p then 0 else recs[i-1].clusters
  }

  lemma {:induction false} OthersSum(recs: seq<Rec>, p: nat, i: nat)
    requires i <= |recs| && p < |recs|
    ensures Sum(recs[..i]) == Others(recs, p, i) + if p < i then recs[p].clusters else 0
  {
    if i > 0 {
      OthersSum(recs, p, i - 1);
      SumStep(recs, i - 1);
    }
  }

  lemma {:induction false} OthersGrow(recs: seq<Rec>, p: nat, i: nat, n: nat)
    requires i <= n <= |recs|
    ensures Others(recs, p, i) <= Others(recs, p, n)
  {
    if i < n {
      OthersGrow(recs, p, i, n - 1);
    }
  }

  lemma {:induction false} LongScan(v: Volume, cpg: nat, l: ExtentList, n: nat, p: nat, i: nat)
    requires GoodTo(v, l, n) && EndsAt(l, n) && p < n && l.recs[p].clusters > cpg && i <= n
    requires Others(l.recs, p, n) < cpg
    ensures ScanRecs(v, cpg, l.recs, Limit(l), i, Others(l.recs, p, i), LongBefore(p, i))
         == Stop(n, Others(l.recs, p, n), Some(p))
    decreases n - i
  {
    if i < n {
      OthersGrow(l.recs, p, i + 1, n);
      LongStep(v, cpg, l.recs, Limit(l), p, i);
      LongScan(v, cpg, l, n, p, i + 1);
    }
  }

  /** The long record, once the walk is past it. */
  function LongBefore(p: nat, i: nat): Option<nat> { if p < i then Some(p) else None }

  lemma LongStep(v: Volume, cpg: nat, recs: seq<Rec>, limit: nat, p: nat, i: nat)
    requires i < limit <= |recs| && !EndMark(recs[i]) && RecInRange(v, recs[i])
    requires p < |recs| && recs[p].clusters > cpg && Others(recs, p, i + 1) < cpg
    ensures ScanRecs(v, cpg, recs, limit, i, Others(recs, p, i), LongBefore(p, i))
         == ScanRecs(v, cpg, recs, limit, i + 1, Others(recs, p, i + 1), LongBefore(p, i + 1))
  {
  }

  /** The range test looks at both ends; so every block of a record that passes lies in the volume. */
  lemma InRangeMeans(v: Volume, r: Rec)
    requires v.blocksPerCluster > 0 && r.clusters > 0
    ensures RecInRange(v, r) <==>
            forall b: nat | r.blkno <= b < r.blkno + r.clusters * v.blocksPerCluster :: InVolume(v, b)
  {
    Product(1, r.clusters, v.blocksPerCluster);
    var last: nat := r.blkno + r.clusters * v.blocksPerCluster - 1;
    if forall b: nat | r.blkno <= b < r.blkno + r.clusters * v.blocksPerCluster :: InVolume(v, b) {
      assert InVolume(v, r.blkno) && InVolume(v, last);
    }
  }

  predicate InVolume(v: Volume, b: nat) { 2 <= b <= v.blocks }

  /** The verdict is unique. */
  lemma OneDecision(v: Volume, cpg: nat, l: ExtentList, r: Option<ExtentList>, r': Option<ExtentList>)
    requires Decided(v, cpg, l, r) && Decided(v, cpg, l, r')
    ensures r == r'
  {
  }
}
