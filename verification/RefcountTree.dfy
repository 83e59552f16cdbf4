/**
 Reconciling one refcount tree with the files that share it (fsck.ocfs2/refcount.c).  A sweep over
 the files' extents cuts physical space into segments of constant reference count; each segment is
 compared with the record list, which is edited until it agrees.
 */
module RefcountTree {
  import opened RefcountRecords
  import opened RefcountClear
  import opened Common

  datatype Extent = Extent(vcpos: nat, clusters: nat, pcpos: nat) {
    function End(): nat { pcpos + clusters }
    predicate Covers(c: nat) { pcpos <= c < pcpos + clusters }
  }

  /** The refcounted extents of one file, in the order of its search tree: by physical position. */
  type FileExtents = seq<Extent>

  ghost predicate ValidFile(f: FileExtents) {
    && (forall i | 0 <= i < |f| :: 0 < f[i].clusters < UINT32_RANGE && f[i].End() < UINT64_RANGE)
    && (forall i, j {:trigger Precedes(f[i], f[j])} | 0 <= i < j < |f| :: Precedes(f[i], f[j]))
  }

  ghost predicate Precedes(a: Extent, b: Extent) { a.End() <= b.pcpos }

  ghost predicate ValidFiles(files: seq<FileExtents>) {
    forall k | 0 <= k < |files| :: ValidFile(files[k])
  }

  ghost predicate Holds(f: FileExtents, c: nat) {
    exists i | 0 <= i < |f| :: f[i].Covers(c)
  }

  /** How many files hold cluster `c`: the reference count it ought to have. */
  ghost function HoldCount(files: seq<FileExtents>, c: nat): nat {
    if |files| == 0 then 0
    else HoldCount(files[..|files|-1], c) + (if Holds(files[|files|-1], c) then 1 else 0)
  }

  ghost function FileClusters(f: FileExtents): nat {
    if f == [] then 0 else f[0].clusters + FileClusters(f[1..])
  }

  ghost function TotalClusters(files: seq<FileExtents>): nat {
    if |files| == 0 then 0
    else TotalClusters(files[..|files|-1]) + FileClusters(files[|files|-1])
  }

  // ---- one segment of the sweep -------------------------------------------------------------

  /** The file's first extent spans the segment, or starts after it. */
  ghost predicate Aligned(f: FileExtents, cpos: nat, clusters: nat) {
    || f == []
    || (f[0].pcpos == cpos && clusters <= f[0].clusters)
    || cpos + clusters <= f[0].pcpos
  }

  /** How many files start with an extent at `cpos`. */
  ghost function StartCount(files: seq<FileExtents>, cpos: nat): nat {
    if |files| == 0 then 0
    else
      var f := files[|files|-1];
      StartCount(files[..|files|-1], cpos) + (if f != [] && f[0].pcpos == cpos then 1 else 0)
  }

  lemma {:induction false} StartCountBelow(files: seq<FileExtents>, cpos: nat)
    requires forall k | 0 <= k < |files| :: files[k] != [] ==> cpos < files[k][0].pcpos
    ensures StartCount(files, cpos) == 0
  {
    if |files| > 0 {
      StartCountBelow(files[..|files|-1], cpos);
    }
  }

  lemma FirstIsLowest(f: FileExtents)
    requires ValidFile(f) && f != []
    ensures forall i | 0 < i < |f| :: f[0].End() <= f[i].pcpos
  {
    assert forall i | 0 < i < |f| :: Precedes(f[0], f[i]);
  }

  lemma AlignedHolds(f: FileExtents, cpos: nat, clusters: nat, c: nat)
    requires ValidFile(f) && Aligned(f, cpos, clusters) && cpos <= c < cpos + clusters
    ensures Holds(f, c) <==> f != [] && f[0].pcpos == cpos
  {
    if f != [] {
      FirstIsLowest(f);
    }
    if f != [] && f[0].pcpos == cpos {
      assert f[0].Covers(c);
    }
  }

  lemma {:induction false} StartCountIsHoldCount(files: seq<FileExtents>, cpos: nat, clusters: nat, c: nat)
    requires ValidFiles(files) && cpos <= c < cpos + clusters
    requires forall k | 0 <= k < |files| :: Aligned(files[k], cpos, clusters)
    ensures HoldCount(files, c) == StartCount(files, cpos)
  {
    if |files| > 0 {
      StartCountIsHoldCount(files[..|files|-1], cpos, clusters, c);
      AlignedHolds(files[|files|-1], cpos, clusters, c);
    }
  }

  lemma {:induction false} NotHeld(files: seq<FileExtents>, c: nat)
    requires forall k | 0 <= k < |files| :: !Holds(files[k], c)
    ensures HoldCount(files, c) == 0
  {
    if |files| > 0 {
      NotHeld(files[..|files|-1], c);
    }
  }

  /** An extent of the file starts or ends at `x`. */
  ghost predicate EdgeOf(f: FileExtents, x: nat) {
    exists i | 0 <= i < |f| :: f[i].pcpos == x || f[i].End() == x
  }

  ghost predicate Edge(files: seq<FileExtents>, x: nat) {
    exists k | 0 <= k < |files| :: EdgeOf(files[k], x)
  }

  /** `[cpos, cpos + clusters)` is the lowest held segment, up to the next place where an extent starts or ends. */
  ghost predicate NextSegment(files: seq<FileExtents>, cpos: nat, clusters: nat, refcount: nat) {
    && clusters > 0 && refcount > 0 && Edge(files, cpos + clusters)
    && (forall k | 0 <= k < |files| :: Aligned(files[k], cpos, clusters))
    && (forall k | 0 <= k < |files| && files[k] != [] :: cpos <= files[k][0].pcpos)
    && (exists k | 0 <= k < |files| :: files[k] != [] && files[k][0].pcpos == cpos)
    && (forall c: nat :: CountBelow(files, cpos, clusters, refcount, c))
  }

  /** Nothing is held below `cpos`, and the segment is held by `refcount` files throughout. */
  ghost predicate CountBelow(files: seq<FileExtents>, cpos: nat, clusters: nat, refcount: nat, c: nat) {
    c < cpos + clusters ==> HoldCount(files, c) == if c < cpos then 0 else refcount
  }

  ghost predicate FitsSegment(f: FileExtents, cpos: nat, clusters: nat) {
    Aligned(f, cpos, clusters) && (f != [] ==> cpos <= f[0].pcpos)
  }

  /** The first extent of the file starts at `x`, or ends there. */
  ghost predicate FirstEdge(f: FileExtents, x: nat) { f != [] && (f[0].pcpos == x || f[0].End() == x) }

  lemma NextSegmentFound(files: seq<FileExtents>, cpos: nat, clusters: nat, refcount: nat, at: nat, to: nat)
    requires ValidFiles(files) && clusters > 0 && refcount == StartCount(files, cpos) > 0
    requires to < |files| && FirstEdge(files[to], cpos + clusters)
    requires forall k | 0 <= k < |files| :: FitsSegment(files[k], cpos, clusters)
    requires at < |files| && files[at] != [] && files[at][0].pcpos == cpos
    ensures NextSegment(files, cpos, clusters, refcount)
  {
    assert EdgeOf(files[to], cpos + clusters);
    forall k | 0 <= k < |files|
      ensures Aligned(files[k], cpos, clusters) && (files[k] != [] ==> cpos <= files[k][0].pcpos)
    {
      assert FitsSegment(files[k], cpos, clusters);
    }
    forall c: nat
      ensures CountBelow(files, cpos, clusters, refcount, c)
    {
      if cpos <= c < cpos + clusters {
        StartCountIsHoldCount(files, cpos, clusters, c);
      } else if c < cpos {
        forall k | 0 <= k < |files|
          ensures !Holds(files[k], c)
        {
          if files[k] != [] {
            FirstIsLowest(files[k]);
          }
        }
        NotHeld(files, c);
      }
    }
  }

  /**
   The lowest segment: from the first held cluster to the next place where an extent starts or ends.
   Every cluster of it has the same reference count, and nothing below it is held by any file.
   */
  method GetRefcountedExtent(files: seq<FileExtents>)
    returns (found: bool, cpos: nat, clusters: nat, refcount: nat)
    requires ValidFiles(files)
    ensures found ==> NextSegment(files, cpos, clusters, refcount) && clusters < UINT32_RANGE && refcount <= |files|
    ensures !found ==> forall k | 0 <= k < |files| :: files[k] == []
  {
    cpos, clusters, refcount, found := UINT64_RANGE - 1, 0, 0, false;
    ghost var at: nat, to: nat := 0, 0;
    for k := 0 to |files|
      invariant !found ==> cpos == UINT64_RANGE - 1 && refcount == 0 && forall j | 0 <= j < k :: files[j] == []
      invariant refcount == StartCount(files[..k], cpos) && refcount <= k
      invariant found ==>
                  && 0 < clusters < UINT32_RANGE && 0 < refcount
                  && at < k && files[at] != [] && files[at][0].pcpos == cpos
                  && to < k && FirstEdge(files[to], cpos + clusters)
      invariant forall j | 0 <= j < k :: FitsSegment(files[j], cpos, clusters)
    {
      assert files[..k+1][..k] == files[..k];
      assert ValidFile(files[k]);
      if files[k] == [] {
        continue;
      }
      found := true;
      var extent := files[k][0];
      if extent.pcpos < cpos {
        StartCountBelow(files[..k], extent.pcpos);
        to := if cpos - extent.pcpos < extent.clusters then at else k;
        clusters := if cpos - extent.pcpos < extent.clusters then cpos - extent.pcpos else extent.clusters;
        cpos := extent.pcpos;
        refcount := 1;
        at := k;
      } else if extent.pcpos == cpos {
        to := if clusters < extent.clusters then to else k;
        clusters := if clusters < extent.clusters then clusters else extent.clusters;
        refcount := refcount + 1;
      } else if extent.pcpos < cpos + clusters {
        to := k;
        clusters := extent.pcpos - cpos;
      }
    }
    assert files[..|files|] == files;
    if found {
      NextSegmentFound(files, cpos, clusters, refcount, at, to);
    }
  }

  /** What remains of a file once everything below `end` is removed from its first extent. */
  ghost function TrimFirst(f: FileExtents, cpos: nat, clusters: nat): (r: FileExtents)
    requires Aligned(f, cpos, clusters)
  {
    var end := cpos + clusters;
    if f == [] || end <= f[0].pcpos then f
    else if end == f[0].End() then f[1..]
    else [f[0].(clusters := f[0].End() - end, pcpos := end)] + f[1..]
  }

  lemma TrimFirstHolds(f: FileExtents, cpos: nat, clusters: nat, c: nat)
    requires ValidFile(f) && Aligned(f, cpos, clusters) && clusters > 0
    requires f != [] ==> cpos <= f[0].pcpos
    ensures Holds(TrimFirst(f, cpos, clusters), c) <==> Holds(f, c) && cpos + clusters <= c
  {
    var end, g := cpos + clusters, TrimFirst(f, cpos, clusters);
    if f != [] {
      FirstIsLowest(f);
    }
    if f == [] || end <= f[0].pcpos {
    } else {
      var shift := if end == f[0].End() then 1 else 0;
      if Holds(f, c) && end <= c {
        var i :| 0 <= i < |f| && f[i].Covers(c);
        assert g[i - shift].Covers(c);
      }
      if Holds(g, c) {
        var i :| 0 <= i < |g| && g[i].Covers(c);
        assert f[i + shift].Covers(c);
      }
    }
  }

  /** Trimming keeps the edges behind the segment; what is new is at most the end of the segment. */
  lemma TrimFirstEdges(f: FileExtents, cpos: nat, clusters: nat, x: nat)
    requires ValidFile(f) && Aligned(f, cpos, clusters) && clusters > 0
    requires f != [] ==> cpos <= f[0].pcpos
    ensures EdgeOf(TrimFirst(f, cpos, clusters), x) ==> EdgeOf(f, x) || x == cpos + clusters
    ensures x > cpos + clusters && EdgeOf(f, x) ==> EdgeOf(TrimFirst(f, cpos, clusters), x)
  {
    var end, g := cpos + clusters, TrimFirst(f, cpos, clusters);
    if !(f == [] || end <= f[0].pcpos) {
      var shift := |f| - |g|;
      if EdgeOf(g, x) {
        var i :| 0 <= i < |g| && (g[i].pcpos == x || g[i].End() == x);
        assert x != end ==> f[i + shift].pcpos == x || f[i + shift].End() == x;
      }
      if x > end && EdgeOf(f, x) {
        var i :| 0 <= i < |f| && (f[i].pcpos == x || f[i].End() == x);
        assert g[i - shift].pcpos == x || g[i - shift].End() == x;
      }
    }
  }

  /** No extent starts or ends strictly inside the segment. */
  lemma NoEdgeInside(f: FileExtents, cpos: nat, clusters: nat, x: nat)
    requires ValidFile(f) && Aligned(f, cpos, clusters) && (f != [] ==> cpos <= f[0].pcpos)
    requires cpos < x < cpos + clusters
    ensures !EdgeOf(f, x)
  {
    if f != [] {
      FirstIsLowest(f);
    }
  }

  lemma TrimFirstShrinks(f: FileExtents, cpos: nat, clusters: nat)
    requires ValidFile(f) && Aligned(f, cpos, clusters) && clusters > 0
    requires f != [] ==> cpos <= f[0].pcpos
    ensures ValidFile(TrimFirst(f, cpos, clusters))
    ensures FileClusters(TrimFirst(f, cpos, clusters)) <= FileClusters(f)
    ensures f != [] && f[0].pcpos == cpos ==>
              FileClusters(TrimFirst(f, cpos, clusters)) < FileClusters(f)
  {
    var g := TrimFirst(f, cpos, clusters);
    if f != [] && f[0].pcpos == cpos {
      FirstIsLowest(f);
      var shift := |f| - |g|;
      forall i, j | 0 <= i < j < |g|
        ensures Precedes(g[i], g[j])
      {
        assert Precedes(f[i + shift], f[j + shift]);
      }
      assert shift == 0 ==> g[1..] == f[1..];
    }
  }

  ghost predicate FileTrimmed(f: FileExtents, g: FileExtents, cpos: nat, clusters: nat) {
    Aligned(f, cpos, clusters) && (f != [] ==> cpos <= f[0].pcpos) && g == TrimFirst(f, cpos, clusters)
  }

  ghost predicate FilesTrimmed(files: seq<FileExtents>, files': seq<FileExtents>, cpos: nat, clusters: nat) {
    |files'| == |files| && forall k | 0 <= k < |files| :: FileTrimmed(files[k], files'[k], cpos, clusters)
  }

  /** `files'` is what is left of `files` from `end` on. */
  ghost predicate Trimmed(files: seq<FileExtents>, files': seq<FileExtents>, end: nat) {
    forall c: nat :: TrimmedAt(files, files', end, c)
  }

  ghost predicate TrimmedAt(files: seq<FileExtents>, files': seq<FileExtents>, end: nat, c: nat) {
    HoldCount(files', c) == if end <= c then HoldCount(files, c) else 0
  }

  lemma {:induction false} TrimHolds(files: seq<FileExtents>, files': seq<FileExtents>, cpos: nat, clusters: nat,
                                     c: nat)
    requires ValidFiles(files) && clusters > 0 && FilesTrimmed(files, files', cpos, clusters)
    ensures TrimmedAt(files, files', cpos + clusters, c)
  {
    if |files| > 0 {
      var n := |files| - 1;
      TrimHolds(files[..n], files'[..n], cpos, clusters, c);
      assert ValidFile(files[n]) && FileTrimmed(files[n], files'[n], cpos, clusters);
      TrimFirstHolds(files[n], cpos, clusters, c);
    }
  }

  lemma {:induction false} TrimShrinks(files: seq<FileExtents>, files': seq<FileExtents>, cpos: nat, clusters: nat,
                                       at: nat)
    requires ValidFiles(files) && clusters > 0 && FilesTrimmed(files, files', cpos, clusters)
    ensures TotalClusters(files') <= TotalClusters(files)
    ensures at < |files| && files[at] != [] && files[at][0].pcpos == cpos ==>
              TotalClusters(files') < TotalClusters(files)
  {
    if |files| > 0 {
      var n := |files| - 1;
      TrimShrinks(files[..n], files'[..n], cpos, clusters, at);
      assert ValidFile(files[n]) && FileTrimmed(files[n], files'[n], cpos, clusters);
      TrimFirstShrinks(files[n], cpos, clusters);
    }
  }

  lemma TrimValid(files: seq<FileExtents>, files': seq<FileExtents>, cpos: nat, clusters: nat)
    requires ValidFiles(files) && clusters > 0 && FilesTrimmed(files, files', cpos, clusters)
    ensures ValidFiles(files')
  {
    forall k | 0 <= k < |files|
      ensures ValidFile(files'[k])
    {
      assert FileTrimmed(files[k], files'[k], cpos, clusters);
      TrimFirstShrinks(files[k], cpos, clusters);
    }
  }

  lemma TrimHoldsAll(files: seq<FileExtents>, files': seq<FileExtents>, cpos: nat, clusters: nat)
    requires ValidFiles(files) && clusters > 0 && FilesTrimmed(files, files', cpos, clusters)
    ensures Trimmed(files, files', cpos + clusters)
  {
    var end := cpos + clusters;
    forall c: nat
      ensures TrimmedAt(files, files', end, c)
    {
      TrimHolds(files, files', cpos, clusters, c);
    }
  }

  lemma TrimMeaning(files: seq<FileExtents>, files': seq<FileExtents>, cpos: nat, clusters: nat, refcount: nat)
    requires ValidFiles(files) && NextSegment(files, cpos, clusters, refcount)
    requires FilesTrimmed(files, files', cpos, clusters)
    ensures ValidFiles(files') && Trimmed(files, files', cpos + clusters)
    ensures TotalClusters(files') < TotalClusters(files)
  {
    TrimValid(files, files', cpos, clusters);
    TrimHoldsAll(files, files', cpos, clusters);
    var at :| 0 <= at < |files| && files[at] != [] && files[at][0].pcpos == cpos;
    TrimShrinks(files, files', cpos, clusters, at);
  }

  // ---- the state that outlives one tree -----------------------------------------------------

  /** Clusters seen in use, and those seen in use more than once. */
  class ClusterMarks {
    var inUse: set<nat>
    var duplicates: set<nat>

    constructor ()
      ensures inUse == {} && duplicates == {}
    {
      inUse, duplicates := {}, {};
    }

    /** Marks `num` clusters; one that was marked before becomes a duplicate. */
    method MarkClusters(cluster: nat, num: nat)
      modifies this
      ensures inUse == old(inUse) + Span(cluster, num)
      ensures duplicates == old(duplicates) + old(inUse) * Span(cluster, num)
    {
      for i := 0 to num
        invariant inUse == old(inUse) + Span(cluster, i)
        invariant duplicates == old(duplicates) + old(inUse) * Span(cluster, i)
      {
        assert Span(cluster, i + 1) == Span(cluster, i) + {cluster + i};
        if cluster + i in inUse {
          duplicates := duplicates + {cluster + i};
        }
        inUse := inUse + {cluster + i};
      }
    }

    /** The first duplicate in the range, or its end. */
    method FindDuplicate(start: nat, len: nat) returns (p: nat)
      ensures start <= p <= start + len && (p < start + len ==> p in duplicates)
      ensures forall c: nat | start <= c < p :: c !in duplicates
    {
      p := start;
      while p < start + len && p !in duplicates
        invariant start <= p <= start + len
        invariant forall c: nat | start <= c < p :: c !in duplicates
      {
        p := p + 1;
      }
    }
  }

  ghost function Span(start: nat, len: nat): (s: set<nat>)
    ensures forall c: nat :: c in s <==> start <= c < start + len
  {
    if len == 0 then {} else Span(start, len - 1) + {start + len - 1}
  }

  // ---- what the repaired tree must say ------------------------------------------------------

  /** Files hold clusters of the volume, which has a 32-bit number of them. */
  ghost predicate HeldLow(files: seq<FileExtents>) { forall c: nat | Held(files, c) :: c + 1 < UINT32_RANGE }

  ghost predicate Held(files: seq<FileExtents>, c: nat) { HoldCount(files, c) > 0 }

  /** Held by the sharing files and by nobody else. */
  ghost predicate Live(files: seq<FileExtents>, dup: set<nat>, c: nat) {
    Held(files, c) && c !in dup
  }

  datatype Segment = Segment(cpos: nat, clusters: nat, refcount: nat) {
    function End(): nat { cpos + clusters }
    predicate Covers(c: nat) { cpos <= c < cpos + clusters }
  }

  ghost predicate NoEdgeIn(files: seq<FileExtents>, lo: nat, hi: nat, x: nat) { lo < x < hi ==> !Edge(files, x) }

  /** The segment goes from one place where an extent starts or ends to the next. */
  ghost predicate CutAtEdges(files: seq<FileExtents>, lo: nat, hi: nat) {
    Edge(files, lo) && Edge(files, hi) && forall x: nat :: NoEdgeIn(files, lo, hi, x)
  }

  ghost predicate HeldBy(files: seq<FileExtents>, seg: Segment, c: nat) {
    seg.Covers(c) ==> HoldCount(files, c) == seg.refcount > 0
  }

  /** A nonempty segment of one reference count. */
  ghost predicate IsSegment(files: seq<FileExtents>, seg: Segment, end: nat) {
    && seg.clusters > 0 && seg.End() <= end && CutAtEdges(files, seg.cpos, seg.End())
    && forall c: nat :: HeldBy(files, seg, c)
  }

  ghost predicate InSegments(segs: seq<Segment>, c: nat) { exists i | 0 <= i < |segs| :: segs[i].Covers(c) }

  /**
   Ascending segments that make up all held clusters below `end`; they are cut exactly where extents start or
   end.
   */
  ghost predicate SweptTo(segs: seq<Segment>, files: seq<FileExtents>, end: nat) {
    && (forall i | 0 <= i < |segs| :: IsSegment(files, segs[i], end))
    && (forall i, j | 0 <= i < j < |segs| :: segs[i].End() <= segs[j].cpos)
    && (forall c: nat | c < end && Held(files, c) :: InSegments(segs, c))
  }

  // ---- raising counts -----------------------------------------------------------------------

  lemma ApartSame(rs: seq<Rec>, rs': seq<Rec>, lo: nat, hi: nat)
    requires SameZeros(rs, rs')
    ensures ZerosApart(rs, lo, hi) <==> ZerosApart(rs', lo, hi)
  {
  }

  lemma ApartPart(rs: seq<Rec>, lo: nat, lo': nat, hi': nat, hi: nat)
    requires lo <= lo' && hi' <= hi && ZerosApart(rs, lo, hi)
    ensures ZerosApart(rs, lo', hi')
  {
  }

  /** In a stretch without records that count nothing, an answer that counts nothing is made up. */
  lemma AnswerApart(rs: seq<Rec>, lo: nat, len: nat, rec: Rec, index: nat, n: nat)
    requires rec.refcount == 0 && (Real(rs, lo, rec, index) || Faked(rs, lo, len, rec, index))
    requires n > 0 && ZerosApart(rs, lo, lo + n)
    ensures Faked(rs, lo, len, rec, index)
  {
    assert Real(rs, lo, rec, index) ==> rec in rs && !Apart(rec, lo, lo + n);
  }

  /** The counts in the range have grown by `value`. */
  ghost predicate Raised(rs: seq<Rec>, rs': seq<Rec>, lo: nat, hi: nat, value: int) {
    && Stored(rs') && SameZeros(rs, rs')
    && forall c: nat :: CountAt(rs', c) == CountAt(rs, c) + (if lo <= c < hi then value else 0)
  }

  lemma RaisedThen(a: seq<Rec>, b: seq<Rec>, d: seq<Rec>, lo: nat, mid: nat, hi: nat, value: int)
    requires Raised(a, b, lo, mid, value) && Raised(b, d, mid, hi, value) && lo <= mid <= hi
    ensures Raised(a, d, lo, hi, value)
  {
  }

  /** The range is raised up to `cpos`, unless a record that counts nothing has come in the way. */
  ghost predicate Raising(was: seq<Rec>, rs: seq<Rec>, start: nat, cpos: nat, len: nat, end: nat, value: int) {
    && SameZeros(was, rs) && len < UINT32_RANGE
    && (if ZerosApart(was, start, end) then start <= cpos && cpos + len == end && Raised(was, rs, start, cpos, value)
        else value > 0)
  }

  lemma RaisingStarts(rs: seq<Rec>, start: nat, len: nat, end: nat, value: int)
    requires Stored(rs) && start + len == end < UINT32_RANGE
    requires forall c: nat | start <= c < end :: CountAt(rs, c) + value > 0
    ensures Raising(rs, rs, start, start, len, end, value)
  {
    if !ZerosApart(rs, start, end) {
      var _ := NotApart(rs, start, end);
    }
  }

  lemma RaisingGoesOn(was: seq<Rec>, rs: seq<Rec>, start: nat, cpos: nat, len: nat, end: nat, value: int)
    requires len > 0 && Raising(was, rs, start, cpos, len, end, value) && Stored(was) && end < UINT32_RANGE
    requires forall c: nat | start <= c < end :: CountAt(was, c) + value > 0
    ensures value > 0 || (WellFormed(rs) && CountAt(rs, cpos) + value > 0)
    ensures ZerosApart(was, start, end) ==> Stored(rs) && ZerosApart(rs, cpos, cpos + len) && cpos + len < UINT32_RANGE
    ensures forall r | r in rs && r.refcount == 0 && r.Covers(cpos) :: cpos + 1 < UINT32_RANGE
  {
    if ZerosApart(was, start, end) {
      ApartPart(was, start, cpos, end, end);
      ApartSame(was, rs, cpos, end);
    }
    forall r | r in rs && r.refcount == 0 && r.Covers(cpos)
      ensures cpos + 1 < UINT32_RANGE
    {
      assert r in was;
    }
  }

  lemma RaisingStep(was: seq<Rec>, rs: seq<Rec>, rs': seq<Rec>, start: nat, cpos: nat, len: nat, n: nat, end: nat,
                    value: int)
    requires Raising(was, rs, start, cpos, len, end, value) && SameZeros(rs, rs')
    requires ZerosApart(was, start, end) ==> n <= len && Raised(rs, rs', cpos, cpos + n, value)
    ensures Raising(was, rs', start, cpos + n, (len - n) % UINT32_RANGE, end, value)
    ensures 0 < n <= len ==> (len - n) % UINT32_RANGE < len
  {
    if ZerosApart(was, start, end) {
      RaisedThen(was, rs, rs', start, cpos, cpos + n, value);
    }
  }

  lemma ChangeRaises(rs: seq<Rec>, rec: Rec, index: nat, value: int)
    requires Stored(rs) && index < |rs| && rs[index] == rec && rec.refcount != 0 && rec.refcount + value >= 0
    ensures Raised(rs, ChangeRec(rs, index, value), rec.cpos, rec.End(), value)
  {
    ChangeRecMeaning(rs, index, value);
  }

  lemma InsertRaises(rs: seq<Rec>, rec: Rec, index: nat, value: nat)
    requires Stored(rs) && index <= |rs| && value > 0 && rec.End() < UINT32_RANGE
    requires (index > 0 ==> rs[index-1].End() <= rec.cpos) && (index < |rs| ==> rec.End() <= rs[index].cpos)
    ensures Raised(rs, InsertRec(rs, rec.(refcount := value), index), rec.cpos, rec.End(), value)
  {
    InsertRecMeaning(rs, rec.(refcount := value), index);
  }

  lemma SplitRaises(rs: seq<Rec>, rec: Rec, index: nat, split: Rec, value: int)
    requires Stored(rs) && index < |rs| && rs[index] == rec && rec.refcount != 0
    requires rec.cpos <= split.cpos && split.End() <= rec.End() && split.refcount == rec.refcount + value
    ensures Raised(rs, SplitRec(rs, split, index), split.cpos, split.End(), value)
  {
    SplitRecMeaning(rs, split, index);
    forall c: nat | split.Covers(c)
      ensures CountAt(rs, c) == rec.refcount
    {
      CountAtCovered(rs, index, c);
    }
  }

  /** Raising a count of zero: a record that counts nothing is found somewhere in the range. */
  lemma NotApart(rs: seq<Rec>, lo: nat, hi: nat) returns (c: nat)
    requires WellFormed(rs) && !ZerosApart(rs, lo, hi)
    ensures lo <= c < hi && CountAt(rs, c) == 0
    ensures exists r :: r in rs && r.refcount == 0 && r.Covers(c)
  {
    var r :| r in rs && r.refcount == 0 && !Apart(r, lo, hi);
    c := if r.cpos < lo then lo else r.cpos;
    var i :| 0 <= i < |rs| && rs[i] == r;
    CountAtCovered(rs, i, c);
  }

  /** A range with such a record does not come out raised and in order. */
  lemma RaisedOnlyApart(rs: seq<Rec>, rs': seq<Rec>, lo: nat, hi: nat)
    requires WellFormed(rs) && WellFormed(rs') && SameZeros(rs, rs')
    requires forall c: nat | lo <= c < hi :: CountAt(rs', c) > 0
    ensures ZerosApart(rs, lo, hi)
  {
    if !ZerosApart(rs, lo, hi) {
      var c := NotApart(rs, lo, hi);
      var r :| r in rs && r.refcount == 0 && r.Covers(c);
      var i :| 0 <= i < |rs'| && rs'[i] == r;
      CountAtCovered(rs', i, c);
    }
  }

  // ---- clearing counts ----------------------------------------------------------------------

  /** The 32-bit length that is left reaches the end, or has wrapped and reaches behind all records. */
  ghost predicate Punching(p: nat, n: nat, end: nat) {
    (p <= end && p + n == end) || (p > end && p + n >= UINT32_RANGE)
  }

  lemma PunchOverZero(rs: seq<Rec>, p: nat, n: nat, rec: Rec, index: nat, end: nat)
    requires Stored(rs) && 0 < n < UINT32_RANGE && Punching(p, n, end) && rec.refcount == 0
    requires Real(rs, p, rec, index) || Faked(rs, p, n, rec, index)
    requires forall c: nat | p <= c < rec.End() :: CountAt(rs, c) == 0
    ensures Punching(p + rec.clusters, (n - rec.clusters) % UINT32_RANGE, end)
    ensures SameFinal(rs, p, rs, p + rec.clusters, end)
  {
    assert Real(rs, p, rec, index) ==> rec in rs;
    if Real(rs, p, rec, index) && rec.cpos < p {
      Jump(rs, rec, p, end);
    } else {
      AnswerCutsNothing(rs, p, n, rec, index, p);
      AnswerCutsNothing(rs, p, n, rec, index, rec.End());
      assert p < end < rec.End() ==> Inside(rec, end);
      Advance(rs, rs, p, rec.End(), end);
    }
  }

  lemma LastPunch(rs: seq<Rec>, p: nat, n: nat, rec: Rec, index: nat)
    requires Stored(rs) && p + 1 >= UINT32_RANGE && (Real(rs, p, rec, index) || Faked(rs, p, n, rec, index))
    ensures rec.refcount == 0 && rec.clusters == n
  {
    forall k | 0 <= k < |rs|
      ensures rs[k].End() <= p
    {
      assert rs[k] in rs;
    }
  }

  const STEP: nat := 0xFFFF_FFFF

  /** Positions that are reached from one in `(end, STEP]` by steps of the greatest 32-bit length. */
  ghost predicate GridAt(cpos: nat, end: nat, j: nat) { end < cpos - j * 0xFFFF_FFFF <= 0xFFFF_FFFF }

  ghost predicate OnGrid(cpos: nat, end: nat) { exists j: nat :: GridAt(cpos, end, j) }

  /** The 64-bit length that is left reaches the end, or has wrapped. */
  ghost predicate Removing(rs: seq<Rec>, cpos: nat, range: nat, end: nat) {
    && end < UINT32_RANGE && Low(rs) && (cpos <= STEP ==> Landing(rs, cpos, end) <= STEP)
    && ((cpos <= end && cpos + range == end) || (cpos > end && cpos + range == UINT64_RANGE + end && OnGrid(cpos, end)))
  }

  /** A wrapped length runs out before positions wrap as well and come back to the records. */
  lemma GridEnds(cpos: nat, range: nat, end: nat)
    requires cpos + range == UINT64_RANGE + end && OnGrid(cpos, end) && range > STEP
    ensures cpos + STEP < UINT64_RANGE && OnGrid(cpos + STEP, end)
  {
    var j: nat :| GridAt(cpos, end, j);
    assert j <= 0xFFFF_FFFF;
    assert GridAt(cpos + STEP, end, j + 1);
  }

  ghost function Effort(cpos: nat, range: nat, end: nat): nat {
    if range == 0 then 0 else if cpos > end then range else range + 2 * UINT64_RANGE
  }

  lemma LowGrid(cpos: nat, end: nat)
    requires end < cpos <= STEP
    ensures OnGrid(cpos, end)
  {
    assert GridAt(cpos, end, 0);
  }

  /** The next state after an answer that counts nothing. */
  ghost predicate Removed(rs: seq<Rec>, cpos: nat, range: nat, rs': seq<Rec>, cpos': nat, range': nat, end: nat) {
    && Removing(rs', cpos', range', end) && SameFinal(rs, cpos, rs', cpos', end)
    && Effort(cpos', range', end) < Effort(cpos, range, end)
  }

  lemma Mod64(x: int)
    requires x + UINT64_RANGE >= 0 && x < UINT64_RANGE
    ensures x % UINT64_RANGE == if x < 0 then x + UINT64_RANGE else x
  {
  }

  lemma RemoveOverRecord(rs: seq<Rec>, cpos: nat, range: nat, len: nat, rec: Rec, index: nat, end: nat)
    requires Stored(rs) && range > 0 && Removing(rs, cpos, range, end) && len == Min(range, STEP)
    requires rec.refcount == 0 && Real(rs, cpos, rec, index)
    requires forall c: nat | cpos <= c < rec.End() :: CountAt(rs, c) == 0
    ensures Removed(rs, cpos, range,
                    rs, (cpos + rec.clusters) % UINT64_RANGE, (range - rec.clusters) % UINT64_RANGE, end)
  {
    assert rec in rs;
    var p := cpos + rec.clusters;
    OverRecord(rs, cpos, len, rec, index, end);
    Mod64(p);
    Mod64(range - rec.clusters);
    if p > end {
      LowGrid(p, end);
    }
  }

  /** A step over a record with a count of zero, from its start or from the middle. */
  lemma OverRecord(rs: seq<Rec>, cpos: nat, len: nat, rec: Rec, index: nat, end: nat)
    requires Stored(rs) && rec.refcount == 0 && Real(rs, cpos, rec, index)
    requires cpos != end && Landing(rs, cpos, end) <= STEP
    requires forall c: nat | cpos <= c < rec.End() :: CountAt(rs, c) == 0
    ensures var p := cpos + rec.clusters;
            SameFinal(rs, cpos, rs, p, end) && Landing(rs, p, end) <= STEP && p <= STEP
  {
    assert rec in rs;
    var p := cpos + rec.clusters;
    if rec.cpos < cpos {
      LandingJump(rs, rec, cpos, end);
      LandingAbove(rs, p, end);
      Jump(rs, rec, cpos, end);
    } else {
      AnswerCutsNothing(rs, cpos, len, rec, index, cpos);
      AnswerCutsNothing(rs, cpos, len, rec, index, p);
      assert cpos < end < p ==> Inside(rec, end);
      Advance(rs, rs, cpos, p, end);
    }
  }

  lemma RemoveOverGap(rs: seq<Rec>, cpos: nat, range: nat, len: nat, rec: Rec, index: nat, end: nat)
    requires Stored(rs) && range > 0 && Removing(rs, cpos, range, end) && len == Min(range, STEP)
    requires Faked(rs, cpos, len, rec, index)
    requires forall c: nat | cpos <= c < rec.End() :: CountAt(rs, c) == 0
    ensures Removed(rs, cpos, range,
                    rs, (cpos + rec.clusters) % UINT64_RANGE, (range - rec.clusters) % UINT64_RANGE, end)
  {
    Mod64(range - rec.clusters);
    if cpos > end && rec.clusters == range {
      NothingAbove(rs, cpos, end, end);
    } else {
      if cpos > end {
        GapOnGrid(rs, cpos, range, len, rec, index, end);
      }
      OverGap(rs, cpos, len, rec, index, end);
      Mod64(cpos + rec.clusters);
    }
  }

  lemma OverGap(rs: seq<Rec>, cpos: nat, len: nat, rec: Rec, index: nat, end: nat)
    requires Stored(rs) && Faked(rs, cpos, len, rec, index) && cpos != end && (cpos < end ==> cpos + len <= end)
    requires forall c: nat | cpos <= c < rec.End() :: CountAt(rs, c) == 0
    ensures SameFinal(rs, cpos, rs, rec.End(), end) && Landing(rs, rec.End(), end) == rec.End()
  {
    AnswerCutsNothing(rs, cpos, len, rec, index, cpos);
    AnswerCutsNothing(rs, cpos, len, rec, index, rec.End());
    Advance(rs, rs, cpos, rec.End(), end);
  }

  lemma GapOnGrid(rs: seq<Rec>, cpos: nat, range: nat, len: nat, rec: Rec, index: nat, end: nat)
    requires Low(rs) && Faked(rs, cpos, len, rec, index) && len == Min(range, STEP) && rec.clusters < range
    requires cpos > end && cpos + range == UINT64_RANGE + end && OnGrid(cpos, end)
    ensures OnGrid(rec.End(), end) && rec.End() < UINT64_RANGE
  {
    if rec.clusters < len {
      assert rs[index] in rs;
      LowGrid(rec.End(), end);
    } else {
      GridEnds(cpos, range, end);
    }
  }

  lemma RemovePunched(rs: seq<Rec>, rs': seq<Rec>, cpos: nat, range: nat, len: nat, rec: Rec, index: nat, end: nat)
    requires Stored(rs) && range > 0 && Removing(rs, cpos, range, end) && len == Min(range, STEP)
    requires rec.refcount != 0 && Real(rs, cpos, rec, index) && Stored(rs') && SameZeros(rs, rs')
    requires forall c: nat :: CountAt(rs', c) == if Cleared(rs, cpos, cpos + len, c) then 0 else CountAt(rs, c)
    ensures Removed(rs, cpos, range, rs', (cpos + len) % UINT64_RANGE, range - len, end)
  {
    assert rec in rs;
    var p := cpos + len;
    CutSame(rs, rs', p);
    if cpos <= end {
      assert forall c: nat :: SameFinalAt(rs, cpos, rs', end, end, c);
    } else {
      AnswerCutsNothing(rs, cpos, len, rec, index, cpos);
      assert !CutAt(rs, p);
      forall c: nat
        ensures CountAt(rs', c) == if cpos <= c < p then 0 else CountAt(rs, c)
      {
        PlainClearing(rs, cpos, p, c);
      }
      Advance(rs, rs', cpos, p, end);
      GridEnds(cpos, range, end);
    }
  }

  class Tree {
    var recs: seq<Rec>
    var files: seq<FileExtents>
    var pCend: nat
    const rfEnd: nat

    /** A tree as the check of its blocks left it: `rfEnd` is the end of its last record. */
    constructor (recs: seq<Rec>, files: seq<FileExtents>, rfEnd: nat)
      requires Stored(recs) && ValidFiles(files)
      ensures this.recs == recs && this.files == files && this.rfEnd == rfEnd && pCend == 0
    {
      this.recs, this.files, this.rfEnd, this.pCend := recs, files, rfEnd, 0;
    }

    /** Zeroes the counts from `p` to the end of the record there, or steps over what counts nothing. */
    method PunchOne(p: nat, n: nat, ghost end: nat) returns (p': nat, n': nat)
      requires Stored(recs) && 0 < n < UINT32_RANGE && Punching(p, n, end)
      modifies this`recs
      ensures p < p' && n' < UINT32_RANGE && Punching(p', n', end) && (p + 1 >= UINT32_RANGE ==> n' == 0)
      ensures SameFinal(old(recs), p, recs, p', end)
      ensures recs == old(recs) || Edited(old(recs), recs)
    {
      var rec, index := FindRec(recs, p, n);
      if p + 1 >= UINT32_RANGE {
        LastPunch(recs, p, n, rec, index);
      }
      if rec.refcount == 0 {
        PunchOverZero(recs, p, n, rec, index, end);
        n', p' := (n - rec.clusters) % UINT32_RANGE, p + rec.clusters;
        return;
      }
      var dec := if p + n < rec.End() then n else rec.End() - p;
      n', p' := n - dec, p + dec;
      AnswerCutsNothing(recs, p, n, rec, index, p);
      AnswerCutsNothing(recs, p, n, rec, index, p');
      DecreaseRec(rec, index, p, dec);
      assert index < |old(recs)| && old(recs)[index] in old(recs);
      Advance(old(recs), recs, p, p', end);
    }

    /** Takes a stretch of a record, or all of it, out of the list. */
    method DecreaseRec(rec: Rec, index: nat, p: nat, dec: nat)
      requires Stored(recs) && index < |recs| && recs[index] == rec && rec.refcount != 0
      requires rec.cpos <= p && p + dec <= rec.End()
      modifies this`recs
      ensures Stored(recs) && SameZeros(old(recs), recs) && Edited(old(recs), recs)
      ensures forall c: nat :: CountAt(recs, c) == if p <= c < p + dec then 0 else old(CountAt(recs, c))
    {
      if p == rec.cpos && dec == rec.clusters {
        ChangeRecMeaning(recs, index, -(rec.refcount as int));
        forall c: nat | rec.Covers(c)
          ensures CountAt(recs, c) == rec.refcount
        {
          CountAtCovered(recs, index, c);
        }
        recs := ChangeRec(recs, index, -(rec.refcount as int));
        assert Changed(old(recs), recs, index, -(rec.refcount as int));
      } else {
        SplitRecMeaning(recs, Rec(p, dec, 0), index);
        recs := SplitRec(recs, Rec(p, dec, 0), index);
        assert Split(old(recs), recs, index, Rec(p, dec, 0));
      }
    }

    /** Zeroes counts over the range; the length is kept in 32 bits. */
    method PunchHole(pStart: nat, len: nat)
      requires Stored(recs) && len < UINT32_RANGE
      modifies this`recs
      ensures Stored(recs) && SameZeros(old(recs), recs)
      ensures forall c: nat :: CountAt(recs, c) == if Cleared(old(recs), pStart, pStart + len, c) then 0
                                                   else old(CountAt(recs, c))
    {
      ghost var was, end := recs, pStart + len;
      var p: nat, n: nat := pStart, len;
      while n > 0
        invariant n < UINT32_RANGE && Punching(p, n, end) && SameFinal(was, pStart, recs, p, end)
        decreases if p < UINT32_RANGE then UINT32_RANGE - p else 0, n
      {
        ghost var rs, q := recs, p;
        p, n := PunchOne(p, n, end);
        SameFinalThen(was, pStart, rs, q, recs, p, end);
      }
      DoneClearing(was, pStart, recs, p, end);
    }

    /** Adds `value` from `cpos` to the end of the record or gap there.  The list may be in any state. */
    method IncreaseOne(cpos: nat, len: nat, value: int) returns (setLen: nat)
      requires len > 0 && (value > 0 || (WellFormed(recs) && CountAt(recs, cpos) + value > 0))
      modifies this`recs
      ensures setLen > 0 && SameZeros(old(recs), recs) && Edited(old(recs), recs)
      ensures setLen <= len || exists r :: r in old(recs) && r.refcount == 0 && r.Covers(cpos)
      ensures Stored(old(recs)) && ZerosApart(old(recs), cpos, cpos + len) && cpos + len < UINT32_RANGE ==>
                setLen <= len && Raised(old(recs), recs, cpos, cpos + setLen, value)
    {
      var rec, index := FindRec(recs, cpos, len);
      assert WellFormed(recs) ==> CountAt(recs, cpos) == rec.refcount;
      setLen := rec.clusters;
      if rec.refcount != 0 && rec.cpos == cpos && setLen <= len {
        if Stored(recs) {
          ChangeRaises(recs, rec, index, value);
        }
        recs := ChangeRec(recs, index, value);
        assert Changed(old(recs), recs, index, value);
      } else if rec.refcount == 0 {
        if Stored(recs) && ZerosApart(recs, cpos, cpos + len) && cpos + len < UINT32_RANGE {
          AnswerApart(recs, cpos, len, rec, index, len);
          InsertRaises(recs, rec, index, value);
        }
        recs := InsertRec(recs, rec.(refcount := value), index);
        assert Inserted(old(recs), recs, index, rec.(refcount := value));
      } else {
        setLen := (if cpos + len < rec.End() then cpos + len else rec.End()) - cpos;
        var split := Rec(cpos, setLen, rec.refcount + value);
        if Stored(recs) {
          SplitRaises(recs, rec, index, split, value);
        }
        recs := SplitRec(recs, split, index);
        assert Split(old(recs), recs, index, split);
      }
      EditKeepsZeros(old(recs), recs);
    }

    /**
     Adds `value` to the count of every cluster in the range; the length is kept in 32 bits.  A record with a
     count of zero in the range is inserted a second time, so the list comes out right if and only if there
     is none.
     */
    method IncreaseRefcount(start: nat, length: nat, value: int)
      requires Stored(recs) && start + length < UINT32_RANGE
      requires forall c: nat | start <= c < start + length :: CountAt(recs, c) + value > 0
      modifies this`recs
      ensures SameZeros(old(recs), recs)
      ensures ZerosApart(old(recs), start, start + length) ==> Raised(old(recs), recs, start, start + length, value)
      ensures WellFormed(recs) && (forall c: nat | start <= c < start + length :: CountAt(recs, c) > 0) ==>
                ZerosApart(old(recs), start, start + length)
    {
      ghost var was, end := recs, start + length;
      var cpos: nat, len: nat := start, length;
      RaisingStarts(was, start, length, end, value);
      while len > 0
        invariant Raising(was, recs, start, cpos, len, end, value)
        decreases if cpos < UINT32_RANGE then UINT32_RANGE - cpos else 0, len
      {
        cpos, len := IncreaseNext(cpos, len, value, was, start, end);
      }
      if WellFormed(recs) && forall c: nat | start <= c < start + length :: CountAt(recs, c) > 0 {
        RaisedOnlyApart(was, recs, start, end);
      }
    }

    /** One round of it. */
    method IncreaseNext(cpos: nat, len: nat, value: int, ghost was: seq<Rec>, ghost start: nat, ghost end: nat)
      returns (cpos': nat, len': nat)
      requires len > 0 && Raising(was, recs, start, cpos, len, end, value) && Stored(was) && end < UINT32_RANGE
      requires forall c: nat | start <= c < end :: CountAt(was, c) + value > 0
      modifies this`recs
      ensures Raising(was, recs, start, cpos', len', end, value)
      ensures cpos < cpos' && (cpos + 1 >= UINT32_RANGE ==> len' < len)
    {
      RaisingGoesOn(was, recs, start, cpos, len, end, value);
      var setLen := IncreaseOne(cpos, len, value);
      RaisingStep(was, old(recs), recs, start, cpos, len, setLen, end, value);
      cpos', len' := cpos + setLen, (len - setLen) % UINT32_RANGE;
    }

    /**
     Sets the count of a range that one record covers, or that has none.  The record looked up spans
     the range and disagrees with the new count, as the source asserts.
     */
    method ChangeRefcount(pStart: nat, len: nat, refcount: nat)
      requires Stored(recs) && len > 0 && refcount > 0 && pStart + len < UINT32_RANGE
      requires InOneRecord(recs, pStart, len)
      requires CountAt(recs, pStart) != refcount
      modifies this`recs
      ensures SameZeros(old(recs), recs)
      ensures ZerosApart(old(recs), pStart, pStart + len) ==>
                && Stored(recs)
                && forall c: nat :: CountAt(recs, c) == if pStart <= c < pStart + len then refcount
                                                        else old(CountAt(recs, c))
      ensures WellFormed(recs) && (forall c: nat | pStart <= c < pStart + len :: CountAt(recs, c) == refcount) ==>
                ZerosApart(old(recs), pStart, pStart + len)
    {
      var rec, index := FindRec(recs, pStart, len);
      assert CountAt(recs, pStart) == rec.refcount;
      OneRecordSpans(recs, pStart, len, rec, index);
      assert rec.refcount != refcount && rec.cpos <= pStart && pStart + len <= rec.End();
      IncreaseRefcount(pStart, len, refcount - rec.refcount);
    }

    /** One round of clearing a range. */
    method RemoveOne(cpos: nat, range: nat, ghost end: nat) returns (cpos': nat, range': nat)
      requires Stored(recs) && range > 0 && Removing(recs, cpos, range, end)
      modifies this`recs
      ensures Removed(old(recs), cpos, range, recs, cpos', range', end)
    {
      var len := if range > STEP then STEP else range;
      var rec, index := FindRec(recs, cpos, len);
      if rec.refcount == 0 {
        if Real(recs, cpos, rec, index) {
          RemoveOverRecord(recs, cpos, range, len, rec, index, end);
        } else {
          RemoveOverGap(recs, cpos, range, len, rec, index, end);
        }
        cpos', range' := (cpos + rec.clusters) % UINT64_RANGE, (range - rec.clusters) % UINT64_RANGE;
      } else {
        PunchHole(cpos, len);
        RemovePunched(old(recs), recs, cpos, range, len, rec, index, end);
        cpos', range' := (cpos + len) % UINT64_RANGE, range - len;
      }
    }

    /** Removes every record, or part of one, in the range; position and length are kept in 64 bits. */
    method RemoveRefcountRange(start: nat, end: nat)
      requires Stored(recs) && start <= end < UINT32_RANGE
      requires Landing(recs, start, end) < UINT32_RANGE
      modifies this`recs
      ensures Stored(recs) && SameZeros(old(recs), recs)
      ensures forall c: nat :: CountAt(recs, c) == if Cleared(old(recs), start, end, c) then 0
                                                   else old(CountAt(recs, c))
    {
      ghost var was := recs;
      var cpos: nat, range: nat := start, end - start;
      while range > 0
        invariant Removing(recs, cpos, range, end) && SameFinal(was, start, recs, cpos, end)
        decreases Effort(cpos, range, end)
      {
        ghost var rs, q := recs, cpos;
        cpos, range := RemoveOne(cpos, range, end);
        SameFinalThen(was, start, rs, q, recs, cpos, end);
      }
      DoneClearing(was, start, recs, cpos, end);
    }

    /**
     Gives the clusters the count `refcount` and clears the gap since the previous check.  The 32-bit
     length is updated modulo 2^32, which loses nothing.
     */
    method CheckClusters(start: nat, length: nat, refcount: nat)
      requires Stored(recs) && pCend <= start && start + length < UINT32_RANGE && refcount > 0
      requires !CutAt(recs, pCend) && ZerosApart(recs, start, start + length)
      modifies this`recs, this`pCend
      ensures Stored(recs) && SameZeros(old(recs), recs)
      ensures length == 0 ==> recs == old(recs) && pCend == old(pCend)
      ensures length > 0 ==>
                && pCend == start + length
                && forall c: nat :: CountAt(recs, c) == if old(pCend) <= c < start then 0
                                                        else if start <= c < start + length then refcount
                                                        else old(CountAt(recs, c))
    {
      if length == 0 {
        return;
      }
      ClearGap(start, length);
      ghost var was := recs;
      pCend := start + length;
      var pCpos, clusters := start, length;
      while true
        invariant Stored(recs) && start <= pCpos && SameZeros(was, recs)
        invariant 0 < clusters < UINT32_RANGE && pCpos + clusters == start + length == pCend
        invariant ZerosApart(recs, pCpos, pCend)
        invariant forall c: nat :: CountAt(recs, c) == if start <= c < pCpos then refcount else CountAt(was, c)
        decreases clusters
      {
        var recEnd := CheckOne(pCpos, clusters, refcount);
        if pCpos + clusters <= recEnd {
          break;
        }
        clusters := (clusters + pCpos) % UINT32_RANGE;
        pCpos := recEnd;
        clusters := (clusters - pCpos) % UINT32_RANGE;
        WrapCancels(start + length, pCpos);
      }
    }

    /** Clears what lies between the clusters checked last and a stretch without records that count nothing. */
    method ClearGap(start: nat, ghost length: nat)
      requires Stored(recs) && pCend <= start && start + length < UINT32_RANGE && length > 0
      requires !CutAt(recs, pCend) && ZerosApart(recs, start, start + length)
      modifies this`recs
      ensures Stored(recs) && SameZeros(old(recs), recs) && ZerosApart(recs, start, start + length)
      ensures forall c: nat :: CountAt(recs, c) == if pCend <= c < start then 0 else old(CountAt(recs, c))
    {
      forall r | r in recs && r.refcount == 0
        ensures !Inside(r, start)
      {
        assert Apart(r, start, start + length);
      }
      RemoveRefcountRange(pCend, start);
      ApartSame(old(recs), recs, start, start + length);
      forall c: nat
        ensures CountAt(recs, c) == if pCend <= c < start then 0 else old(CountAt(recs, c))
      {
        PlainClearing(old(recs), pCend, start, c);
      }
    }

    /** Corrects the count from `pCpos` to the end of the record or gap there. */
    method CheckOne(pCpos: nat, clusters: nat, refcount: nat) returns (recEnd: nat)
      requires Stored(recs) && clusters > 0 && refcount > 0 && pCpos + clusters < UINT32_RANGE
      requires ZerosApart(recs, pCpos, pCpos + clusters)
      modifies this`recs
      ensures pCpos < recEnd && Stored(recs) && SameZeros(old(recs), recs)
      ensures forall c: nat :: CountAt(recs, c) == if pCpos <= c < pCpos + clusters && c < recEnd then refcount
                                                   else old(CountAt(recs, c))
      ensures recEnd <= pCpos + clusters ==> ZerosApart(recs, recEnd, pCpos + clusters)
    {
      var rec, index := FindRec(recs, pCpos, clusters);
      assert CountAt(recs, pCpos) == rec.refcount;
      recEnd := rec.End();
      var recLen := (if pCpos + clusters < recEnd then pCpos + clusters else recEnd) - pCpos;
      if rec.refcount != refcount {
        OneAnswer(recs, pCpos, clusters, rec, index, recLen);
        ApartPart(recs, pCpos, pCpos, pCpos + recLen, pCpos + clusters);
        ChangeRefcount(pCpos, recLen, refcount);
      }
      if recEnd <= pCpos + clusters {
        ApartPart(old(recs), pCpos, recEnd, pCpos + clusters, pCpos + clusters);
        ApartSame(old(recs), recs, recEnd, pCpos + clusters);
      }
    }

    /** Checks a segment from `start` up to and including the next duplicate. */
    method CheckPart(marks: ClusterMarks, start: nat, len: nat, refcount: nat, ghost was: seq<Rec>, ghost segStart: nat,
                     ghost from: nat)
      returns (pEnd: nat)
      requires SegmentTo(was, recs, segStart, start, marks.duplicates, from, pCend, refcount)
      requires 0 < len && start + len < UINT32_RANGE && refcount > 0 && from <= segStart <= start && pCend <= start
      requires ZerosOn(was, marks.duplicates, start, start + len)
      modifies this`recs, this`pCend
      ensures start < pEnd <= start + len && pCend <= pEnd
      ensures SegmentTo(was, recs, segStart, pEnd, marks.duplicates, from, pCend, refcount)
    {
      ghost var rs, pc, dup := recs, pCend, marks.duplicates;
      pEnd := marks.FindDuplicate(start, len);
      var clusters := pEnd - start;
      LiveRun(was, recs, dup, start, pEnd, start + len);
      CheckClusters(start, clusters, refcount);
      if clusters > 0 {
        LiveStep(was, rs, recs, segStart, start, pEnd, dup, from, pc, refcount);
      }
      if len > clusters {
        rs := recs;
        PunchHole(pEnd, 1);
        DuplicateStep(was, rs, recs, segStart, pEnd, dup, from, pCend, refcount);
        pEnd := pEnd + 1;
      }
    }

    /** Checks one segment of the sweep, stepping over clusters that somebody else owns too. */
    method CheckSegment(marks: ClusterMarks, segStart: nat, segLen: nat, refcount: nat)
      requires Stored(recs) && pCend <= segStart && segStart + segLen < UINT32_RANGE && refcount > 0
      requires !CutAt(recs, pCend)
      requires ZerosOn(recs, marks.duplicates + marks.inUse, segStart, segStart + segLen)
      modifies this`recs, this`pCend, marks
      ensures Stored(recs)
      ensures SegmentDone(old(Snapshot(files, recs, pCend, marks.inUse, marks.duplicates)),
                          Snapshot(files, recs, pCend, marks.inUse, marks.duplicates),
                          segStart, segLen, refcount)
    {
      marks.MarkClusters(segStart, segLen);
      ghost var was, from, used, dup, end := recs, pCend, marks.inUse, marks.duplicates, segStart + segLen;
      var start: nat, len: nat := segStart, segLen;
      NothingChecked(recs, segStart, dup, pCend, refcount);
      while len > 0
        invariant segStart <= start && start + len == end && pCend <= start
        invariant marks.inUse == used && marks.duplicates == dup && ZerosOn(was, dup, segStart, end)
        invariant SegmentTo(was, recs, segStart, start, dup, from, pCend, refcount)
      {
        var pEnd := CheckPart(marks, start, len, refcount, was, segStart, from);
        len := start + len - pEnd;
        start := pEnd;
      }
      SegmentEnds(old(Snapshot(files, recs, pCend, marks.inUse, marks.duplicates)),
                  Snapshot(files, recs, pCend, marks.inUse, marks.duplicates), segStart, segLen, refcount);
    }

    /**
     Checks the whole tree.  Afterwards a cluster shared by n files and claimed by nobody else has
     count n, and every other cluster has count zero, except for strays that no clearing comes to.
     The emitted segments are exactly the constant-count cut of the held clusters.  The precondition on
     records with a count of zero is what it takes: see `RightOnlyIf`.
     */
    method CheckRefcount(marks: ClusterMarks) returns (ghost segs: seq<Segment>, ghost end: nat)
      requires Stored(recs) && ValidFiles(files) && HeldLow(files) && pCend == 0
      requires rfEnd < UINT32_RANGE && forall i | 0 <= i < |recs| :: recs[i].End() <= rfEnd
      requires ZerosOffLive(Snapshot(files, recs, pCend, marks.inUse, marks.duplicates))
      requires forall e: nat | EndOfHeld(files, e) :: Landing(recs, e, rfEnd) < UINT32_RANGE
      modifies this, marks
      ensures Stored(recs) && forall k | 0 <= k < |files| :: files[k] == []
      ensures TreeRepaired(old(Snapshot(files, recs, pCend, marks.inUse, marks.duplicates)), rfEnd,
                           Snapshot(files, recs, pCend, marks.inUse, marks.duplicates))
      ensures SweptTo(segs, old(files), end) && forall c: nat | end <= c :: !Held(old(files), c)
    {
      ghost var s0 := Snapshot(files, recs, pCend, marks.inUse, marks.duplicates);
      var pCpos, clusters;
      pCpos, clusters, segs := Sweep(marks);
      end := pCpos + clusters;
      ghost var swept := Snapshot(files, recs, pCend, marks.inUse, marks.duplicates);
      if rfEnd > pCpos + clusters {
        assert EndOfHeld(s0.files, end);
        LandingSame(s0.recs, recs, end, rfEnd);
        RemoveRefcountRange(pCpos + clusters, rfEnd);
      }
      SweepFinal(s0, swept, end, rfEnd, recs);
      SweepFinalMarks(s0, swept, end, recs);
    }

    /** Takes the segment out of every file; both assertions of the source hold. */
    method RemoveRefcountedExtent(cpos: nat, clusters: nat)
      requires forall k | 0 <= k < |files| :: Aligned(files[k], cpos, clusters)
      requires forall k | 0 <= k < |files| && files[k] != [] :: cpos <= files[k][0].pcpos
      modifies this`files
      ensures FilesTrimmed(old(files), files, cpos, clusters)
    {
      ghost var was := files;
      for k := 0 to |files|
        invariant |files| == |was|
        invariant forall j | 0 <= j < k :: FileTrimmed(was[j], files[j], cpos, clusters)
        invariant forall j | k <= j < |files| :: files[j] == was[j]
      {
        assert Aligned(was[k], cpos, clusters);
        if files[k] == [] {
          continue;
        }
        var extent := files[k][0];
        assert extent.pcpos >= cpos;
        if cpos + clusters <= extent.pcpos {
          continue;
        }
        assert extent.End() >= cpos + clusters;
        if cpos + clusters == extent.End() {
          files := files[k := files[k][1..]];
        } else {
          var rest := extent.(clusters := extent.End() - (cpos + clusters), pcpos := cpos + clusters);
          files := files[k := [rest] + files[k][1..]];
        }
      }
    }

    /** One round of the sweep: get the next segment, check it, remove it from every file. */
    method SweepOne(marks: ClusterMarks, ghost s0: Snapshot, ghost end: nat)
      returns (found: bool, cpos: nat, clusters: nat, refcount: nat)
      requires Stored(recs) && ValidFiles(files) && Stored(s0.recs) && HeldLow(s0.files) && ZerosOffLive(s0)
      requires SweepInv(s0, Snapshot(files, recs, pCend, marks.inUse, marks.duplicates), end)
      modifies this, marks
      ensures Stored(recs) && ValidFiles(files)
      ensures found ==> end <= cpos && NextSegment(old(files), cpos, clusters, refcount)
      ensures found ==> SweepInv(s0, Snapshot(files, recs, pCend, marks.inUse, marks.duplicates), cpos + clusters)
      ensures found ==> FilesTrimmed(old(files), files, cpos, clusters)
      ensures found ==> TotalClusters(files) < old(TotalClusters(files))
      ensures !found ==> unchanged(this, marks) && forall k | 0 <= k < |files| :: files[k] == []
    {
      ghost var s := Snapshot(files, recs, pCend, marks.inUse, marks.duplicates);
      found, cpos, clusters, refcount := GetRefcountedExtent(files);
      if found {
        SegmentStart(s0, s, end, cpos, clusters, refcount);
        PositionNotCut(s0, s, end);
        SegmentInside(s0, s, end, cpos, clusters, refcount, cpos + clusters - 1);
        assert Held(s0.files, cpos + clusters - 1);
        SegmentZeros(s0, s, end, cpos, clusters, refcount);
        CheckSegment(marks, cpos, clusters, refcount);
        ghost var s' := Snapshot(files, recs, pCend, marks.inUse, marks.duplicates);
        RemoveRefcountedExtent(cpos, clusters);
        TrimMeaning(s.files, files, cpos, clusters, refcount);
        SweepStep(s0, s, s', files, end, cpos, clusters, refcount);
        assert Snapshot(files, recs, pCend, marks.inUse, marks.duplicates) == s'.(files := files);
      }
    }

    /** One round, with the segments found so far. */
    method SweepNext(marks: ClusterMarks, ghost s0: Snapshot, ghost end: nat, ghost segs: seq<Segment>)
      returns (found: bool, cpos: nat, clusters: nat, ghost segs': seq<Segment>)
      requires Stored(recs) && ValidFiles(files) && Stored(s0.recs) && HeldLow(s0.files) && ZerosOffLive(s0)
      requires SweptSo(s0, Snapshot(files, recs, pCend, marks.inUse, marks.duplicates), end, segs)
      modifies this, marks
      ensures Stored(recs) && ValidFiles(files)
      ensures found ==> TotalClusters(files) < old(TotalClusters(files))
      ensures found ==>
                SweptSo(s0, Snapshot(files, recs, pCend, marks.inUse, marks.duplicates), cpos + clusters, segs')
      ensures !found ==> unchanged(this, marks) && forall k | 0 <= k < |files| :: files[k] == []
    {
      ghost var s := Snapshot(files, recs, pCend, marks.inUse, marks.duplicates);
      var refcount;
      found, cpos, clusters, refcount := SweepOne(marks, s0, end);
      segs' := segs + [Segment(cpos, clusters, refcount)];
      if found {
        EdgesStep(s0.files, s.files, files, end, cpos, clusters, refcount);
        SweptStep(segs, s0, s, end, cpos, clusters, refcount);
      }
    }

    /** The get, check, remove loop; it ends when every file is used up. */
    method Sweep(marks: ClusterMarks) returns (pCpos: nat, clusters: nat, ghost segs: seq<Segment>)
      requires Stored(recs) && ValidFiles(files) && HeldLow(files) && pCend == 0
      requires ZerosOffLive(Snapshot(files, recs, pCend, marks.inUse, marks.duplicates))
      modifies this, marks
      ensures Stored(recs) && forall k | 0 <= k < |files| :: files[k] == []
      ensures SweptSo(old(Snapshot(files, recs, pCend, marks.inUse, marks.duplicates)),
                      Snapshot(files, recs, pCend, marks.inUse, marks.duplicates), pCpos + clusters, segs)
      ensures forall c: nat | pCpos + clusters <= c :: !Held(old(files), c)
    {
      ghost var s0 := Snapshot(files, recs, pCend, marks.inUse, marks.duplicates);
      segs := [];
      pCpos, clusters := 0, 0;
      NothingSwept(s0);
      while true
        invariant Stored(recs) && ValidFiles(files)
        invariant SweptSo(s0, Snapshot(files, recs, pCend, marks.inUse, marks.duplicates), pCpos + clusters, segs)
        decreases TotalClusters(files)
      {
        var found, cpos, n;
        ghost var segs';
        found, cpos, n, segs' := SweepNext(marks, s0, pCpos + clusters, segs);
        if !found {
          break;
        }
        pCpos, clusters, segs := cpos, n, segs';
      }
      SweepOver(s0, Snapshot(files, recs, pCend, marks.inUse, marks.duplicates), pCpos + clusters);
    }
  }

  /** `pc` is the end of the last unduplicated cluster in `[lo, hi)`, or `dflt` if there is none. */
  ghost predicate LastLive(lo: nat, hi: nat, dup: set<nat>, dflt: nat, pc: nat) {
    || (pc == dflt && forall c: nat | lo <= c < hi :: c in dup)
    || (lo < pc <= hi && pc - 1 !in dup && forall c: nat | pc <= c < hi :: c in dup)
  }

  /** Clearing the single cluster `d` clears `c` behind it as well, since the length wraps. */
  ghost predicate Wipes(rs: seq<Rec>, d: nat, c: nat)
    requires Low(rs)
  {
    d < c && Cleared(rs, d, d + 1, c)
  }

  ghost predicate WipedBy(rs: seq<Rec>, dup: set<nat>, lo: nat, hi: nat, d: nat, c: nat)
    requires Low(rs)
  {
    lo <= d < hi && d in dup && Wipes(rs, d, c)
  }

  ghost predicate WipedIn(rs: seq<Rec>, dup: set<nat>, lo: nat, hi: nat, c: nat)
    requires Low(rs)
  {
    exists d: nat :: WipedBy(rs, dup, lo, hi, d, c)
  }

  /** In the range, records with a count of zero lie on duplicates only. */
  ghost predicate ZerosOn(rs: seq<Rec>, dup: set<nat>, lo: nat, hi: nat) {
    forall r, c: nat | r in rs && r.refcount == 0 && lo <= c < hi && r.Covers(c) :: c in dup
  }

  /** The count at `c` once the segment has been checked up to `hi`. */
  ghost function SegmentCount(was: seq<Rec>, lo: nat, hi: nat, dup: set<nat>, from: nat, pc: nat, refcount: nat,
                              c: nat): nat
    requires Low(was)
  {
    if lo <= c < hi then (if c in dup then 0 else refcount)
    else if from <= c < lo < pc || WipedIn(was, dup, lo, hi, c) then 0
    else CountAt(was, c)
  }

  ghost predicate SegmentAt(was: seq<Rec>, rs: seq<Rec>, lo: nat, hi: nat, dup: set<nat>, from: nat, pc: nat,
                            refcount: nat, c: nat)
    requires Low(was)
  {
    CountAt(rs, c) == SegmentCount(was, lo, hi, dup, from, pc, refcount, c)
  }

  /** The segment has been checked up to `hi`. */
  ghost predicate SegmentTo(was: seq<Rec>, rs: seq<Rec>, lo: nat, hi: nat, dup: set<nat>, from: nat, pc: nat,
                            refcount: nat) {
    && Stored(was) && Stored(rs) && SameZeros(was, rs) && !CutAt(rs, pc) && LastLive(lo, hi, dup, from, pc)
    && forall c: nat :: SegmentAt(was, rs, lo, hi, dup, from, pc, refcount, c)
  }

  /** A stretch without duplicates has no records that count nothing. */
  lemma LiveRun(was: seq<Rec>, rs: seq<Rec>, dup: set<nat>, start: nat, end: nat, hi: nat)
    requires SameZeros(was, rs) && start <= end <= hi && ZerosOn(was, dup, start, hi)
    requires forall c: nat | start <= c < end :: c !in dup
    ensures ZerosApart(rs, start, end) && (start < end ==> !CutAt(rs, end))
  {
    forall r | r in rs && r.refcount == 0
      ensures Apart(r, start, end) && (start < end ==> !Inside(r, end))
    {
      assert r in was;
      var c := if r.cpos < start then start else r.cpos;
      assert start <= c < end ==> !r.Covers(c);
      assert start < end ==> !r.Covers(end - 1);
    }
  }

  lemma NothingChecked(rs: seq<Rec>, lo: nat, dup: set<nat>, pc: nat, refcount: nat)
    requires Stored(rs) && !CutAt(rs, pc) && pc <= lo
    ensures SegmentTo(rs, rs, lo, lo, dup, pc, pc, refcount)
  {
    assert forall c: nat :: SegmentAt(rs, rs, lo, lo, dup, pc, pc, refcount, c);
  }

  lemma LiveStep(was: seq<Rec>, rs: seq<Rec>, rs': seq<Rec>, lo: nat, hi: nat, hi': nat, dup: set<nat>, from: nat,
                 pc: nat, refcount: nat)
    requires SegmentTo(was, rs, lo, hi, dup, from, pc, refcount) && from <= lo <= hi < hi' && pc <= hi
    requires Stored(rs') && SameZeros(rs, rs') && !CutAt(rs, hi') && forall c: nat | hi <= c < hi' :: c !in dup
    requires forall c: nat ::
               CountAt(rs', c) == if pc <= c < hi then 0 else if hi <= c < hi' then refcount else CountAt(rs, c)
    ensures SegmentTo(was, rs', lo, hi', dup, from, hi', refcount)
  {
    CutSame(rs, rs', hi');
    forall c: nat
      ensures SegmentAt(was, rs', lo, hi', dup, from, hi', refcount, c)
    {
      assert SegmentAt(was, rs, lo, hi, dup, from, pc, refcount, c);
      SameWipes(was, dup, lo, hi, hi', c);
    }
  }

  lemma SameWipes(rs: seq<Rec>, dup: set<nat>, lo: nat, hi: nat, hi': nat, c: nat)
    requires Low(rs) && lo <= hi <= hi' && forall d: nat | hi <= d < hi' :: d !in dup
    ensures WipedIn(rs, dup, lo, hi', c) <==> WipedIn(rs, dup, lo, hi, c)
  {
    if d: nat :| WipedBy(rs, dup, lo, hi', d, c) {
      assert WipedBy(rs, dup, lo, hi, d, c);
    }
    if d: nat :| WipedBy(rs, dup, lo, hi, d, c) {
      assert WipedBy(rs, dup, lo, hi', d, c);
    }
  }

  lemma OneMoreWipe(rs: seq<Rec>, dup: set<nat>, lo: nat, hi: nat, c: nat)
    requires Low(rs) && lo <= hi && hi in dup
    ensures WipedIn(rs, dup, lo, hi + 1, c) <==> WipedIn(rs, dup, lo, hi, c) || Wipes(rs, hi, c)
  {
    var hi' := hi + 1;
    if d: nat :| WipedBy(rs, dup, lo, hi', d, c) {
      assert d < hi ==> WipedBy(rs, dup, lo, hi, d, c);
    }
    if d: nat :| WipedBy(rs, dup, lo, hi, d, c) {
      assert WipedBy(rs, dup, lo, hi', d, c);
    }
    if Wipes(rs, hi, c) {
      assert WipedBy(rs, dup, lo, hi', hi, c);
    }
  }

  /** Clearing one cluster clears that cluster, if it had a count, and nothing before it. */
  lemma OneCleared(rs: seq<Rec>, d: nat, c: nat)
    requires Stored(rs)
    ensures c < d ==> !Cleared(rs, d, d + 1, c)
    ensures CountAt(rs, d) > 0 ==> Cleared(rs, d, d + 1, d)
  {
    LandingAbove(rs, d, d + 1);
    if CutAt(rs, d) {
      var r :| r in rs && Inside(r, d);
      var i :| 0 <= i < |rs| && rs[i] == r;
      CountAtCovered(rs, i, d);
    }
  }

  lemma DuplicateStep(was: seq<Rec>, rs: seq<Rec>, rs': seq<Rec>, lo: nat, hi: nat, dup: set<nat>, from: nat, pc: nat,
                      refcount: nat)
    requires SegmentTo(was, rs, lo, hi, dup, from, pc, refcount) && lo <= hi && hi in dup && pc <= hi
    requires Stored(rs') && SameZeros(rs, rs')
    requires forall c: nat :: CountAt(rs', c) == if Cleared(rs, hi, hi + 1, c) then 0 else CountAt(rs, c)
    ensures SegmentTo(was, rs', lo, hi + 1, dup, from, pc, refcount)
  {
    var hi' := hi + 1;
    CutSame(rs, rs', pc);
    forall c: nat
      ensures SegmentAt(was, rs', lo, hi', dup, from, pc, refcount, c)
    {
      assert SegmentAt(was, rs, lo, hi, dup, from, pc, refcount, c);
      OneCleared(rs, hi, c);
      ClearedSame(was, rs, hi, hi', c);
      OneMoreWipe(was, dup, lo, hi, c);
    }
  }

  lemma SegmentEnds(s: Snapshot, s': Snapshot, start: nat, len: nat, refcount: nat)
    requires SegmentTo(s.recs, s'.recs, start, start + len, s'.dup, s.pc, s'.pc, refcount) && s'.files == s.files
    requires s'.inUse == s.inUse + Span(start, len) && s'.dup == s.dup + s.inUse * Span(start, len)
    ensures SegmentDone(s, s', start, len, refcount)
  {
    forall c: nat
      ensures SegmentDoneAt(s, s', start, len, refcount, c)
    {
      assert SegmentAt(s.recs, s'.recs, start, start + len, s'.dup, s.pc, s'.pc, refcount, c);
    }
  }

  /** The effect of checking one segment. */
  ghost predicate SegmentDone(s: Snapshot, s': Snapshot, start: nat, len: nat, refcount: nat) {
    && s'.files == s.files && Stored(s.recs) && SameZeros(s.recs, s'.recs)
    && LastLive(start, start + len, s'.dup, s.pc, s'.pc)
    && forall c: nat :: SegmentDoneAt(s, s', start, len, refcount, c)
  }

  ghost predicate SegmentDoneAt(s: Snapshot, s': Snapshot, start: nat, len: nat, refcount: nat, c: nat)
    requires Low(s.recs)
  {
    && (c in s'.inUse <==> c in s.inUse || start <= c < start + len)
    && (c in s'.dup <==> c in s.dup || (c in s.inUse && start <= c < start + len))
    && CountAt(s'.recs, c) == SegmentCount(s.recs, start, start + len, s'.dup, s.pc, s'.pc, refcount, c)
  }

  /** The cluster is claimed by others than the sharing files, as the marks before the check say. */
  ghost predicate Claimed(s0: Snapshot, c: nat) { c in s0.inUse || c in s0.dup }

  ghost predicate LiveAt(s0: Snapshot, c: nat) { Held(s0.files, c) && !Claimed(s0, c) }

  /** A held cluster that is claimed by others too, the clearing of which wipes `c`. */
  ghost predicate WipedFrom(s0: Snapshot, d: nat, c: nat)
    requires Low(s0.recs)
  {
    Held(s0.files, d) && Claimed(s0, d) && Wipes(s0.recs, d, c)
  }

  /** Some such cluster below `end` does. */
  ghost predicate WipedTo(s0: Snapshot, end: nat, c: nat)
    requires Low(s0.recs)
  {
    exists d: nat | d < end :: WipedFrom(s0, d, c)
  }

  ghost predicate EndOfHeld(files: seq<FileExtents>, e: nat) {
    (e == 0 || Held(files, e - 1)) && forall d: nat | e <= d :: !Held(files, d)
  }

  /**
   A count on an unheld cluster stays: no cluster behind it is held by the sharing files alone, so that the gap is
   not cleared; no wrapped clearing comes to it; and neither does the clearing behind the last held cluster.
   */
  ghost predicate Stays(s0: Snapshot, rfEnd: nat, c: nat)
    requires Low(s0.recs)
  {
    && !Held(s0.files, c)
    && (forall d: nat | c < d :: !LiveAt(s0, d))
    && (forall d: nat :: !WipedFrom(s0, d, c))
    && (forall e: nat | EndOfHeld(s0.files, e) && e <= c :: !Cleared(s0.recs, e, rfEnd, c))
  }

  /** What checking a whole tree does to marks and counts. */
  ghost predicate TreeRepaired(s0: Snapshot, rfEnd: nat, s: Snapshot) {
    && Stored(s0.recs)
    && (forall c: nat :: MarksRepaired(s0, s, c)) && forall c: nat :: CountRepaired(s0, rfEnd, s, c)
  }

  lemma SameRepair(s0: Snapshot, rfEnd: nat, s: Snapshot, files: seq<FileExtents>, pc: nat)
    requires TreeRepaired(s0, rfEnd, s)
    ensures TreeRepaired(s0, rfEnd, s.(files := files, pc := pc))
  {
    var s' := s.(files := files, pc := pc);
    forall c: nat
      ensures MarksRepaired(s0, s', c) && CountRepaired(s0, rfEnd, s', c)
    {
      assert MarksRepaired(s0, s, c) && CountRepaired(s0, rfEnd, s, c);
    }
  }

  ghost predicate MarksRepaired(s0: Snapshot, s: Snapshot, c: nat) {
    && (c in s.inUse <==> c in s0.inUse || Held(s0.files, c))
    && (c in s.dup <==> c in s0.dup || (c in s0.inUse && Held(s0.files, c)))
  }

  ghost predicate CountRepaired(s0: Snapshot, rfEnd: nat, s: Snapshot, c: nat)
    requires Low(s0.recs)
  {
    CountAt(s.recs, c) == if LiveAt(s0, c) then HoldCount(s0.files, c)
                          else if Stays(s0, rfEnd, c) then CountAt(s0.recs, c)
                          else 0
  }

  /** The values that the sweep changes. */
  datatype Snapshot = Snapshot(files: seq<FileExtents>, recs: seq<Rec>, pc: nat, inUse: set<nat>, dup: set<nat>)

  /** The count at `c` once the sweep has come to `end`. */
  ghost function SweepCount(s0: Snapshot, pc: nat, end: nat, c: nat): nat
    requires Low(s0.recs)
  {
    if c < end && LiveAt(s0, c) then HoldCount(s0.files, c)
    else if (c < end && Held(s0.files, c)) || c < pc || WipedTo(s0, end, c) then 0
    else CountAt(s0.recs, c)
  }

  /** What holds between the start `s0` of the sweep and its state `s` when everything below `end` is done. */
  ghost predicate SweepInv(s0: Snapshot, s: Snapshot, end: nat) {
    && Stored(s0.recs) && s.pc <= end && SameZeros(s0.recs, s.recs)
    && (end == 0 || Held(s0.files, end - 1))
    && (s.pc == 0 || LiveAt(s0, s.pc - 1))
    && (forall c: nat :: SweepAt(s0, s, end, c))
  }

  ghost predicate SweepAt(s0: Snapshot, s: Snapshot, end: nat, c: nat)
    requires Low(s0.recs)
  {
    && HoldCount(s.files, c) == (if c < end then 0 else HoldCount(s0.files, c))
    && (c in s.inUse <==> c in s0.inUse || (c < end && Held(s0.files, c)))
    && (c in s.dup <==> c in s0.dup || (c in s0.inUse && c < end && Held(s0.files, c)))
    && (s.pc <= c < end ==> !LiveAt(s0, c))
    && CountAt(s.recs, c) == SweepCount(s0, s.pc, end, c)
  }

  /** No record with a count of zero covers a cluster that only the sharing files hold. */
  ghost predicate ZerosOffLive(s0: Snapshot) {
    forall r, c: nat | r in s0.recs && r.refcount == 0 && r.Covers(c) :: !LiveAt(s0, c)
  }

  /** Nor any held cluster. */
  ghost predicate ZerosOffHeld(files: seq<FileExtents>, recs: seq<Rec>) {
    forall r, c: nat | r in recs && r.refcount == 0 && r.Covers(c) :: !Held(files, c)
  }

  /** Everything below `end` is done, and `segs` are the segments found there. */
  ghost predicate SweptSo(s0: Snapshot, s: Snapshot, end: nat, segs: seq<Segment>) {
    SweepInv(s0, s, end) && SweptTo(segs, s0.files, end) && EdgesKept(s0.files, s.files, end)
  }

  /** What is left of the files has the edges behind `end` that the files had, and no new ones. */
  ghost predicate EdgesKept(files: seq<FileExtents>, files': seq<FileExtents>, end: nat) {
    forall x: nat :: EdgeKeptAt(files, files', end, x)
  }

  ghost predicate EdgeKeptAt(files: seq<FileExtents>, files': seq<FileExtents>, end: nat, x: nat) {
    && (Edge(files', x) ==> Edge(files, x))
    && (end < x && Edge(files, x) ==> Edge(files', x))
  }

  lemma EdgesStep(files0: seq<FileExtents>, files: seq<FileExtents>, files': seq<FileExtents>, end: nat, cpos: nat,
                  clusters: nat, refcount: nat)
    requires EdgesKept(files0, files, end) && end <= cpos && ValidFiles(files)
    requires NextSegment(files, cpos, clusters, refcount) && FilesTrimmed(files, files', cpos, clusters)
    ensures EdgesKept(files0, files', cpos + clusters) && CutAtEdges(files0, cpos, cpos + clusters)
  {
    var end' := cpos + clusters;
    SegmentEdges(files, cpos, clusters, refcount, end');
    SameCut(files0, files, end, cpos, end');
    forall x: nat
      ensures EdgeKeptAt(files0, files', end', x)
    {
      assert EdgeKeptAt(files0, files, end, x);
      TrimEdges(files, files', cpos, clusters, x);
    }
  }

  lemma SameCut(files0: seq<FileExtents>, files: seq<FileExtents>, end: nat, lo: nat, hi: nat)
    requires EdgesKept(files0, files, end) && end <= lo && CutAtEdges(files, lo, hi)
    ensures CutAtEdges(files0, lo, hi)
  {
    assert EdgeKeptAt(files0, files, end, lo) && EdgeKeptAt(files0, files, end, hi);
    forall x: nat
      ensures NoEdgeIn(files0, lo, hi, x)
    {
      assert EdgeKeptAt(files0, files, end, x) && NoEdgeIn(files, lo, hi, x);
    }
  }

  lemma TrimEdges(files: seq<FileExtents>, files': seq<FileExtents>, cpos: nat, clusters: nat, x: nat)
    requires ValidFiles(files) && clusters > 0 && FilesTrimmed(files, files', cpos, clusters)
    ensures Edge(files', x) ==> Edge(files, x) || x == cpos + clusters
    ensures x > cpos + clusters && Edge(files, x) ==> Edge(files', x)
  {
    forall k | 0 <= k < |files|
      ensures EdgeOf(files'[k], x) ==> EdgeOf(files[k], x) || x == cpos + clusters
      ensures x > cpos + clusters && EdgeOf(files[k], x) ==> EdgeOf(files'[k], x)
    {
      assert ValidFile(files[k]) && FileTrimmed(files[k], files'[k], cpos, clusters);
      TrimFirstEdges(files[k], cpos, clusters, x);
    }
  }

  /** In the files that are left, the segment is cut at edges. */
  lemma SegmentEdges(files: seq<FileExtents>, cpos: nat, clusters: nat, refcount: nat, end: nat)
    requires ValidFiles(files) && NextSegment(files, cpos, clusters, refcount) && end == cpos + clusters
    ensures CutAtEdges(files, cpos, end)
  {
    var at :| 0 <= at < |files| && files[at] != [] && files[at][0].pcpos == cpos;
    assert EdgeOf(files[at], cpos);
    forall x: nat
      ensures NoEdgeIn(files, cpos, end, x)
    {
      forall k | cpos < x < end && 0 <= k < |files|
        ensures !EdgeOf(files[k], x)
      {
        assert ValidFile(files[k]) && Aligned(files[k], cpos, clusters);
        NoEdgeInside(files[k], cpos, clusters, x);
      }
    }
  }

  lemma NothingSwept(s: Snapshot)
    requires Stored(s.recs) && s.pc == 0
    ensures SweptSo(s, s, 0, [])
  {
    assert forall c: nat :: SweepAt(s, s, 0, c);
  }

  lemma SweepOver(s0: Snapshot, s: Snapshot, end: nat)
    requires SweepInv(s0, s, end) && forall k | 0 <= k < |s.files| :: s.files[k] == []
    ensures forall c: nat | end <= c :: !Held(s0.files, c)
  {
    forall c: nat | end <= c
      ensures !Held(s0.files, c)
    {
      NotHeld(s.files, c);
      assert SweepAt(s0, s, end, c);
    }
  }

  lemma PositionNotCut(s0: Snapshot, s: Snapshot, end: nat)
    requires SweepInv(s0, s, end) && ZerosOffLive(s0)
    ensures !CutAt(s.recs, s.pc)
  {
    if r :| r in s.recs && Inside(r, s.pc) {
      assert r in s0.recs && r.Covers(s.pc - 1);
      assert false;
    }
  }

  /** In the next segment, records with a count of zero lie on clusters that are claimed by others. */
  lemma SegmentZeros(s0: Snapshot, s: Snapshot, end: nat, cpos: nat, clusters: nat, refcount: nat)
    requires SweepInv(s0, s, end) && ZerosOffLive(s0) && end <= cpos
    requires NextSegment(s.files, cpos, clusters, refcount)
    ensures ZerosOn(s.recs, s.dup + s.inUse, cpos, cpos + clusters)
  {
    forall r, c: nat | r in s.recs && r.refcount == 0 && cpos <= c < cpos + clusters && r.Covers(c)
      ensures c in s.dup + s.inUse
    {
      assert r in s0.recs && SweepAt(s0, s, end, c);
      SegmentInside(s0, s, end, cpos, clusters, refcount, c);
    }
  }

  /** The next segment starts at or after `end`, so the gap cleared before it is a forward range. */
  lemma SegmentStart(s0: Snapshot, s: Snapshot, end: nat, cpos: nat, clusters: nat, refcount: nat)
    requires SweepInv(s0, s, end) && NextSegment(s.files, cpos, clusters, refcount)
    ensures s.pc <= end <= cpos
  {
    assert SweepAt(s0, s, end, cpos) && CountBelow(s.files, cpos, clusters, refcount, cpos);
  }

  lemma SweepStep(s0: Snapshot, s: Snapshot, s': Snapshot, files': seq<FileExtents>, end: nat,
                  cpos: nat, clusters: nat, refcount: nat)
    requires SweepInv(s0, s, end) && end <= cpos && NextSegment(s.files, cpos, clusters, refcount)
    requires SegmentDone(s, s', cpos, clusters, refcount) && Trimmed(s.files, files', cpos + clusters)
    ensures SweepInv(s0, s'.(files := files'), cpos + clusters)
  {
    var end' := cpos + clusters;
    forall c: nat
      ensures SweepAt(s0, s'.(files := files'), end', c)
    {
      SweepStepAt(s0, s, s', files', end, cpos, clusters, refcount, c);
    }
    SegmentInside(s0, s, end, cpos, clusters, refcount, end' - 1);
    if s'.pc > 0 {
      assert SweepAt(s0, s, end, s'.pc - 1) && SegmentDoneAt(s, s', cpos, clusters, refcount, s'.pc - 1);
      SegmentInside(s0, s, end, cpos, clusters, refcount, s'.pc - 1);
    }
  }

  lemma SweepStepAt(s0: Snapshot, s: Snapshot, s': Snapshot, files': seq<FileExtents>, end: nat,
                    cpos: nat, clusters: nat, refcount: nat, c: nat)
    requires SweepInv(s0, s, end) && end <= cpos && NextSegment(s.files, cpos, clusters, refcount)
    requires SegmentDone(s, s', cpos, clusters, refcount) && Trimmed(s.files, files', cpos + clusters)
    ensures SweepAt(s0, s'.(files := files'), cpos + clusters, c)
  {
    assert SweepAt(s0, s, end, c) && SegmentDoneAt(s, s', cpos, clusters, refcount, c);
    assert TrimmedAt(s.files, files', cpos + clusters, c);
    SegmentInside(s0, s, end, cpos, clusters, refcount, c);
    SegmentWipes(s0, s, s', end, cpos, clusters, refcount, c);
  }

  /** The clusters whose clearing wipes `c`, below the end of the segment and below its start. */
  lemma SegmentWipes(s0: Snapshot, s: Snapshot, s': Snapshot, end: nat, cpos: nat, clusters: nat, refcount: nat, c: nat)
    requires Stored(s.recs) && SweepInv(s0, s, end) && end <= cpos && NextSegment(s.files, cpos, clusters, refcount)
    requires SegmentDone(s, s', cpos, clusters, refcount)
    ensures WipedTo(s0, cpos + clusters, c) <==>
            WipedTo(s0, end, c) || WipedIn(s.recs, s'.dup, cpos, cpos + clusters, c)
  {
    var end' := cpos + clusters;
    forall d: nat
      ensures cpos <= d < end' ==> (WipedBy(s.recs, s'.dup, cpos, end', d, c) <==> WipedFrom(s0, d, c))
      ensures end <= d < cpos ==> !WipedFrom(s0, d, c)
    {
      assert SweepAt(s0, s, end, d) && SegmentDoneAt(s, s', cpos, clusters, refcount, d);
      SegmentInside(s0, s, end, cpos, clusters, refcount, d);
      ClearedSame(s0.recs, s.recs, d, d + 1, c);
    }
    if WipedTo(s0, end', c) {
      var d: nat :| d < end' && WipedFrom(s0, d, c);
      assert d >= cpos ==> WipedBy(s.recs, s'.dup, cpos, end', d, c);
    }
    if d: nat :| WipedBy(s.recs, s'.dup, cpos, end', d, c) {
      assert WipedFrom(s0, d, c);
    }
  }

  /** The segment in terms of the files as they were at the start of the sweep. */
  lemma SegmentInside(s0: Snapshot, s: Snapshot, end: nat, cpos: nat, clusters: nat, refcount: nat, c: nat)
    requires SweepInv(s0, s, end) && end <= cpos && NextSegment(s.files, cpos, clusters, refcount)
    ensures end <= c < cpos ==> HoldCount(s0.files, c) == 0
    ensures cpos <= c < cpos + clusters ==> HoldCount(s0.files, c) == refcount
  {
    assert SweepAt(s0, s, end, c) && CountBelow(s.files, cpos, clusters, refcount, c);
  }

  lemma SweptStep(segs: seq<Segment>, s0: Snapshot, s: Snapshot, end: nat, cpos: nat, clusters: nat, refcount: nat)
    requires SweptTo(segs, s0.files, end) && SweepInv(s0, s, end)
    requires end <= cpos && NextSegment(s.files, cpos, clusters, refcount)
    requires CutAtEdges(s0.files, cpos, cpos + clusters)
    ensures SweptTo(segs + [Segment(cpos, clusters, refcount)], s0.files, cpos + clusters)
  {
    var seg, end' := Segment(cpos, clusters, refcount), cpos + clusters;
    var segs' := segs + [seg];
    forall c: nat
      ensures HeldBy(s0.files, seg, c)
      ensures c < end' && Held(s0.files, c) ==> InSegments(segs', c)
    {
      SegmentInside(s0, s, end, cpos, clusters, refcount, c);
      MoreSegments(segs, seg, c);
    }
    forall i | 0 <= i < |segs'|
      ensures IsSegment(s0.files, segs'[i], end')
    {
      assert i < |segs| ==> IsSegment(s0.files, segs[i], end);
    }
    forall i | 0 <= i < |segs|
      ensures segs[i].End() <= cpos
    {
      assert IsSegment(s0.files, segs[i], end);
    }
  }

  lemma MoreSegments(segs: seq<Segment>, seg: Segment, c: nat)
    ensures InSegments(segs + [seg], c) <==> InSegments(segs, c) || seg.Covers(c)
  {
    var segs' := segs + [seg];
    if i :| 0 <= i < |segs| && segs[i].Covers(c) {
      assert segs'[i].Covers(c);
    }
    if seg.Covers(c) {
      assert segs'[|segs|].Covers(c);
    }
  }

  /** When nothing is held beyond `end`: what stays, in terms of where the sweep has come to. */
  lemma SweepEnds(s0: Snapshot, pc: nat, end: nat, rfEnd: nat, c: nat)
    requires Low(s0.recs) && pc <= end && (end == 0 || Held(s0.files, end - 1)) && (pc == 0 || LiveAt(s0, pc - 1))
    requires forall d: nat | pc <= d < end :: !LiveAt(s0, d)
    requires forall d: nat | end <= d :: !Held(s0.files, d)
    ensures Stays(s0, rfEnd, c) <==>
            !Held(s0.files, c) && pc <= c && !WipedTo(s0, end, c) && (end <= c ==> !Cleared(s0.recs, end, rfEnd, c))
  {
    assert EndOfHeld(s0.files, end);
    forall e: nat | EndOfHeld(s0.files, e)
      ensures e == end
    {
    }
    assert (forall d: nat :: !WipedFrom(s0, d, c)) <==> !WipedTo(s0, end, c) by {
      forall d: nat | WipedFrom(s0, d, c)
        ensures d < end
      {
      }
    }
    if pc <= c {
      forall d: nat | c < d
        ensures !LiveAt(s0, d)
      {
      }
    } else if !Held(s0.files, c) {
      assert c < pc - 1 && LiveAt(s0, pc - 1);
    }
  }

  lemma SweepFinal(s0: Snapshot, s: Snapshot, end: nat, rfEnd: nat, recs: seq<Rec>)
    requires SweepInv(s0, s, end) && Stored(s.recs)
    requires forall d: nat | end <= d :: !Held(s0.files, d)
    requires forall i | 0 <= i < |s0.recs| :: s0.recs[i].End() <= rfEnd
    requires if rfEnd > end
             then forall c: nat :: CountAt(recs, c) == if Cleared(s.recs, end, rfEnd, c) then 0 else CountAt(s.recs, c)
             else recs == s.recs
    ensures forall c: nat :: CountRepaired(s0, rfEnd, s.(recs := recs), c)
  {
    forall d: nat | s.pc <= d < end
      ensures !LiveAt(s0, d)
    {
      assert SweepAt(s0, s, end, d);
    }
    forall c: nat
      ensures CountRepaired(s0, rfEnd, s.(recs := recs), c)
    {
      if c >= rfEnd {
        CountAtUncovered(s0.recs, c);
      }
      assert SweepAt(s0, s, end, c);
      SweepEnds(s0, s.pc, end, rfEnd, c);
      ClearedSame(s0.recs, s.recs, end, rfEnd, c);
      LandingAbove(s0.recs, end, rfEnd);
    }
  }

  lemma SweepFinalMarks(s0: Snapshot, s: Snapshot, end: nat, recs: seq<Rec>)
    requires SweepInv(s0, s, end)
    requires forall d: nat | end <= d :: !Held(s0.files, d)
    ensures forall c: nat :: MarksRepaired(s0, s.(recs := recs), c)
  {
    forall c: nat
      ensures MarksRepaired(s0, s.(recs := recs), c)
    {
      assert SweepAt(s0, s, end, c);
    }
  }

  lemma WrapCancels(total: nat, p: nat)
    requires p < total && total - p < UINT32_RANGE
    ensures (total % UINT32_RANGE - p) % UINT32_RANGE == total - p
  {
    var q := total / UINT32_RANGE;
    assert total % UINT32_RANGE == total - q * UINT32_RANGE;
  }

  /** The range lies inside one record, or inside a gap between records. */
  ghost predicate InOneRecord(rs: seq<Rec>, start: nat, len: nat) {
    || (exists r | r in rs :: r.cpos <= start && start + len <= r.End())
    || (forall r | r in rs :: r.End() <= start || start + len <= r.cpos)
  }

  /** The part of an answer that lies in the range asked for is in one record, or in a gap. */
  lemma OneAnswer(rs: seq<Rec>, start: nat, len: nat, rec: Rec, index: nat, n: nat)
    requires WellFormed(rs) && start + n <= rec.End()
    requires Real(rs, start, rec, index) || Faked(rs, start, len, rec, index)
    ensures InOneRecord(rs, start, n)
  {
    if Faked(rs, start, len, rec, index) {
      FakedUncovered(rs, start, len, rec, index);
    } else {
      assert rs[index] in rs;
    }
  }

  lemma OneRecordSpans(rs: seq<Rec>, start: nat, len: nat, rec: Rec, index: nat)
    requires WellFormed(rs) && len > 0 && InOneRecord(rs, start, len)
    requires Real(rs, start, rec, index) || Faked(rs, start, len, rec, index)
    ensures start + len <= rec.End()
  {
    assert index < |rs| ==> rs[index] in rs;
    if r :| r in rs && r.cpos <= start && start + len <= r.End() {
      AnswerOrBeside(rs, start, len, rec, index, r);
    }
  }

  // ---- when the repaired tree is right ------------------------------------------------------

  /** The list is in order and counts the sharing files wherever nobody else claims a cluster. */
  ghost predicate GoesRight(s0: Snapshot, recs: seq<Rec>) {
    WellFormed(recs) && forall c: nat | LiveAt(s0, c) :: CountAt(recs, c) == HoldCount(s0.files, c)
  }

  /** The check goes right under its condition on records with a count of zero. */
  lemma RightIf(s0: Snapshot, rfEnd: nat, s: Snapshot)
    requires TreeRepaired(s0, rfEnd, s) && Stored(s.recs)
    ensures GoesRight(s0, s.recs)
  {
    forall c: nat | LiveAt(s0, c)
      ensures CountAt(s.recs, c) == HoldCount(s0.files, c)
    {
      assert CountRepaired(s0, rfEnd, s, c);
    }
  }

  /** No run of edits whatever goes right without that condition. */
  lemma RightOnlyIf(s0: Snapshot, lists: seq<seq<Rec>>)
    requires IsRun(lists) && lists[0] == s0.recs && GoesRight(s0, lists[|lists|-1])
    ensures ZerosOffLive(s0)
  {
    forall r, c: nat | r in s0.recs && r.refcount == 0 && r.Covers(c)
      ensures !LiveAt(s0, c)
    {
      ZeroRecordStays(lists, r, c);
    }
  }

  /**
   One file at cluster 12 and a record (10, 10) with a count of zero.  The record is doubled with a count of one, the
   length wraps, and the gap from 22 on gets a record as well; the clearing behind cluster 12 then takes 13 to 19
   out of the doubled record.  Cluster 11, which nobody holds, is left with a count, and the list is out of order.
   */
  lemma ZeroRecordDoubled()
    ensures var files, recs := [[Extent(0, 1, 12)]], [Rec(10, 10, 0)];
            && ValidFiles(files) && Stored(recs) && !ZerosOffLive(Snapshot(files, recs, 0, {}, {}))
            && var a := InsertRec(recs, Rec(10, 10, 1), 0);
               var b := InsertRec(a, Rec(22, UINT32_RANGE - 9, 1), 2);
               var d := SplitRec(b, Rec(13, 7, 0), 0);
               && IsRun([recs, a, b, d]) && CountAt(d, 11) == 1 && !Held(files, 11) && !WellFormed(d)
  {
    var f, r := [Extent(0, 1, 12)], Rec(10, 10, 0);
    var files, recs := [f], [r];
    assert files[..0] == [] && f[0].Covers(12) && Holds(f, 12) && !Holds(f, 11);
    assert HoldCount(files, 12) == HoldCount([], 12) + 1 && HoldCount(files, 11) == HoldCount([], 11);
    assert LiveAt(Snapshot(files, recs, 0, {}, {}), 12) && r.Covers(12);
    DoubledEdits();
  }

  lemma DoubledEdits()
    ensures var recs := [Rec(10, 10, 0)];
            var a := InsertRec(recs, Rec(10, 10, 1), 0);
            var b := InsertRec(a, Rec(22, UINT32_RANGE - 9, 1), 2);
            var d := SplitRec(b, Rec(13, 7, 0), 0);
            IsRun([recs, a, b, d]) && CountAt(d, 11) == 1 && !WellFormed(d)
  {
    var r, big := Rec(10, 10, 0), Rec(22, UINT32_RANGE - 9, 1);
    var recs, a, b, d := [r], [Rec(10, 10, 1), r], [Rec(10, 10, 1), r, big], [Rec(10, 3, 1), r, big];
    assert InsertRec(recs, Rec(10, 10, 1), 0) == a && Inserted(recs, a, 0, Rec(10, 10, 1));
    assert InsertRec(a, big, 2) == b && Inserted(a, b, 2, big);
    assert SplitRec(b, Rec(13, 7, 0), 0) == d && Split(b, d, 0, Rec(13, 7, 0));
    assert !Before(d[0], d[1]);
    assert d == [d[0]] + [r, big];
    CountAtConcat([d[0]], [r, big], 11);
    CountAtConcat([r], [big], 11);
    assert [r, big] == [r] + [big];
    CountAtOne(d[0], 11);
    CountAtOne(r, 11);
    CountAtOne(big, 11);
  }

  /** The count that the tree ought to have: the sharing files, and nothing for a cluster claimed twice. */
  ghost function Exact(s0: Snapshot, c: nat): nat { if Claimed(s0, c) then 0 else HoldCount(s0.files, c) }

  /** A stray count that stays. */
  ghost predicate StrayAt(s0: Snapshot, rfEnd: nat, c: nat)
    requires Low(s0.recs)
  {
    CountAt(s0.recs, c) > 0 && Stays(s0, rfEnd, c)
  }

  /** The repaired tree is exact if and only if no stray count stays. */
  lemma ExactIffNothingStays(s0: Snapshot, rfEnd: nat, s: Snapshot)
    requires TreeRepaired(s0, rfEnd, s)
    ensures (forall c: nat :: CountAt(s.recs, c) == Exact(s0, c)) <==> !(exists c: nat :: StrayAt(s0, rfEnd, c))
  {
    forall c: nat
      ensures CountAt(s.recs, c) == Exact(s0, c) <==> !StrayAt(s0, rfEnd, c)
    {
      assert CountRepaired(s0, rfEnd, s, c);
    }
  }

  /** An unheld cluster behind which held clusters exist, but only claimed ones. */
  ghost predicate Stranded(s0: Snapshot, c: nat) {
    && !Held(s0.files, c)
    && (exists d: nat :: c < d && Held(s0.files, d))
    && (forall d: nat :: c < d && Held(s0.files, d) ==> Claimed(s0, d))
  }

  lemma {:induction false} LastHeld(files: seq<FileExtents>, n: nat) returns (e: nat)
    requires forall d: nat | n <= d :: !Held(files, d)
    ensures EndOfHeld(files, e) && e <= n
  {
    e := n;
    if n > 0 && !Held(files, n - 1) {
      e := LastHeld(files, n - 1);
    }
  }

  /**
   With no record that counts nothing on a held cluster, a stray stays exactly if it is stranded below held
   clusters that are all claimed by others: a segment that starts with a duplicate skips the clearing of the
   gap before it, and the clearing after the sweep starts at the last segment's end.
   */
  lemma StaysIffStranded(s0: Snapshot, rfEnd: nat, c: nat)
    requires Stored(s0.recs) && ZerosOffHeld(s0.files, s0.recs) && CountAt(s0.recs, c) > 0
    requires forall i | 0 <= i < |s0.recs| :: s0.recs[i].End() <= rfEnd
    ensures Stays(s0, rfEnd, c) <==> Stranded(s0, c)
  {
    forall d: nat | Held(s0.files, d)
      ensures !Wipes(s0.recs, d, c) && !CutAt(s0.recs, d + 1)
    {
      if r :| r in s0.recs && (Inside(r, d) || Inside(r, d + 1)) {
        assert r.Covers(d);
        assert false;
      }
    }
    if c >= rfEnd {
      CountAtUncovered(s0.recs, c);
    }
    if Stranded(s0, c) {
      forall e: nat | EndOfHeld(s0.files, e)
        ensures c < e
      {
      }
    } else if Stays(s0, rfEnd, c) {
      forall d: nat | c < d && Held(s0.files, d)
        ensures Claimed(s0, d)
      {
        assert !LiveAt(s0, d);
      }
      NothingBehind(s0, rfEnd, c);
    }
  }

  /** Behind the last held cluster everything is cleared. */
  lemma NothingBehind(s0: Snapshot, rfEnd: nat, c: nat)
    requires Stored(s0.recs) && ZerosOffHeld(s0.files, s0.recs) && c < rfEnd && !Held(s0.files, c)
    requires forall i | 0 <= i < |s0.recs| :: s0.recs[i].End() <= rfEnd
    requires !exists d: nat :: c < d && Held(s0.files, d)
    ensures !Stays(s0, rfEnd, c)
  {
    var e := LastHeld(s0.files, c);
    forall r | r in s0.recs && r.refcount == 0
      ensures !Inside(r, rfEnd) && !Inside(r, e)
    {
      assert e > 0 ==> !r.Covers(e - 1);
    }
    PlainClearing(s0.recs, e, rfEnd, c);
  }

  /** With no held cluster claimed before, each count is the number of sharing files. */
  lemma NoDuplicatesExact(s0: Snapshot, rfEnd: nat, s: Snapshot, c: nat)
    requires TreeRepaired(s0, rfEnd, s) && ZerosOffLive(s0) && forall d: nat | Held(s0.files, d) :: !Claimed(s0, d)
    requires forall i | 0 <= i < |s0.recs| :: s0.recs[i].End() <= rfEnd
    ensures CountAt(s.recs, c) == HoldCount(s0.files, c)
  {
    assert CountRepaired(s0, rfEnd, s, c);
    forall r, d: nat | r in s0.recs && r.refcount == 0 && r.Covers(d)
      ensures !Held(s0.files, d)
    {
      assert !LiveAt(s0, d);
    }
    if CountAt(s0.recs, c) > 0 {
      StaysIffStranded(s0, rfEnd, c);
    }
  }

  /** One file at cluster 5, which somebody else also owns, and a stray record at cluster 2: it stays. */
  lemma StrayRecordSurvives(s: Snapshot)
    requires TreeRepaired(Snapshot([[Extent(0, 1, 5)]], [Rec(2, 1, 3)], 0, {5}, {}), 3, s)
    ensures CountAt(s.recs, 2) == 3
  {
    var f, r := [Extent(0, 1, 5)], Rec(2, 1, 3);
    var s0 := Snapshot([f], [r], 0, {5}, {});
    forall c: nat
      ensures Held(s0.files, c) <==> c == 5
    {
      assert s0.files[..0] == [];
      assert f[0].Covers(5);
      assert HoldCount(s0.files, c) == HoldCount([], c) + (if Holds(f, c) then 1 else 0);
    }
    CountAtOne(r, 2);
    assert Held(s0.files, 5);
    StaysIffStranded(s0, 3, 2);
    assert CountRepaired(s0, 3, s, 2);
  }
}
