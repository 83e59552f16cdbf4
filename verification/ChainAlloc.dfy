/**
 Repair of a chain allocator (fsck.ocfs2/pass0.c): an inode holds an array of chain records, each the
 head of a linked list of group descriptors.  Group, chain and inode counts are made to agree, and
 empty chains are removed from the array.  This is the case of the inode and extent allocators.
 */
module ChainAlloc {
  import opened DiscontigGroup
  import opened Common

  /** A block group descriptor. */
  datatype Group = Group(
    blkno: nat, bits: nat, freeBits: nat, chain: nat, next: nat, parent: nat, generation: nat,
    bitmap: seq<bool>, extents: Option<ExtentList>)

  datatype ChainRec = ChainRec(total: nat, free: nat, blkno: nat)

  /** Clusters that were marked in use: `count` of them from `start` on. */
  datatype Run = Run(start: nat, count: nat)

  /**
   What stays fixed: the allocator inode and its geometry, the volume, and the blocks for which a
   look at the recorded parent finds the group there as well.
   */
  datatype Setup = Setup(
    ino: nat, generation: nat, cpg: nat, bpc: nat, clusterSize: nat, volume: Volume, elsewhere: set<nat>)

  type Groups = map<nat, Group>

  // ---- one group ----------------------------------------------------------------------------

  function CountClear(bitmap: seq<bool>): nat {
    if bitmap == [] then 0 else CountClear(bitmap[..|bitmap|-1]) + if bitmap[|bitmap|-1] then 0 else 1
  }

  /** The first bit from `start` on that has the given value, or `n`. */
  method FindNextBit(bitmap: seq<bool>, n: nat, start: nat, value: bool) returns (i: nat)
    requires start <= n <= |bitmap|
    ensures start <= i <= n && (i < n ==> bitmap[i] == value)
    ensures forall k | start <= k < i :: bitmap[k] != value
  {
    i := start;
    while i < n && bitmap[i] != value
      invariant start <= i <= n && forall k | start <= k < i :: bitmap[k] != value
    {
      i := i + 1;
    }
  }

  lemma {:induction false} CountRun(bitmap: seq<bool>, a: nat, b: nat, value: bool)
    requires a <= b <= |bitmap| && forall k | a <= k < b :: bitmap[k] == value
    ensures CountClear(bitmap[..b]) == CountClear(bitmap[..a]) + if value then 0 else b - a
    decreases b
  {
    if a < b {
      CountRun(bitmap, a, b - 1, value);
      assert bitmap[..b][..b-1] == bitmap[..b-1];
    }
  }

  /** Adds up the runs of clear bits. */
  method FindMaxFreeBits(g: Group) returns (n: nat)
    requires g.bits <= |g.bitmap|
    ensures n == CountClear(g.bitmap[..g.bits])
  {
    n := 0;
    var end := 0;
    while end < g.bits
      invariant end <= g.bits && n == CountClear(g.bitmap[..end])
    {
      var start := FindNextBit(g.bitmap, g.bits, end, false);
      CountRun(g.bitmap, end, start, true);
      if start >= g.bits {
        end := g.bits;
        break;
      }
      end := FindNextBit(g.bitmap, g.bits, start, true);
      CountRun(g.bitmap, start, end, false);
      n := n + (end - start);
    }
  }

  predicate BitmapOk(g: Group) { g.bits <= |g.bitmap| }

  /** The group at the block stays in the allocator. */
  predicate Keepable(c: Setup, groups: Groups, b: nat) {
    && b != 0 && !OutOfRange(c.volume, b)
    && b in groups && groups[b].generation == c.generation
    && !(groups[b].parent != c.ino && b in c.elsewhere)
    && (groups[b].extents.Some? ==> Checked(c.volume, c.cpg, groups[b].extents.value).Some?)
  }

  /** A group has no more free bits than its bitmap has clear ones. */
  function FreeBits(g: Group): nat
    requires BitmapOk(g)
  {
    Min(CountClear(g.bitmap[..g.bits]), g.freeBits)
  }

  /** A kept group after its descriptor has been repaired. */
  function Repaired(c: Setup, g: Group, b: nat, chain: nat): Group
    requires BitmapOk(g)
  {
    g.(blkno := b, chain := chain, parent := c.ino, freeBits := FreeBits(g),
       extents := if g.extents.Some? then Checked(c.volume, c.cpg, g.extents.value) else None)
  }

  /** The clusters that belong to a group, in the order in which they are marked. */
  function RunsOf(c: Setup, g: Group): seq<Run>
    requires c.volume.blocksPerCluster > 0
  {
    match g.extents
    case None => [Run(g.blkno / c.volume.blocksPerCluster, c.cpg)]
    case Some(l) => RecRuns(c, l.recs, Min(l.nextFree, |l.recs|))
  }

  function RecRuns(c: Setup, recs: seq<Rec>, n: nat): (r: seq<Run>)
    requires c.volume.blocksPerCluster > 0 && n <= |recs|
    ensures |r| == n
  {
    if n == 0 then []
    else RecRuns(c, recs, n - 1) + [Run(recs[n-1].blkno / c.volume.blocksPerCluster, recs[n-1].clusters)]
  }

  function RunSum(runs: seq<Run>): nat { if runs == [] then 0 else RunSum(runs[..|runs|-1]) + runs[|runs|-1].count }

  lemma {:induction false} RecRunsSum(c: Setup, recs: seq<Rec>, n: nat)
    requires c.volume.blocksPerCluster > 0 && n <= |recs|
    ensures RunSum(RecRuns(c, recs, n)) == Sum(recs[..n])
  {
    if n > 0 {
      RecRunsSum(c, recs, n - 1);
      SumStep(recs, n - 1);
      assert RecRuns(c, recs, n)[..n-1] == RecRuns(c, recs, n - 1);
    }
  }

  /** The clusters that are marked for the group at a block. */
  ghost function GroupRuns(c: Setup, groups: Groups, b: nat): seq<Run>
    requires c.volume.blocksPerCluster > 0
  {
    if b in groups && BitmapOk(groups[b]) then RunsOf(c, Repaired(c, groups[b], b, 0)) else []
  }

  /** The clusters that are marked for the first `n` groups of a chain. */
  ghost function ChainRuns(c: Setup, groups: Groups, p: seq<nat>, n: nat): seq<Run>
    requires c.volume.blocksPerCluster > 0 && n <= |p|
  {
    if n == 0 then [] else ChainRuns(c, groups, p, n - 1) + GroupRuns(c, groups, p[n-1])
  }

  /** The clusters of the first `n` groups of the chain have been marked. */
  ghost predicate GroupsMarked(c: Setup, groups: Groups, p: seq<nat>, n: nat, before: seq<Run>, marks: seq<Run>) {
    c.volume.blocksPerCluster > 0 && n <= |p| && marks == before + ChainRuns(c, groups, p, n)
  }

  lemma OneMoreMarked(c: Setup, groups: Groups, p: seq<nat>, n: nat, before: seq<Run>, marks: seq<Run>)
    requires GroupsMarked(c, groups, p, n, before, marks) && n < |p|
    ensures GroupsMarked(c, groups, p, n + 1, before, marks + GroupRuns(c, groups, p[n]))
  {
    var a, b := ChainRuns(c, groups, p, n), GroupRuns(c, groups, p[n]);
    assert before + a + b == before + (a + b);
  }

  /** Every kept group is marked with exactly the clusters of a group. */
  lemma KeptGroupMarks(c: Setup, groups: Groups, b: nat)
    requires c.volume.blocksPerCluster > 0 && Keepable(c, groups, b) && BitmapOk(groups[b])
    ensures RunSum(GroupRuns(c, groups, b)) == c.cpg
  {
    var g := groups[b];
    if g.extents.Some? {
      var l := Checked(c.volume, c.cpg, g.extents.value).value;
      CheckedIsSound(c.volume, c.cpg, g.extents.value);
      RecRunsSum(c, l.recs, l.nextFree);
    }
  }

  /** The clusters of `n` groups. */
  function GroupClusters(cpg: nat, n: nat): nat { if n == 0 then 0 else GroupClusters(cpg, n - 1) + cpg }

  /** So a chain is marked with as many clusters as its groups have. */
  lemma {:induction false} ChainMarks(c: Setup, groups: Groups, p: seq<nat>, n: nat)
    requires c.volume.blocksPerCluster > 0 && n <= |p| && BitmapsOk(groups)
    requires forall k | 0 <= k < |p| :: Keepable(c, groups, p[k])
    ensures RunSum(ChainRuns(c, groups, p, n)) == GroupClusters(c.cpg, n)
  {
    if n > 0 {
      ChainMarks(c, groups, p, n - 1);
      KeptGroupMarks(c, groups, p[n-1]);
      var front, last := ChainRuns(c, groups, p, n - 1), GroupRuns(c, groups, p[n-1]);
      RunSumConcat(front, last);
      assert ChainRuns(c, groups, p, n) == front + last;
    }
  }

  // ---- one chain ----------------------------------------------------------------------------

  /** The groups of a chain that stay, looking at no more than `n` of them. */
  ghost function Kept(c: Setup, groups: Groups, b: nat, n: nat): (p: seq<nat>)
    ensures |p| <= n
    ensures forall k | 0 <= k < |p| :: Keepable(c, groups, p[k])
    decreases n
  {
    if n == 0 || !Keepable(c, groups, b) then [] else [b] + Kept(c, groups, groups[b].next, n - 1)
  }

  /** A chain that ends early does so within any longer bound. */
  lemma {:induction false} KeptStable(c: Setup, groups: Groups, b: nat, m: nat, n: nat)
    requires |Kept(c, groups, b, m)| < m && |Kept(c, groups, b, n)| < n
    ensures Kept(c, groups, b, m) == Kept(c, groups, b, n)
    decreases m
  {
    if Keepable(c, groups, b) {
      KeptStable(c, groups, groups[b].next, m - 1, n - 1);
    }
  }

  /** The reference that leads to group `depth` of the chain. */
  ghost function LinkAt(g0: Groups, p: seq<nat>, head: nat, depth: nat): nat {
    if depth == 0 then head else if depth <= |p| && p[depth-1] in g0 then g0[p[depth-1]].next else 0
  }

  lemma {:induction false} LinkIsKept(c: Setup, g0: Groups, head: nat, n: nat, p: seq<nat>, depth: nat)
    requires p == Kept(c, g0, head, n) && depth <= |p|
    ensures Kept(c, g0, LinkAt(g0, p, head, depth), n - depth) == p[depth..]
    ensures depth < |p| ==> LinkAt(g0, p, head, depth) == p[depth]
    decreases depth
  {
    if depth > 0 {
      var next := g0[head].next;
      var q := Kept(c, g0, next, n - 1);
      LinkIsKept(c, g0, next, n - 1, q, depth - 1);
      assert p == [head] + q;
      assert LinkAt(g0, p, head, depth) == LinkAt(g0, q, next, depth - 1);
      assert p[depth..] == q[depth-1..];
    }
  }

  /** Within the bound no group comes twice. */
  lemma KeptDistinct(c: Setup, g0: Groups, head: nat, n: nat, p: seq<nat>, i: nat, k: nat)
    requires p == Kept(c, g0, head, n) && |p| < n && i < k < |p|
    ensures p[i] != p[k]
  {
    LinkIsKept(c, g0, head, n, p, i);
    LinkIsKept(c, g0, head, n, p, k);
    if p[i] == p[k] {
      KeptStable(c, g0, p[i], n - i, n - k);
    }
  }

  ghost predicate BitmapsOk(groups: Groups) { forall b | b in groups :: BitmapOk(groups[b]) }

  /** The bits of some groups. */
  ghost function BitSum(groups: Groups, p: seq<nat>): nat {
    if p == [] then 0 else BitSum(groups, p[..|p|-1]) + BitsAt(groups, p[|p|-1])
  }

  ghost function BitsAt(groups: Groups, b: nat): nat { if b in groups then groups[b].bits else 0 }

  /** The free bits of some groups, once repaired. */
  ghost function FreeSum(groups: Groups, p: seq<nat>): nat {
    if p == [] then 0 else FreeSum(groups, p[..|p|-1]) + FreeAt(groups, p[|p|-1])
  }

  ghost function FreeAt(groups: Groups, b: nat): nat {
    if b in groups && BitmapOk(groups[b]) then FreeBits(groups[b]) else 0
  }

  ghost predicate SameAt(g0: Groups, g: Groups, b: nat) {
    (b in g <==> b in g0) && (b in g0 && b in g ==> g[b] == g0[b])
  }

  ghost predicate RepairedAt(c: Setup, g0: Groups, g: Groups, p: seq<nat>, chain: nat, k: nat) {
    k < |p| ==> p[k] in g0 && p[k] in g && BitmapOk(g0[p[k]]) && g[p[k]] == Repaired(c, g0[p[k]], p[k], chain)
  }

  /** The first `depth` groups of the chain are repaired and nothing else has changed. */
  ghost predicate RepairedTo(c: Setup, g0: Groups, g: Groups, p: seq<nat>, chain: nat, depth: nat) {
    && depth <= |p|
    && (forall k: nat :: k < depth ==> RepairedAt(c, g0, g, p, chain, k))
    && (forall b: nat :: b in p[..depth] || SameAt(g0, g, b))
  }

  /** A group of a finished chain: repaired, and linked to the next one or to none. */
  ghost predicate FixedAt(c: Setup, g0: Groups, g: Groups, p: seq<nat>, chain: nat, k: nat) {
    k < |p| ==>
      && p[k] in g0 && p[k] in g && BitmapOk(g0[p[k]])
      && g[p[k]] == Repaired(c, g0[p[k]], p[k], chain).(next := if k + 1 < |p| then p[k+1] else 0)
  }

  /** The chain is finished and nothing else has changed. */
  ghost predicate ChainFixed(c: Setup, g0: Groups, g: Groups, p: seq<nat>, chain: nat) {
    && (forall k: nat :: FixedAt(c, g0, g, p, chain, k))
    && (forall b: nat :: b in p || SameAt(g0, g, b))
  }

  ghost predicate GoodSetup(c: Setup) { c.volume.blocksPerCluster > 0 && c.cpg > 0 && c.bpc > 0 }

  class Allocator {
    var groups: Groups
    var recs: seq<ChainRec>
    var count: nat
    var nextFree: nat
    var bitsTotal: nat
    var bitsUsed: nat
    var clusters: nat
    var size: nat
    var marks: seq<Run>
    const setup: Setup

    constructor (setup: Setup, groups: Groups, recs: seq<ChainRec>, count: nat, nextFree: nat,
                 bitsTotal: nat, bitsUsed: nat, clusters: nat, size: nat)
      ensures this.setup == setup && this.groups == groups && this.recs == recs
      ensures this.count == count && this.nextFree == nextFree && marks == []
      ensures this.bitsTotal == bitsTotal && this.bitsUsed == bitsUsed && this.clusters == clusters && this.size == size
    {
      this.setup, this.groups, this.recs, this.count, this.nextFree := setup, groups, recs, count, nextFree;
      this.bitsTotal, this.bitsUsed, this.clusters, this.size, this.marks := bitsTotal, bitsUsed, clusters, size, [];
    }

    /** Checks the group that a chain refers to and repairs its descriptor. */
    method CheckGroup(blkno: nat, chain: nat) returns (keep: bool)
      requires blkno != 0 && BitmapsOk(groups)
      modifies this`groups
      ensures keep <==> Keepable(setup, old(groups), blkno)
      ensures keep ==> groups == old(groups)[blkno := Repaired(setup, old(groups)[blkno], blkno, chain)]
      ensures !keep ==> groups == old(groups)
    {
      if OutOfRange(setup.volume, blkno) || blkno !in groups || groups[blkno].generation != setup.generation {
        return false;
      }
      var bg := groups[blkno];
      if bg.parent != setup.ino {
        if blkno in setup.elsewhere {
          return false;
        }
        bg := bg.(parent := setup.ino);
      }
      bg := bg.(blkno := blkno, chain := chain);
      var maxFree := FindMaxFreeBits(bg);
      if bg.freeBits > maxFree {
        bg := bg.(freeBits := maxFree);
      }
      if bg.extents.Some? {
        var l := CheckDiscontigBg(setup.volume, setup.cpg, bg.extents.value);
        if l.None? {
          return false;
        }
        bg := bg.(extents := l);
      }
      groups := groups[blkno := bg];
      keep := true;
    }

    /** Marks the clusters of a group in use. */
    method MarkGroupUsed(g: Group)
      requires setup.volume.blocksPerCluster > 0
      requires g.extents.Some? ==> g.extents.value.nextFree <= |g.extents.value.recs|
      modifies this`marks
      ensures marks == old(marks) + RunsOf(setup, g)
    {
      if g.extents.None? {
        marks := marks + [Run(g.blkno / setup.volume.blocksPerCluster, setup.cpg)];
        return;
      }
      var l := g.extents.value;
      for i := 0 to l.nextFree
        invariant marks == old(marks) + RecRuns(setup, l.recs, i)
      {
        marks := marks + [Run(l.recs[i].blkno / setup.volume.blocksPerCluster, l.recs[i].clusters)];
      }
    }

    /**
     Follows one chain, repairs its groups, cuts it before the first group that does not stay, and
     adds up its bits.
     */
    method CheckChain(chain: nat, head: nat, maxDepth: nat, ghost p: seq<nat>)
      returns (head': nat, total: nat, free: nat)
      requires GoodSetup(setup) && BitmapsOk(groups) && p == Kept(setup, groups, head, maxDepth + 1) && |p| <= maxDepth
      modifies this`groups, this`marks
      ensures ChainFixed(setup, old(groups), groups, p, chain)
      ensures head' == if p == [] then 0 else head
      ensures total == BitSum(old(groups), p) % UINT32_RANGE && free == FreeSum(old(groups), p) % UINT32_RANGE
      ensures marks == old(marks) + ChainRuns(setup, old(groups), p, |p|)
    {
      ghost var g0, n, marked := groups, maxDepth + 1, 0;
      var depth, last, done, clearRef := 0, 0, false, false;
      head', total, free := head, 0, 0;
      while !done
        invariant ChainAt(setup, g0, groups, p, head, chain, depth, last, total, free)
        invariant done ==> depth == |p| == marked && (clearRef || LinkAt(g0, p, head, depth) == 0)
        invariant !done ==> !clearRef && marked == if depth == 0 then 0 else depth - 1
        invariant GroupsMarked(setup, g0, p, marked, old(marks), marks)
        decreases n - depth, !done
      {
        var blkno := head;
        if depth > 0 {
          blkno := MarkLast(last, g0, p, head, chain, depth, total, free, old(marks));
          marked := marked + 1;
        }
        if blkno == 0 {
          ZeroEnds(setup, g0, groups, p, head, n, chain, depth, last, total, free);
          done := true;
        } else {
          var keep;
          keep, total, free := TakeGroup(blkno, chain, total, free, g0, p, head, n, depth, last);
          if !keep {
            clearRef, done := true, true;
          } else {
            last, depth := blkno, depth + 1;
            if depth > maxDepth {
              assert false;
            }
          }
        }
      }
      head' := CutChain(head, clearRef, depth, last, g0, p, n, chain, total, free);
    }

    /** Takes the next group into the chain if it stays. */
    method TakeGroup(blkno: nat, chain: nat, total: nat, free: nat, ghost g0: Groups, ghost p: seq<nat>,
                     ghost head: nat, ghost n: nat, ghost depth: nat, ghost last: nat)
      returns (keep: bool, total': nat, free': nat)
      requires p == Kept(setup, g0, head, n) && |p| < n && blkno == LinkAt(g0, p, head, depth) && blkno != 0
      requires ChainAt(setup, g0, groups, p, head, chain, depth, last, total, free)
      modifies this`groups
      ensures keep <==> depth < |p|
      ensures ChainAt(setup, g0, groups, p, head, chain, if keep then depth + 1 else depth,
                      if keep then blkno else last,
                      total', free')
    {
      total', free' := total, free;
      NextInChain(setup, g0, groups, p, head, n, chain, depth, last, total, free);
      ghost var was := groups;
      keep := CheckGroup(blkno, chain);
      if keep {
        OneMoreGroup(setup, g0, was, groups, p, head, chain, depth, last, total, free);
        total' := (total + groups[blkno].bits) % UINT32_RANGE;
        free' := (free + groups[blkno].freeBits) % UINT32_RANGE;
      }
    }

    /** Clears the reference to a group that does not stay. */
    method CutChain(head: nat, clearRef: bool, depth: nat, last: nat, ghost g0: Groups, ghost p: seq<nat>, ghost n: nat,
                    ghost chain: nat, ghost total: nat, ghost free: nat)
      returns (head': nat)
      requires p == Kept(setup, g0, head, n) && depth == |p| < n
      requires ChainAt(setup, g0, groups, p, head, chain, depth, last, total, free)
      requires clearRef || LinkAt(g0, p, head, depth) == 0
      modifies this`groups
      ensures ChainFixed(setup, g0, groups, p, chain)
      ensures head' == if p == [] then 0 else head
      ensures total == BitSum(g0, p) % UINT32_RANGE && free == FreeSum(g0, p) % UINT32_RANGE
    {
      head' := head;
      ghost var was := groups;
      if depth > 0 {
        assert RepairedAt(setup, g0, groups, p, chain, depth - 1);
      }
      if clearRef {
        if depth == 0 {
          head' := 0;
        } else {
          groups := groups[last := groups[last].(next := 0)];
        }
      }
      ChainCut(setup, g0, was, groups, p, head, n, chain, last, total, free);
      assert p[..|p|] == p;
    }

    /** Checks the chain of record `i`; an empty one is replaced by the last record in use. */
    method VerifyRec(i: nat, maxLen: nat, total: nat, free: nat, ghost g0: Groups, ghost ch: Chains,
                     ghost rs0: seq<ChainRec>, ghost before: seq<Run>)
      returns (i': nat, total': nat, free': nat)
      requires GoodSetup(setup) && i < nextFree <= |recs| && AreChains(setup, g0, maxLen + 1, ch)
      requires VerifiedTo(setup, g0, groups, maxLen + 1, ch, rs0, recs[..nextFree], i, total, free)
      requires MarkedTo(setup, g0, ch, recs[..nextFree], i, before, marks)
      modifies this`groups, this`marks, this`recs, this`nextFree
      ensures |recs| == |old(recs)| && i' <= nextFree <= |recs|
      ensures MarkedTo(setup, g0, ch, recs[..nextFree], i', before, marks)
      ensures VerifiedTo(setup, g0, groups, maxLen + 1, ch, rs0, recs[..nextFree], i', total', free')
      ensures nextFree - i' < old(nextFree) - i && nextFree <= old(nextFree)
    {
      ghost var g, rs, marks0 := groups, recs[..nextFree], marks;
      var head, t, f := FollowRec(i, maxLen, total, free, g0, ch, rs0);
      StoreRec(i, ChainRec(t, f, head));
      if head != 0 {
        total', free' := (total + t) % UINT32_RANGE, (free + f) % UINT32_RANGE;
        i' := i + 1;
        RecAdded(setup, g0, g, groups, maxLen + 1, ch, rs0, rs, i, total, free, head, t, f, before, marks0, marks);
      } else {
        i', total', free' := i, total, free;
        assert IsChainAt(setup, g0, maxLen + 1, ch, 0);
        RecRemoved(setup, g0, g, groups, maxLen + 1, ch, rs0, rs, i, total, free, head, t, f, before, marks0, marks,
                   recs[..nextFree]);
      }
    }

    /** Follows the chain of record `i`; what has been repaired before does not change it. */
    method FollowRec(i: nat, maxLen: nat, ghost total: nat, ghost free: nat, ghost g0: Groups, ghost ch: Chains,
                     ghost rs0: seq<ChainRec>)
      returns (head: nat, t: nat, f: nat)
      requires GoodSetup(setup) && i < nextFree <= |recs| && AreChains(setup, g0, maxLen + 1, ch)
      requires VerifiedTo(setup, g0, groups, maxLen + 1, ch, rs0, recs[..nextFree], i, total, free)
      modifies this`groups, this`marks
      ensures Followed(setup, g0, old(groups), groups, ch, recs[i], i, head, t, f, old(marks), marks)
    {
      ghost var g, rs := groups, recs[..nextFree];
      NextChainSame(setup, g0, g, maxLen + 1, ch, rs0, rs, i, total, free);
      assert ShortAt(ch, maxLen + 1, rs, i);
      head, t, f := CheckChain(i, recs[i].blkno, maxLen, ch(rs[i].blkno));
      FixedBitmaps(setup, g, groups, ch(rs[i].blkno), i);
      SumsSame(setup, g0, g, ch(rs[i].blkno));
      ChainFinished(setup, g0, g, groups, rs[i].blkno, maxLen + 1, ch(rs[i].blkno), i);
    }

    /** Stores what was found for the record; a record without groups goes. */
    method StoreRec(i: nat, r: ChainRec)
      requires i < nextFree <= |recs|
      modifies this`recs, this`nextFree
      ensures |recs| == |old(recs)| && nextFree == (if r.blkno == 0 then old(nextFree) - 1 else old(nextFree))
      ensures r.blkno != 0 ==> recs[..nextFree] == old(recs[..nextFree])[i := r]
      ensures r.blkno == 0 ==> recs[..nextFree] == old(recs[..nextFree])[i := old(recs[nextFree-1])][..nextFree]
    {
      UpdateRec(i, r);
      if r.blkno == 0 {
        RemoveRec(i);
      }
    }

    method UpdateRec(i: nat, r: ChainRec)
      requires i < nextFree <= |recs|
      modifies this`recs
      ensures |recs| == |old(recs)| && recs[..nextFree] == old(recs[..nextFree])[i := r]
    {
      recs := recs[i := r];
    }

    /** Copies the last record in use over an empty one. */
    method RemoveRec(i: nat)
      requires i < nextFree <= |recs|
      modifies this`recs, this`nextFree
      ensures |recs| == |old(recs)| && nextFree == old(nextFree) - 1
      ensures recs[..nextFree] == old(recs[..nextFree])[i := old(recs[nextFree-1])][..nextFree]
    {
      if i < nextFree - 1 {
        recs := recs[i := recs[nextFree-1]][nextFree-1 := ChainRec(0, 0, 0)];
      }
      nextFree := nextFree - 1;
    }

    /**
     Checks and repairs the whole allocator.  Afterwards the records in use are exactly the chains that
     are not empty, each once; groups, records and the inode agree.
     */
    method VerifyChainAlloc()
      requires GoodSetup(setup) && count > 0 && BitmapsOk(groups)
      requires ChainsOk(ChainsIn(setup, groups, MaxChainLen(setup, clusters, count) + 1),
                        MaxChainLen(setup, clusters, count) + 1,
                        UsedRecs(nextFree, count, recs))
      modifies this
      ensures |recs| == |old(recs)| && nextFree <= count == Min(old(count), |recs|)
      ensures Verified(setup, old(groups), groups,
                       ChainsIn(setup, old(groups), MaxChainLen(setup, old(clusters), old(count)) + 1),
                       UsedRecs(old(nextFree), old(count), old(recs)), recs[..nextFree], bitsTotal, bitsUsed)
      ensures MarkedTo(setup, old(groups),
                       ChainsIn(setup, old(groups), MaxChainLen(setup, old(clusters), old(count)) + 1),
                       recs[..nextFree], nextFree, old(marks), marks)
      ensures forall j | nextFree <= j < count :: recs[j] == ChainRec(0, 0, 0)
      ensures clusters == bitsTotal / setup.bpc && size == clusters * setup.clusterSize
    {
      var maxLen := MaxChainLen(setup, clusters, count);
      VerifyWithin(maxLen, ChainsIn(setup, groups, maxLen + 1));
      ClearUnused();
      TotalClusters();
    }

    /** Verifies the chains, none of which is longer than `maxLen`. */
    method VerifyWithin(maxLen: nat, ghost ch: Chains)
      requires GoodSetup(setup) && BitmapsOk(groups) && AreChains(setup, groups, maxLen + 1, ch)
      requires ChainsOk(ch, maxLen + 1, UsedRecs(nextFree, count, recs))
      modifies this`groups, this`marks, this`recs, this`count, this`nextFree, this`bitsTotal, this`bitsUsed
      ensures |recs| == |old(recs)| && nextFree <= count == Min(old(count), |recs|)
      ensures Verified(setup, old(groups), groups, ch,
                       UsedRecs(old(nextFree), old(count), old(recs)), recs[..nextFree], bitsTotal, bitsUsed)
      ensures MarkedTo(setup, old(groups), ch, recs[..nextFree], nextFree, old(marks), marks)
    {
      ghost var g0, rs0 := groups, UsedRecs(nextFree, count, recs);
      ClampRecs();
      NothingVerified(setup, g0, maxLen + 1, ch, rs0, recs[..nextFree]);
      var total, free, i := VerifyRecs(maxLen, g0, ch, rs0);
      bitsUsed, bitsTotal := (total - free) % UINT32_RANGE, total;
      AllVerified(setup, g0, groups, maxLen + 1, ch, rs0, recs[..nextFree], i, total, free, bitsUsed);
    }

    /** The size of the allocator follows from its bits. */
    method TotalClusters()
      requires setup.bpc > 0
      modifies this`clusters, this`size
      ensures clusters == bitsTotal / setup.bpc && size == clusters * setup.clusterSize
    {
      clusters := bitsTotal / setup.bpc;
      size := clusters * setup.clusterSize;
    }

    /** Clears impossible heads and brings the counts down to what the inode has room for. */
    method ClampRecs()
      modifies this`recs, this`count, this`nextFree
      ensures |recs| == |old(recs)| && count == Min(old(count), |recs|) && nextFree == Min(old(nextFree), count)
      ensures forall j | 0 <= j < |recs| :: recs[j] == HeadCleared(setup, old(recs)[j])
    {
      ClearBadHeads();
      if count > |recs| {
        count := |recs|;
      }
      if nextFree > count {
        nextFree := count;
      }
    }

    /** Checks chain after chain. */
    method VerifyRecs(maxLen: nat, ghost g0: Groups, ghost ch: Chains, ghost rs0: seq<ChainRec>)
      returns (total: nat, free: nat, i: nat)
      requires GoodSetup(setup) && nextFree <= |recs| && AreChains(setup, g0, maxLen + 1, ch)
      requires VerifiedTo(setup, g0, groups, maxLen + 1, ch, rs0, recs[..nextFree], 0, 0, 0)
      modifies this`groups, this`marks, this`recs, this`nextFree
      ensures |recs| == |old(recs)| && i == nextFree <= old(nextFree)
      ensures MarkedTo(setup, g0, ch, recs[..nextFree], i, old(marks), marks)
      ensures VerifiedTo(setup, g0, groups, maxLen + 1, ch, rs0, recs[..nextFree], i, total, free)
    {
      total, free, i := 0, 0, 0;
      while i < nextFree
        invariant i <= nextFree <= old(nextFree) <= |recs| == |old(recs)|
        invariant VerifiedTo(setup, g0, groups, maxLen + 1, ch, rs0, recs[..nextFree], i, total, free)
        invariant MarkedTo(setup, g0, ch, recs[..nextFree], i, old(marks), marks)
        decreases nextFree - i
      {
        i, total, free := VerifyRec(i, maxLen, total, free, g0, ch, rs0, old(marks));
      }
    }

    /** No record may start at a block outside the volume. */
    method ClearBadHeads()
      modifies this`recs
      ensures |recs| == |old(recs)|
      ensures forall j | 0 <= j < |recs| :: recs[j] == HeadCleared(setup, old(recs)[j])
    {
      for i := 0 to |recs|
        invariant |recs| == |old(recs)|
        invariant forall j | 0 <= j < i :: recs[j] == HeadCleared(setup, old(recs)[j])
        invariant forall j | i <= j < |recs| :: recs[j] == old(recs)[j]
      {
        if recs[i].blkno != 0 && OutOfRange(setup.volume, recs[i].blkno) {
          recs := recs[i := recs[i].(blkno := 0)];
        }
      }
    }

    /** The records that are not in use are wiped. */
    method ClearUnused()
      requires nextFree <= count <= |recs|
      modifies this`recs
      ensures |recs| == |old(recs)| && recs[..nextFree] == old(recs)[..nextFree]
      ensures forall j | nextFree <= j < count :: recs[j] == ChainRec(0, 0, 0)
    {
      for i := nextFree to count
        invariant |recs| == |old(recs)| && recs[..nextFree] == old(recs)[..nextFree]
        invariant forall j | nextFree <= j < i :: recs[j] == ChainRec(0, 0, 0)
      {
        recs := recs[i := ChainRec(0, 0, 0)];
      }
    }

    /** Marks the last group that was found good and takes the reference to the next one. */
    method MarkLast(last: nat, ghost g0: Groups, ghost p: seq<nat>, ghost head: nat, ghost chain: nat, ghost depth: nat,
                    ghost total: nat, ghost free: nat, ghost before: seq<Run>)
      returns (blkno: nat)
      requires GoodSetup(setup) && depth > 0 && ChainAt(setup, g0, groups, p, head, chain, depth, last, total, free)
      requires GroupsMarked(setup, g0, p, depth - 1, before, marks)
      modifies this`marks
      ensures GroupsMarked(setup, g0, p, depth, before, marks)
      ensures blkno == LinkAt(g0, p, head, depth)
    {
      assert RepairedAt(setup, g0, groups, p, chain, depth - 1);
      if g0[last].extents.Some? {
        KeptListFits(setup, g0, last);
      }
      OneMoreMarked(setup, g0, p, depth - 1, before, marks);
      MarkGroupUsed(groups[last]);
      blkno := groups[last].next;
    }
  }

  // ---- the steps of following a chain -------------------------------------------------------

  /** The chain has been followed through `depth` groups. */
  ghost predicate ChainAt(c: Setup, g0: Groups, g: Groups, p: seq<nat>, head: nat, chain: nat, depth: nat, last: nat,
                          total: nat, free: nat) {
    && RepairedTo(c, g0, g, p, chain, depth) && BitmapsOk(g0) && BitmapsOk(g)
    && (forall k | 0 <= k < |p| :: Keepable(c, g0, p[k]))
    && (depth > 0 ==> last == p[depth-1])
    && total == BitSum(g0, p[..depth]) % UINT32_RANGE
    && free == FreeSum(g0, p[..depth]) % UINT32_RANGE
  }

  lemma {:induction false} RunSumConcat(a: seq<Run>, b: seq<Run>)
    ensures RunSum(a + b) == RunSum(a) + RunSum(b)
  {
    if b == [] {
      assert a + b == a;
    } else {
      RunSumConcat(a, b[..|b|-1]);
      assert (a + b)[..|a+b|-1] == a + b[..|b|-1];
    }
  }

  lemma KeptListFits(c: Setup, groups: Groups, b: nat)
    requires GoodSetup(c) && Keepable(c, groups, b) && groups[b].extents.Some?
    ensures var l := Checked(c.volume, c.cpg, groups[b].extents.value).value; l.nextFree <= |l.recs|
  {
    CheckedIsSound(c.volume, c.cpg, groups[b].extents.value);
  }

  /** The next reference leads to a group that stays exactly when the chain goes on. */
  lemma NextInChain(c: Setup, g0: Groups, g: Groups, p: seq<nat>, head: nat, n: nat, chain: nat, depth: nat, last: nat,
                    total: nat, free: nat)
    requires p == Kept(c, g0, head, n) && |p| < n && ChainAt(c, g0, g, p, head, chain, depth, last, total, free)
    ensures var b := LinkAt(g0, p, head, depth);
            && (Keepable(c, g, b) <==> depth < |p|)
            && (depth < |p| ==> b == p[depth] && SameAt(g0, g, b) && forall k | 0 <= k < depth :: p[k] != p[depth])
  {
    var b := LinkAt(g0, p, head, depth);
    LinkIsKept(c, g0, head, n, p, depth);
    if depth < |p| {
      forall k | 0 <= k < depth
        ensures p[k] != b
      {
        KeptDistinct(c, g0, head, n, p, k, depth);
      }
      assert b !in p[..depth];
    } else {
      assert !Keepable(c, g0, b);
      assert b !in p[..depth];
    }
    assert SameAt(g0, g, b);
  }

  lemma ModAdd(x: nat, y: nat)
    ensures (x % UINT32_RANGE + y) % UINT32_RANGE == (x + y) % UINT32_RANGE
  {
  }

  lemma SumsStep(g0: Groups, p: seq<nat>, depth: nat)
    requires depth < |p|
    ensures BitSum(g0, p[..depth+1]) == BitSum(g0, p[..depth]) + BitsAt(g0, p[depth])
    ensures FreeSum(g0, p[..depth+1]) == FreeSum(g0, p[..depth]) + FreeAt(g0, p[depth])
  {
    assert p[..depth+1][..depth] == p[..depth];
  }

  lemma ZeroEnds(c: Setup, g0: Groups, g: Groups, p: seq<nat>, head: nat, n: nat, chain: nat, depth: nat, last: nat,
                 total: nat, free: nat)
    requires p == Kept(c, g0, head, n) && |p| < n && ChainAt(c, g0, g, p, head, chain, depth, last, total, free)
    requires LinkAt(g0, p, head, depth) == 0
    ensures depth == |p|
  {
    NextInChain(c, g0, g, p, head, n, chain, depth, last, total, free);
  }

  lemma OneMoreGroup(c: Setup, g0: Groups, g: Groups, g': Groups, p: seq<nat>, head: nat, chain: nat, depth: nat,
                     last: nat, total: nat, free: nat)
    requires depth < |p| && ChainAt(c, g0, g, p, head, chain, depth, last, total, free)
    requires p[depth] in g && SameAt(g0, g, p[depth])
    requires g' == g[p[depth] := Repaired(c, g[p[depth]], p[depth], chain)]
    requires forall k | 0 <= k < depth :: p[k] != p[depth]
    ensures ChainAt(c, g0, g', p, head, chain, depth + 1, p[depth], (total + g'[p[depth]].bits) % UINT32_RANGE,
                    (free + g'[p[depth]].freeBits) % UINT32_RANGE)
  {
    SumsStep(g0, p, depth);
    ModAdd(BitSum(g0, p[..depth]), BitsAt(g0, p[depth]));
    ModAdd(FreeSum(g0, p[..depth]), FreeAt(g0, p[depth]));
    RepairedStep(c, g0, g, g', p, chain, depth);
  }

  lemma RepairedStep(c: Setup, g0: Groups, g: Groups, g': Groups, p: seq<nat>, chain: nat, depth: nat)
    requires depth < |p| && RepairedTo(c, g0, g, p, chain, depth) && BitmapsOk(g0)
    requires p[depth] in g && SameAt(g0, g, p[depth])
    requires g' == g[p[depth] := Repaired(c, g[p[depth]], p[depth], chain)]
    requires forall k | 0 <= k < depth :: p[k] != p[depth]
    ensures RepairedTo(c, g0, g', p, chain, depth + 1)
  {
    forall k: nat | k < depth + 1
      ensures RepairedAt(c, g0, g', p, chain, k)
    {
      assert k < depth ==> RepairedAt(c, g0, g, p, chain, k);
    }
    forall b: nat
      ensures b in p[..depth+1] || SameAt(g0, g', b)
    {
      if b !in p[..depth+1] {
        assert p[..depth+1][depth] == p[depth];
        assert b !in p[..depth];
        assert SameAt(g0, g, b);
      }
    }
  }

  lemma ChainCut(c: Setup, g0: Groups, g: Groups, g': Groups, p: seq<nat>, head: nat, n: nat, chain: nat, last: nat,
                 total: nat, free: nat)
    requires p == Kept(c, g0, head, n) && |p| < n && ChainAt(c, g0, g, p, head, chain, |p|, last, total, free)
    requires p == [] ==> g' == g
    requires p != [] ==>
               last in g && last in g0 && (g' == g[last := g[last].(next := 0)] || (g' == g && g0[last].next == 0))
    ensures ChainFixed(c, g0, g', p, chain)
  {
    assert p[..|p|] == p;
    forall k: nat
      ensures FixedAt(c, g0, g', p, chain, k)
    {
      if k < |p| {
        assert RepairedAt(c, g0, g, p, chain, k);
        if k + 1 < |p| {
          KeptDistinct(c, g0, head, n, p, k, |p| - 1);
          LinkIsKept(c, g0, head, n, p, k + 1);
        }
      }
    }
    forall b: nat
      ensures b in p || SameAt(g0, g', b)
    {
      assert b in p[..|p|] || SameAt(g0, g, b);
    }
  }

  // ---- the array of chains ------------------------------------------------------------------

  /** How long a chain may be before it counts as a loop. */
  function MaxChainLen(c: Setup, clusters: nat, count: nat): nat
    requires c.cpg > 0 && count > 0
  {
    ((clusters + c.cpg) / c.cpg + count) / count
  }

  /** The records in use, once the counts have been clamped. */
  function UsedRecs(nextFree: nat, count: nat, recs: seq<ChainRec>): seq<ChainRec> {
    recs[..Min(nextFree, Min(count, |recs|))]
  }

  /** The chain that starts at each block. */
  type Chains = nat -> seq<nat>

  ghost predicate AreChains(c: Setup, g0: Groups, n: nat, ch: Chains) { forall b: nat :: IsChainAt(c, g0, n, ch, b) }

  ghost predicate IsChainAt(c: Setup, g0: Groups, n: nat, ch: Chains, b: nat) { ch(b) == Kept(c, g0, b, n) }

  ghost function ChainsIn(c: Setup, g0: Groups, n: nat): (ch: Chains)
    ensures AreChains(c, g0, n, ch)
  {
    b => Kept(c, g0, b, n)
  }

  ghost predicate ShortAt(ch: Chains, n: nat, rs: seq<ChainRec>, j: nat) {
    j < |rs| ==> |ch(rs[j].blkno)| < n
  }

  /** No chain is too long. */
  ghost predicate ChainsOk(ch: Chains, n: nat, rs: seq<ChainRec>) { forall j: nat :: ShortAt(ch, n, rs, j) }

  // Chains may share groups, so a group may be repaired more than once.

  /** What repairing a group that stays, and cutting its chain behind it if need be, makes of it. */
  ghost function GroupFinished(c: Setup, g0: Groups, b: nat, chain: nat): Group
    requires b in g0 && BitmapOk(g0[b])
  {
    Repaired(c, g0[b], b, chain).(next := if Keepable(c, g0, g0[b].next) then g0[b].next else 0)
  }

  /** The group is as it was, or finished. */
  ghost predicate AlikeAt(c: Setup, g0: Groups, g: Groups, b: nat) {
    && (b in g <==> b in g0)
    && (b in g0 && b in g ==>
          || g[b] == g0[b]
          || (Keepable(c, g0, b) && BitmapOk(g0[b]) && g[b] == GroupFinished(c, g0, b, g[b].chain)))
  }

  ghost predicate Alike(c: Setup, g0: Groups, g: Groups) { forall b: nat :: AlikeAt(c, g0, g, b) }

  lemma CheckedTwice(c: Setup, l: ExtentList)
    requires c.volume.blocksPerCluster > 0 && Checked(c.volume, c.cpg, l).Some?
    ensures Checked(c.volume, c.cpg, Checked(c.volume, c.cpg, l).value) == Checked(c.volume, c.cpg, l)
  {
    CheckedIsSound(c.volume, c.cpg, l);
    KeptIffSound(c.volume, c.cpg, Checked(c.volume, c.cpg, l).value);
  }

  /** A repaired group stays, and repairing it again changes no more than its chain. */
  lemma RepairedTwice(c: Setup, g: Group, b: nat, chain: nat, next: nat, chain': nat)
    requires c.volume.blocksPerCluster > 0 && BitmapOk(g)
    requires g.extents.Some? ==> Checked(c.volume, c.cpg, g.extents.value).Some?
    ensures var r := Repaired(c, g, b, chain).(next := next);
            && BitmapOk(r) && FreeBits(r) == FreeBits(g)
            && Repaired(c, r, b, chain') == Repaired(c, g, b, chain').(next := next)
  {
    if g.extents.Some? {
      CheckedTwice(c, g.extents.value);
    }
  }

  lemma AlikeKeepable(c: Setup, g0: Groups, g: Groups, b: nat)
    requires c.volume.blocksPerCluster > 0 && AlikeAt(c, g0, g, b)
    ensures Keepable(c, g, b) <==> Keepable(c, g0, b)
  {
    if b in g && b in g0 && g[b] != g0[b] && g0[b].extents.Some? {
      CheckedTwice(c, g0[b].extents.value);
    }
  }

  /** What is counted and marked for a group does not depend on how often it has been repaired. */
  lemma AlikeCounts(c: Setup, g0: Groups, g: Groups, b: nat)
    requires c.volume.blocksPerCluster > 0 && AlikeAt(c, g0, g, b)
    ensures BitsAt(g, b) == BitsAt(g0, b) && FreeAt(g, b) == FreeAt(g0, b) && GroupRuns(c, g, b) == GroupRuns(c, g0, b)
  {
    if b in g && b in g0 && g[b] != g0[b] {
      RepairedTwice(c, g0[b], b, g[b].chain, g[b].next, 0);
    }
  }

  lemma FinishedTwice(c: Setup, g0: Groups, g: Groups, b: nat, chain: nat)
    requires c.volume.blocksPerCluster > 0 && Alike(c, g0, g) && b in g0 && b in g && BitmapOk(g0[b]) && BitmapOk(g[b])
    requires Keepable(c, g0, b)
    ensures GroupFinished(c, g, b, chain) == GroupFinished(c, g0, b, chain)
  {
    assert AlikeAt(c, g0, g, b);
    assert AlikeAt(c, g0, g, g0[b].next) && AlikeAt(c, g0, g, g[b].next);
    AlikeKeepable(c, g0, g, g0[b].next);
    AlikeKeepable(c, g0, g, g[b].next);
    if g[b] != g0[b] {
      RepairedTwice(c, g0[b], b, g[b].chain, g[b].next, chain);
    }
  }

  ghost function HeadAt(ch: Chains, r: ChainRec, h: nat): nat {
    if ch(r.blkno) != [] && r.blkno == h then 1 else 0
  }

  /** How many of the first `k` records are chains that start at `h` and are not empty. */
  ghost function HeadCount(ch: Chains, rs: seq<ChainRec>, h: nat, k: nat): nat
    requires k <= |rs|
  {
    if k == 0 then 0 else HeadCount(ch, rs, h, k - 1) + HeadAt(ch, rs[k-1], h)
  }

  ghost predicate SameHeadAt(ch: Chains, rs: seq<ChainRec>, rs': seq<ChainRec>, h: nat) {
    HeadCount(ch, rs', h, |rs'|) == HeadCount(ch, rs, h, |rs|)
  }

  /** The same chains that are not empty, each as often. */
  ghost predicate SameHeads(ch: Chains, rs: seq<ChainRec>, rs': seq<ChainRec>) {
    forall h: nat :: SameHeadAt(ch, rs, rs', h)
  }

  ghost function TotalBits(g0: Groups, ch: Chains, rs: seq<ChainRec>, k: nat): nat
    requires k <= |rs|
  {
    if k == 0 then 0 else TotalBits(g0, ch, rs, k - 1) + BitSum(g0, ch(rs[k-1].blkno))
  }

  ghost function TotalFree(g0: Groups, ch: Chains, rs: seq<ChainRec>, k: nat): nat
    requires k <= |rs|
  {
    if k == 0 then 0 else TotalFree(g0, ch, rs, k - 1) + FreeSum(g0, ch(rs[k-1].blkno))
  }

  /** The clusters that are marked for the first `k` chains. */
  ghost function AllRuns(c: Setup, g0: Groups, ch: Chains, rs: seq<ChainRec>, k: nat): seq<Run>
    requires c.volume.blocksPerCluster > 0 && k <= |rs|
  {
    if k == 0 then []
    else AllRuns(c, g0, ch, rs, k - 1) + ChainRuns(c, g0, ch(rs[k-1].blkno), |ch(rs[k-1].blkno)|)
  }

  ghost predicate MarkedTo(c: Setup, g0: Groups, ch: Chains, rs: seq<ChainRec>, k: nat, before: seq<Run>,
                           marks: seq<Run>) {
    c.volume.blocksPerCluster > 0 && k <= |rs| && marks == before + AllRuns(c, g0, ch, rs, k)
  }

  lemma {:induction false} RunsSame(c: Setup, g0: Groups, ch: Chains, rs: seq<ChainRec>, rs': seq<ChainRec>, k: nat)
    requires c.volume.blocksPerCluster > 0 && k <= |rs| && k <= |rs'|
    requires forall j | 0 <= j < k :: rs'[j].blkno == rs[j].blkno
    ensures AllRuns(c, g0, ch, rs', k) == AllRuns(c, g0, ch, rs, k)
  {
    if k > 0 {
      RunsSame(c, g0, ch, rs, rs', k - 1);
    }
  }

  /** A chain is marked as it would have been before. */
  lemma {:induction false} ChainRunsSame(c: Setup, g0: Groups, g: Groups, p: seq<nat>, n: nat)
    requires c.volume.blocksPerCluster > 0 && n <= |p| && Alike(c, g0, g)
    ensures ChainRuns(c, g, p, n) == ChainRuns(c, g0, p, n)
  {
    if n > 0 {
      ChainRunsSame(c, g0, g, p, n - 1);
      assert AlikeAt(c, g0, g, p[n-1]);
      AlikeCounts(c, g0, g, p[n-1]);
    }
  }

  lemma MarkedStep(c: Setup, g0: Groups, g: Groups, ch: Chains, rs: seq<ChainRec>, rs': seq<ChainRec>, i: nat,
                   before: seq<Run>, marks: seq<Run>, marks': seq<Run>)
    requires MarkedTo(c, g0, ch, rs, i, before, marks) && i < |rs| && i <= |rs'|
    requires forall j | 0 <= j < i :: rs'[j].blkno == rs[j].blkno
    requires marks' == marks + ChainRuns(c, g, ch(rs[i].blkno), |ch(rs[i].blkno)|)
    requires Alike(c, g0, g)
    ensures ch(rs[i].blkno) == [] ==> MarkedTo(c, g0, ch, rs', i, before, marks')
    ensures i < |rs'| && rs'[i].blkno == rs[i].blkno ==> MarkedTo(c, g0, ch, rs', i + 1, before, marks')
  {
    var p := ch(rs[i].blkno);
    RunsSame(c, g0, ch, rs, rs', i);
    ChainRunsSame(c, g0, g, p, |p|);
    assert before + AllRuns(c, g0, ch, rs, i) + ChainRuns(c, g0, p, |p|)
        == before + (AllRuns(c, g0, ch, rs, i) + ChainRuns(c, g0, p, |p|));
  }

  /** A finished record: its chain is not empty and its counts are sums. */
  ghost predicate RecDoneAt(g0: Groups, ch: Chains, rs: seq<ChainRec>, j: nat) {
    j < |rs| ==>
      var p := ch(rs[j].blkno);
      p != [] && rs[j].total == BitSum(g0, p) % UINT32_RANGE && rs[j].free == FreeSum(g0, p) % UINT32_RANGE
  }

  /** The last of the first `i` chains that the group is in. */
  ghost function LastIn(ch: Chains, rs: seq<ChainRec>, i: nat, b: nat): Option<nat>
    requires i <= |rs|
  {
    if i == 0 then None else if b in ch(rs[i-1].blkno) then Some(i - 1) else LastIn(ch, rs, i - 1, b)
  }

  /** The group has not been touched, or is finished and knows the last chain that it is in. */
  ghost predicate SettledAt(c: Setup, g0: Groups, g: Groups, ch: Chains, rs: seq<ChainRec>, i: nat, b: nat) {
    i <= |rs| &&
    match LastIn(ch, rs, i, b)
    case None => SameAt(g0, g, b)
    case Some(j) => b in g0 && b in g && BitmapOk(g0[b]) && g[b] == GroupFinished(c, g0, b, j)
  }

  ghost predicate DoneTo(c: Setup, g0: Groups, g: Groups, ch: Chains, rs: seq<ChainRec>, i: nat) {
    && (forall j: nat :: j < i ==> RecDoneAt(g0, ch, rs, j))
    && (forall b: nat :: SettledAt(c, g0, g, ch, rs, i, b))
  }

  ghost predicate TotalsAre(g0: Groups, ch: Chains, rs: seq<ChainRec>, i: nat, total: nat, free: nat) {
    && i <= |rs|
    && total == TotalBits(g0, ch, rs, i) % UINT32_RANGE
    && free == TotalFree(g0, ch, rs, i) % UINT32_RANGE
  }

  /** The first `i` of the records `rs` are finished. */
  ghost predicate VerifiedTo(c: Setup, g0: Groups, g: Groups, n: nat, ch: Chains, rs0: seq<ChainRec>,
                             rs: seq<ChainRec>, i: nat, total: nat, free: nat) {
    && BitmapsOk(g0) && BitmapsOk(g) && ChainsOk(ch, n, rs)
    && SameHeads(ch, rs0, rs)
    && DoneTo(c, g0, g, ch, rs, i)
    && TotalsAre(g0, ch, rs, i, total, free)
  }

  function HeadCleared(c: Setup, r: ChainRec): ChainRec {
    if r.blkno != 0 && OutOfRange(c.volume, r.blkno) then r.(blkno := 0) else r
  }

  /**
   The repaired allocator, against the groups `g0` and the records `rs0` in use before: each record in
   use is finished, nothing outside the chains has changed, no chain has been lost or doubled, and the
   inode's counts are the sums.
   */
  ghost predicate Verified(c: Setup, g0: Groups, g: Groups, ch: Chains, rs0: seq<ChainRec>, rs: seq<ChainRec>,
                           total: nat, used: nat) {
    && DoneTo(c, g0, g, ch, rs, |rs|)
    && SameHeads(ch, rs0, rs)
    && total == TotalBits(g0, ch, rs, |rs|) % UINT32_RANGE
    && used == (TotalBits(g0, ch, rs, |rs|) - TotalFree(g0, ch, rs, |rs|)) % UINT32_RANGE
  }

  lemma AllVerified(c: Setup, g0: Groups, g: Groups, n: nat, ch: Chains, rs0: seq<ChainRec>, rs: seq<ChainRec>, i: nat,
                    total: nat, free: nat, used: nat)
    requires VerifiedTo(c, g0, g, n, ch, rs0, rs, i, total, free) && i == |rs| && used == (total - free) % UINT32_RANGE
    ensures Verified(c, g0, g, ch, rs0, rs, total, used)
  {
    UsedBits(TotalBits(g0, ch, rs, i), TotalFree(g0, ch, rs, i));
  }

  lemma UsedBits(total: nat, free: nat)
    ensures (total % UINT32_RANGE - free % UINT32_RANGE) % UINT32_RANGE == (total - free) % UINT32_RANGE
  {
  }

  /** A head outside the volume stood for an empty chain already. */
  lemma ClearedHeads(c: Setup, n: nat, ch: Chains, rs: seq<ChainRec>, rs': seq<ChainRec>)
    requires |rs'| == |rs| && forall j | 0 <= j < |rs| :: ch(rs'[j].blkno) == ch(rs[j].blkno)
    requires ChainsOk(ch, n, rs)
    ensures ChainsOk(ch, n, rs')
  {
    forall j: nat
      ensures ShortAt(ch, n, rs', j)
    {
      assert ShortAt(ch, n, rs, j);
    }
  }

  lemma {:induction false} HeadsKept(ch: Chains, rs: seq<ChainRec>, rs': seq<ChainRec>, h: nat, k: nat)
    requires k <= |rs| && k <= |rs'| && forall j | 0 <= j < k :: HeadAt(ch, rs'[j], h) == HeadAt(ch, rs[j], h)
    ensures HeadCount(ch, rs', h, k) == HeadCount(ch, rs, h, k)
  {
    if k > 0 {
      HeadsKept(ch, rs, rs', h, k - 1);
    }
  }

  /** Records with the same heads as before are the same chains. */
  lemma SameChains(ch: Chains, rs0: seq<ChainRec>, rs: seq<ChainRec>, rs': seq<ChainRec>)
    requires SameHeads(ch, rs0, rs) && |rs'| == |rs|
    requires forall j | 0 <= j < |rs| ::
               ch(rs'[j].blkno) == ch(rs[j].blkno) && (ch(rs[j].blkno) == [] || rs'[j].blkno == rs[j].blkno)
    ensures SameHeads(ch, rs0, rs')
  {
    forall h: nat
      ensures SameHeadAt(ch, rs0, rs', h)
    {
      assert SameHeadAt(ch, rs0, rs, h);
      HeadsKept(ch, rs, rs', h, |rs|);
    }
  }

  lemma NothingVerified(c: Setup, g0: Groups, n: nat, ch: Chains, rs0: seq<ChainRec>, rs: seq<ChainRec>)
    requires BitmapsOk(g0) && AreChains(c, g0, n, ch) && ChainsOk(ch, n, rs0)
    requires |rs| == |rs0| && forall j | 0 <= j < |rs| :: rs[j] == HeadCleared(c, rs0[j])
    ensures VerifiedTo(c, g0, g0, n, ch, rs0, rs, 0, 0, 0)
  {
    forall j | 0 <= j < |rs|
      ensures ch(rs[j].blkno) == ch(rs0[j].blkno) && (ch(rs0[j].blkno) == [] || rs[j].blkno == rs0[j].blkno)
    {
      ClearedChain(c, g0, n, ch, rs0[j]);
    }
    ClearedHeads(c, n, ch, rs0, rs);
    SameChains(ch, rs0, rs0, rs);
  }

  lemma ClearedChain(c: Setup, g0: Groups, n: nat, ch: Chains, r: ChainRec)
    requires AreChains(c, g0, n, ch)
    ensures ch(HeadCleared(c, r).blkno) == ch(r.blkno) && (ch(r.blkno) == [] || HeadCleared(c, r).blkno == r.blkno)
  {
    assert IsChainAt(c, g0, n, ch, r.blkno) && IsChainAt(c, g0, n, ch, 0);
  }

  lemma FixedBitmaps(c: Setup, g0: Groups, g: Groups, p: seq<nat>, chain: nat)
    requires BitmapsOk(g0) && ChainFixed(c, g0, g, p, chain)
    ensures BitmapsOk(g)
  {
    forall b | b in g
      ensures BitmapOk(g[b])
    {
      if b in p {
        var k :| 0 <= k < |p| && p[k] == b;
        assert FixedAt(c, g0, g, p, chain, k);
      } else {
        assert SameAt(g0, g, b);
      }
    }
  }

  /** Repairs made so far do not change a chain. */
  lemma {:induction false} KeptSame(c: Setup, g0: Groups, g: Groups, b: nat, n: nat)
    requires c.volume.blocksPerCluster > 0 && Alike(c, g0, g)
    ensures Kept(c, g, b, n) == Kept(c, g0, b, n)
    decreases n
  {
    assert AlikeAt(c, g0, g, b);
    AlikeKeepable(c, g0, g, b);
    if n > 0 && Keepable(c, g0, b) {
      KeptSame(c, g0, g, g[b].next, n - 1);
      assert !Keepable(c, g0, 0);
    }
  }

  lemma {:induction false} LastInKept(c: Setup, g0: Groups, n: nat, ch: Chains, rs: seq<ChainRec>, i: nat, b: nat)
    requires AreChains(c, g0, n, ch) && i <= |rs| && LastIn(ch, rs, i, b).Some?
    ensures Keepable(c, g0, b)
  {
    if b in ch(rs[i-1].blkno) {
      assert IsChainAt(c, g0, n, ch, rs[i-1].blkno);
    } else {
      LastInKept(c, g0, n, ch, rs, i - 1, b);
    }
  }

  lemma NextChainSame(c: Setup, g0: Groups, g: Groups, n: nat, ch: Chains, rs0: seq<ChainRec>, rs: seq<ChainRec>,
                      i: nat, total: nat, free: nat)
    requires c.volume.blocksPerCluster > 0 && AreChains(c, g0, n, ch)
    requires VerifiedTo(c, g0, g, n, ch, rs0, rs, i, total, free) && i < |rs|
    ensures Kept(c, g, rs[i].blkno, n) == ch(rs[i].blkno) && Alike(c, g0, g)
  {
    forall b: nat
      ensures AlikeAt(c, g0, g, b)
    {
      assert SettledAt(c, g0, g, ch, rs, i, b);
      if LastIn(ch, rs, i, b).Some? {
        LastInKept(c, g0, n, ch, rs, i, b);
      }
    }
    assert IsChainAt(c, g0, n, ch, rs[i].blkno);
    KeptSame(c, g0, g, rs[i].blkno, n);
  }

  lemma {:induction false} SumsSame(c: Setup, g0: Groups, g: Groups, p: seq<nat>)
    requires c.volume.blocksPerCluster > 0 && Alike(c, g0, g)
    ensures BitSum(g, p) == BitSum(g0, p) && FreeSum(g, p) == FreeSum(g0, p)
  {
    if p != [] {
      assert AlikeAt(c, g0, g, p[|p|-1]);
      AlikeCounts(c, g0, g, p[|p|-1]);
      SumsSame(c, g0, g, p[..|p|-1]);
    }
  }

  /** A group of a chain that has been followed is finished. */
  lemma FixedIsFinished(c: Setup, g: Groups, g': Groups, head: nat, n: nat, p: seq<nat>, chain: nat, k: nat)
    requires p == Kept(c, g, head, n) && k < |p| < n && FixedAt(c, g, g', p, chain, k)
    ensures g'[p[k]] == GroupFinished(c, g, p[k], chain)
  {
    LinkIsKept(c, g, head, n, p, k + 1);
  }

  /** Every group of the chain is finished, and the others are as they were. */
  ghost predicate ChainFinishedAt(c: Setup, g0: Groups, g: Groups, g': Groups, p: seq<nat>, chain: nat, b: nat) {
    if b in p then b in g0 && b in g' && BitmapOk(g0[b]) && g'[b] == GroupFinished(c, g0, b, chain)
    else SameAt(g, g', b)
  }

  lemma ChainFinished(c: Setup, g0: Groups, g: Groups, g': Groups, head: nat, n: nat, p: seq<nat>, chain: nat)
    requires c.volume.blocksPerCluster > 0 && BitmapsOk(g0) && BitmapsOk(g) && Alike(c, g0, g)
    requires p == Kept(c, g, head, n) && |p| < n && ChainFixed(c, g, g', p, chain)
    ensures forall b: nat :: ChainFinishedAt(c, g0, g, g', p, chain, b)
  {
    forall b: nat
      ensures ChainFinishedAt(c, g0, g, g', p, chain, b)
    {
      assert b in p || SameAt(g, g', b);
      if b in p {
        var k :| 0 <= k < |p| && p[k] == b;
        assert FixedAt(c, g, g', p, chain, k) && AlikeAt(c, g0, g, b);
        AlikeKeepable(c, g0, g, b);
        FixedIsFinished(c, g, g', head, n, p, chain, k);
        FinishedTwice(c, g0, g, b, chain);
      }
    }
  }

  lemma {:induction false} HeadsReplaced(ch: Chains, rs: seq<ChainRec>, i: nat, r: ChainRec, h: nat, k: nat)
    requires i < k <= |rs|
    ensures HeadCount(ch, rs[i := r], h, k) == HeadCount(ch, rs, h, k) - HeadAt(ch, rs[i], h) + HeadAt(ch, r, h)
  {
    if i < k - 1 {
      HeadsReplaced(ch, rs, i, r, h, k - 1);
    } else {
      HeadsKept(ch, rs, rs[i := r], h, k - 1);
    }
  }

  lemma {:induction false} LastInSame(ch: Chains, rs: seq<ChainRec>, rs': seq<ChainRec>, i: nat, b: nat)
    requires i <= |rs| && i <= |rs'| && forall j | 0 <= j < i :: rs'[j] == rs[j]
    ensures LastIn(ch, rs', i, b) == LastIn(ch, rs, i, b)
  {
    if i > 0 {
      LastInSame(ch, rs, rs', i - 1, b);
    }
  }

  lemma SameHeadsOk(n: nat, ch: Chains, rs: seq<ChainRec>, i: nat, r: ChainRec, rs': seq<ChainRec>)
    requires ChainsOk(ch, n, rs) && i < |rs| && r.blkno == rs[i].blkno && rs' == rs[i := r]
    ensures ChainsOk(ch, n, rs')
  {
    forall j: nat
      ensures ShortAt(ch, n, rs', j)
    {
      assert ShortAt(ch, n, rs, j);
    }
  }

  lemma {:induction false} TotalsSame(g0: Groups, ch: Chains, rs: seq<ChainRec>, rs': seq<ChainRec>, k: nat)
    requires k <= |rs| && k <= |rs'| && forall j | 0 <= j < k :: rs'[j] == rs[j]
    ensures TotalBits(g0, ch, rs', k) == TotalBits(g0, ch, rs, k)
    ensures TotalFree(g0, ch, rs', k) == TotalFree(g0, ch, rs, k)
  {
    if k > 0 {
      TotalsSame(g0, ch, rs, rs', k - 1);
    }
  }

  lemma TotalsStep(g0: Groups, ch: Chains, rs: seq<ChainRec>, i: nat, total: nat, free: nat, t: nat, f: nat)
    requires i < |rs| && TotalsAre(g0, ch, rs, i, total, free)
    requires t == BitSum(g0, ch(rs[i].blkno)) % UINT32_RANGE && f == FreeSum(g0, ch(rs[i].blkno)) % UINT32_RANGE
    ensures TotalsAre(g0, ch, rs, i + 1, (total + t) % UINT32_RANGE, (free + f) % UINT32_RANGE)
  {
    ModSum(TotalBits(g0, ch, rs, i), BitSum(g0, ch(rs[i].blkno)));
    ModSum(TotalFree(g0, ch, rs, i), FreeSum(g0, ch(rs[i].blkno)));
  }

  lemma ModSum(x: nat, y: nat)
    ensures (x % UINT32_RANGE + y % UINT32_RANGE) % UINT32_RANGE == (x + y) % UINT32_RANGE
  {
  }

  /** Finishing a chain adds one finished record. */
  lemma ChainAdded(c: Setup, g0: Groups, g: Groups, g': Groups, n: nat, ch: Chains, rs0: seq<ChainRec>,
                   rs: seq<ChainRec>, rs': seq<ChainRec>, i: nat, total: nat, free: nat, t: nat, f: nat)
    requires VerifiedTo(c, g0, g, n, ch, rs0, rs, i, total, free) && i < |rs| && BitmapsOk(g')
    requires var p := ch(rs[i].blkno);
             && p != [] && (forall b: nat :: ChainFinishedAt(c, g0, g, g', p, i, b))
             && t == BitSum(g0, p) % UINT32_RANGE && f == FreeSum(g0, p) % UINT32_RANGE
    requires rs' == rs[i := ChainRec(t, f, rs[i].blkno)]
    ensures VerifiedTo(c, g0, g', n, ch, rs0, rs', i + 1, (total + t) % UINT32_RANGE, (free + f) % UINT32_RANGE)
  {
    SameHeadsOk(n, ch, rs, i, rs'[i], rs');
    SameChains(ch, rs0, rs, rs');
    TotalsSame(g0, ch, rs, rs', i);
    TotalsStep(g0, ch, rs', i, total, free, t, f);
    RecsDone(c, g0, g, g', ch, rs, rs', i);
  }

  lemma RecsDone(c: Setup, g0: Groups, g: Groups, g': Groups, ch: Chains, rs: seq<ChainRec>, rs': seq<ChainRec>, i: nat)
    requires DoneTo(c, g0, g, ch, rs, i) && i < |rs| == |rs'| && forall j | 0 <= j < i :: rs'[j] == rs[j]
    requires RecDoneAt(g0, ch, rs', i) && forall b: nat :: ChainFinishedAt(c, g0, g, g', ch(rs'[i].blkno), i, b)
    ensures DoneTo(c, g0, g', ch, rs', i + 1)
  {
    var m := i + 1;
    forall j: nat | j < m
      ensures RecDoneAt(g0, ch, rs', j)
    {
      assert j < i ==> RecDoneAt(g0, ch, rs, j);
    }
    forall b: nat
      ensures SettledAt(c, g0, g', ch, rs', m, b)
    {
      assert SettledAt(c, g0, g, ch, rs, i, b) && ChainFinishedAt(c, g0, g, g', ch(rs'[i].blkno), i, b);
      LastInSame(ch, rs, rs', i, b);
    }
  }

  /** Putting the last record in the place of an empty one loses no chain. */
  lemma ChainRemoved(c: Setup, g0: Groups, g: Groups, g': Groups, n: nat, ch: Chains, rs0: seq<ChainRec>,
                     rs: seq<ChainRec>, rs': seq<ChainRec>, i: nat, total: nat, free: nat)
    requires VerifiedTo(c, g0, g, n, ch, rs0, rs, i, total, free) && i < |rs| && BitmapsOk(g')
    requires ch(rs[i].blkno) == [] && forall b: nat :: ChainFinishedAt(c, g0, g, g', [], i, b)
    requires rs' == rs[i := rs[|rs|-1]][..|rs|-1]
    ensures VerifiedTo(c, g0, g', n, ch, rs0, rs', i, total, free)
  {
    RemovedOk(n, ch, rs, rs', i);
    RemovedHeads(ch, rs0, rs, rs', i);
    TotalsSame(g0, ch, rs, rs', i);
    StillDoneTo(c, g0, g, g', ch, rs, rs', i);
  }

  lemma StillDoneTo(c: Setup, g0: Groups, g: Groups, g': Groups, ch: Chains, rs: seq<ChainRec>, rs': seq<ChainRec>,
                    i: nat)
    requires DoneTo(c, g0, g, ch, rs, i) && i <= |rs| && i <= |rs'|
    requires forall b: nat :: ChainFinishedAt(c, g0, g, g', [], i, b)
    requires forall j | 0 <= j < i :: rs'[j] == rs[j]
    ensures DoneTo(c, g0, g', ch, rs', i)
  {
    forall j: nat | j < i
      ensures RecDoneAt(g0, ch, rs', j)
    {
      assert RecDoneAt(g0, ch, rs, j);
    }
    forall b: nat
      ensures SettledAt(c, g0, g', ch, rs', i, b)
    {
      assert SettledAt(c, g0, g, ch, rs, i, b) && ChainFinishedAt(c, g0, g, g', [], i, b);
      LastInSame(ch, rs, rs', i, b);
    }
  }

  /** What following the chain of a record has done. */
  ghost predicate Followed(c: Setup, g0: Groups, g: Groups, g': Groups, ch: Chains, r: ChainRec, i: nat, head: nat,
                           t: nat, f: nat, marks: seq<Run>, marks': seq<Run>) {
    var p := ch(r.blkno);
    && BitmapsOk(g') && c.volume.blocksPerCluster > 0 && Alike(c, g0, g)
    && (forall b: nat :: ChainFinishedAt(c, g0, g, g', p, i, b))
    && head == (if p == [] then 0 else r.blkno)
    && t == BitSum(g0, p) % UINT32_RANGE && f == FreeSum(g0, p) % UINT32_RANGE
    && marks' == marks + ChainRuns(c, g, p, |p|)
  }

  /** Both steps together, for a chain that stays. */
  lemma RecAdded(c: Setup, g0: Groups, g: Groups, g': Groups, n: nat, ch: Chains, rs0: seq<ChainRec>, rs: seq<ChainRec>,
                 i: nat, total: nat, free: nat, head: nat, t: nat, f: nat, before: seq<Run>, marks: seq<Run>,
                 marks': seq<Run>)
    requires VerifiedTo(c, g0, g, n, ch, rs0, rs, i, total, free) && i < |rs|
    requires MarkedTo(c, g0, ch, rs, i, before, marks)
    requires Followed(c, g0, g, g', ch, rs[i], i, head, t, f, marks, marks') && head != 0
    ensures var rs' := rs[i := ChainRec(t, f, head)];
            && VerifiedTo(c, g0, g', n, ch, rs0, rs', i + 1, (total + t) % UINT32_RANGE, (free + f) % UINT32_RANGE)
            && MarkedTo(c, g0, ch, rs', i + 1, before, marks')
  {
    var rs' := rs[i := ChainRec(t, f, head)];
    ChainAdded(c, g0, g, g', n, ch, rs0, rs, rs', i, total, free, t, f);
    MarkedStep(c, g0, g, ch, rs, rs', i, before, marks, marks');
  }

  /** Both steps together, for a chain that is empty. */
  lemma RecRemoved(c: Setup, g0: Groups, g: Groups, g': Groups, n: nat, ch: Chains, rs0: seq<ChainRec>,
                   rs: seq<ChainRec>,
                   i: nat, total: nat, free: nat, head: nat, t: nat, f: nat, before: seq<Run>, marks: seq<Run>,
                   marks': seq<Run>, rs': seq<ChainRec>)
    requires VerifiedTo(c, g0, g, n, ch, rs0, rs, i, total, free) && i < |rs|
    requires MarkedTo(c, g0, ch, rs, i, before, marks)
    requires Followed(c, g0, g, g', ch, rs[i], i, head, t, f, marks, marks') && head == 0 && ch(0) == []
    requires rs' == rs[i := rs[|rs|-1]][..|rs|-1]
    ensures VerifiedTo(c, g0, g', n, ch, rs0, rs', i, total, free) && MarkedTo(c, g0, ch, rs', i, before, marks')
  {
    ChainRemoved(c, g0, g, g', n, ch, rs0, rs, rs', i, total, free);
    MarkedStep(c, g0, g, ch, rs, rs', i, before, marks, marks');
  }

  lemma RemovedOk(n: nat, ch: Chains, rs: seq<ChainRec>, rs': seq<ChainRec>, i: nat)
    requires ChainsOk(ch, n, rs) && i < |rs|
    requires rs' == rs[i := rs[|rs|-1]][..|rs|-1]
    ensures ChainsOk(ch, n, rs')
  {
    var m := |rs| - 1;
    forall j: nat
      ensures ShortAt(ch, n, rs', j)
    {
      assert ShortAt(ch, n, rs, j) && ShortAt(ch, n, rs, m);
    }
  }

  lemma RemovedHeads(ch: Chains, rs0: seq<ChainRec>, rs: seq<ChainRec>, rs': seq<ChainRec>, i: nat)
    requires i < |rs| && ch(rs[i].blkno) == [] && SameHeads(ch, rs0, rs)
    requires rs' == rs[i := rs[|rs|-1]][..|rs|-1]
    ensures SameHeads(ch, rs0, rs')
  {
    var m := |rs| - 1;
    var r := rs[i := rs[m]];
    forall h: nat
      ensures SameHeadAt(ch, rs0, rs', h)
    {
      assert SameHeadAt(ch, rs0, rs, h);
      HeadsReplaced(ch, rs, i, rs[m], h, m + 1);
      HeadsKept(ch, r, rs', h, m);
    }
  }

  // ---- what the parts mean ------------------------------------------------------------------

  /** Clear bits are counted one by one. */
  lemma {:induction false} CountClearIs(bitmap: seq<bool>)
    ensures CountClear(bitmap) == |ClearBits(bitmap)|
  {
    if bitmap != [] {
      var n := |bitmap| - 1;
      CountClearIs(bitmap[..n]);
      assert ClearBits(bitmap) == ClearBits(bitmap[..n]) + if bitmap[n] then {} else {n};
    }
  }

  ghost function ClearBits(bitmap: seq<bool>): set<nat> { set i: nat | i < |bitmap| && !bitmap[i] }

  /** A group that needs no repair: it belongs to this inode and chain, and claims no more than its bitmap allows. */
  ghost predicate Healthy(c: Setup, groups: Groups, b: nat, chain: nat) {
    && 2 <= b <= c.volume.blocks && b in groups && groups[b].generation == c.generation
    && groups[b].parent == c.ino && groups[b].blkno == b && groups[b].chain == chain
    && BitmapOk(groups[b]) && groups[b].freeBits <= |ClearBits(groups[b].bitmap[..groups[b].bits])|
    && (groups[b].extents.Some? ==> Sound(c.volume, c.cpg, groups[b].extents.value))
  }

  /** A group stays as it is if and only if it is healthy; a group that stays is healthy once repaired. */
  lemma KeptIffHealthy(c: Setup, groups: Groups, b: nat, chain: nat)
    requires c.volume.blocksPerCluster > 0 && b in groups && BitmapOk(groups[b])
    ensures Keepable(c, groups, b) && Repaired(c, groups[b], b, chain) == groups[b] <==> Healthy(c, groups, b, chain)
    ensures Keepable(c, groups, b) ==> Healthy(c, groups[b := Repaired(c, groups[b], b, chain)], b, chain)
  {
    var g := groups[b];
    CountClearIs(g.bitmap[..g.bits]);
    if g.extents.Some? {
      KeptIffSound(c.volume, c.cpg, g.extents.value);
      CheckedIsSound(c.volume, c.cpg, g.extents.value);
    }
  }

  /** Which groups go: those outside the volume or of another one, those that another inode has, and broken ones. */
  lemma DroppedIff(c: Setup, groups: Groups, b: nat)
    requires c.volume.blocksPerCluster > 0
    ensures !Keepable(c, groups, b) <==>
            || !(2 <= b <= c.volume.blocks) || b !in groups || groups[b].generation != c.generation
            || (b in c.elsewhere && groups[b].parent != c.ino)
            || (groups[b].extents.Some? &&
                forall r :: Decided(c.volume, c.cpg, groups[b].extents.value, r) ==> r == None)
  {
    if b in groups && groups[b].extents.Some? {
      var l := groups[b].extents.value;
      CheckedDecided(c.volume, c.cpg, l);
      var r := Checked(c.volume, c.cpg, l);
      if r == None {
        forall r' | Decided(c.volume, c.cpg, l, r')
          ensures r' == None
        {
          OneDecision(c.volume, c.cpg, l, r, r');
        }
      }
    }
  }

  /** The blocks of the piece of a group that makes up run `k`: all of the group, or one of its extents. */
  function Piece(c: Setup, g: Group, k: nat): Rec
    requires g.extents.Some? ==> k < |g.extents.value.recs|
  {
    match g.extents case None => Rec(g.blkno, c.cpg) case Some(l) => l.recs[k]
  }

  lemma {:induction false} RunOfPiece(c: Setup, recs: seq<Rec>, n: nat, k: nat)
    requires c.volume.blocksPerCluster > 0 && k < n <= |recs|
    ensures RecRuns(c, recs, n)[k] == Run(recs[k].blkno / c.volume.blocksPerCluster, recs[k].clusters)
  {
    if k < n - 1 {
      RunOfPiece(c, recs, n - 1, k);
    }
  }

  /** A block is marked by run `k` exactly when it lies in piece `k`, which starts where a cluster starts. */
  lemma RunsHold(c: Setup, g: Group, k: nat, x: nat)
    requires c.volume.blocksPerCluster > 0 && k < |RunsOf(c, g)|
    requires Piece(c, g, k).blkno % c.volume.blocksPerCluster == 0
    ensures var run, piece, bpc := RunsOf(c, g)[k], Piece(c, g, k), c.volume.blocksPerCluster;
            run.start <= x / bpc < run.start + run.count <==> piece.blkno <= x < piece.blkno + piece.clusters * bpc
  {
    var piece := Piece(c, g, k);
    if g.extents.Some? {
      RunOfPiece(c, g.extents.value.recs, |RunsOf(c, g)|, k);
    }
    ClusterOfBlock(piece, c.volume.blocksPerCluster, x);
  }

  lemma ClusterOfBlock(piece: Rec, bpc: nat, x: nat)
    requires bpc > 0 && piece.blkno % bpc == 0
    ensures piece.blkno / bpc <= x / bpc < piece.blkno / bpc + piece.clusters <==>
            piece.blkno <= x < piece.blkno + piece.clusters * bpc
  {
    var start := piece.blkno / bpc;
    assert start * bpc == piece.blkno;
    assert (start + piece.clusters) * bpc == piece.blkno + piece.clusters * bpc;
    BelowCluster(start, bpc, x);
    BelowCluster(start + piece.clusters, bpc, x);
  }

  lemma BelowCluster(n: nat, bpc: nat, x: nat)
    requires bpc > 0
    ensures n <= x / bpc <==> n * bpc <= x
  {
    var q := x / bpc;
    assert q * bpc <= x < q * bpc + bpc;
    if n <= q {
      Product(n, q, bpc);
    } else {
      Product(q + 1, n, bpc);
    }
  }

  /** Chains of the greatest length, one for each record, have room for more groups than the clusters make up. */
  lemma LengthBoundSuffices(c: Setup, clusters: nat, count: nat)
    requires c.cpg > 0 && count > 0
    ensures MaxChainLen(c, clusters, count) * count * c.cpg > clusters
  {
    var groups := (clusters + c.cpg) / c.cpg;
    var n := MaxChainLen(c, clusters, count);
    assert groups * c.cpg > clusters by {
      assert clusters + c.cpg < groups * c.cpg + c.cpg;
    }
    assert n * count > groups by {
      assert groups + count < n * count + count;
    }
    Product(groups, n * count, c.cpg);
  }
}
