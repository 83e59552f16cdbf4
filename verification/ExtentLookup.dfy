/**
 Two lookups in a file's extent tree: from a logical block to its place on disk (debugfs.ocfs2/commands.c) and
 from disk blocks back to logical ones (debugfs.ocfs2/find_block_inode.c).
 */
module ExtentLookup {
  import opened Common

  /** A leaf record maps `clusters` clusters from `cpos` on to the disk from block `blkno` on. */
  datatype Rec = Rec(cpos: uint32, clusters: uint32, blkno: nat)

  /** An interior record stands for an extent block and the subtree in it. */
  datatype Kid = Kid(cpos: uint32, clusters: uint32, blkno: nat, sub: Tree)

  datatype Tree = Leaves(recs: seq<Rec>) | Branch(kids: seq<Kid>)

  // ---- well-formed trees --------------------------------------------------------------------

  ghost predicate RecAt(recs: seq<Rec>, lo: nat, hi: nat, i: nat) {
    i < |recs| && recs[i].clusters != 0 ==> lo <= recs[i].cpos && recs[i].cpos + recs[i].clusters <= hi
  }

  ghost predicate RecsApart(recs: seq<Rec>, i: nat, j: nat) {
    i < j < |recs| && recs[i].clusters != 0 && recs[j].clusters != 0 ==> recs[i].cpos + recs[i].clusters <= recs[j].cpos
  }

  ghost predicate KidsApart(kids: seq<Kid>, i: nat, j: nat) {
    i < j < |kids| && kids[i].clusters != 0 && kids[j].clusters != 0 ==> kids[i].cpos + kids[i].clusters <= kids[j].cpos
  }

  /** Records that are not empty are in order, do not overlap, and stay inside their parent's range. */
  ghost predicate WellFormed(t: Tree, lo: nat, hi: nat) {
    match t
    case Leaves(recs) =>
      && (forall i: nat :: RecAt(recs, lo, hi, i))
      && (forall i: nat, j: nat :: RecsApart(recs, i, j))
    case Branch(kids) =>
      && (forall i | 0 <= i < |kids| ::
            kids[i].clusters != 0 ==>
              lo <= kids[i].cpos && kids[i].cpos + kids[i].clusters <= hi
              && WellFormed(kids[i].sub, kids[i].cpos, kids[i].cpos + kids[i].clusters))
      && (forall i: nat, j: nat :: KidsApart(kids, i, j))
  }

  /** The record is one of the tree's leaf records that are not empty. */
  ghost predicate InTree(t: Tree, r: Rec) {
    match t
    case Leaves(recs) => r in recs && r.clusters != 0
    case Branch(kids) => exists i: nat | i < |kids| :: kids[i].clusters != 0 && InTree(kids[i].sub, r)
  }

  /** The tree's leaf records that are not empty, from left to right. */
  function Flatten(t: Tree): seq<Rec>
    decreases t, 1
  {
    match t
    case Leaves(recs) => NonEmpty(recs)
    case Branch(kids) => FlattenKids(t, |kids|)
  }

  function NonEmpty(recs: seq<Rec>): seq<Rec> {
    if recs == [] then []
    else
      var n := |recs| - 1;
      NonEmpty(recs[..n]) + if recs[n].clusters != 0 then [recs[n]] else []
  }

  function FlattenKids(t: Tree, n: nat): seq<Rec>
    requires t.Branch? && n <= |t.kids|
    decreases t, 0, n
  {
    if n == 0 then []
    else FlattenKids(t, n - 1) + if t.kids[n-1].clusters != 0 then Flatten(t.kids[n-1].sub) else []
  }

  lemma {:induction false} NonEmptyHolds(recs: seq<Rec>, r: Rec)
    ensures r in NonEmpty(recs) <==> r in recs && r.clusters != 0
  {
    if recs != [] {
      NonEmptyHolds(recs[..|recs|-1], r);
      assert recs == recs[..|recs|-1] + [recs[|recs|-1]];
    }
  }

  lemma {:induction false} FlattenHolds(t: Tree, r: Rec)
    ensures r in Flatten(t) <==> InTree(t, r)
    decreases t, 1
  {
    match t
    case Leaves(recs) => NonEmptyHolds(recs, r);
    case Branch(kids) =>
      FlattenKidsHolds(t, |kids|, r);
      InKidsMeans(t, |kids|, r);
  }

  ghost predicate InKid(t: Tree, i: nat, r: Rec) {
    t.Branch? && i < |t.kids| && t.kids[i].clusters != 0 && InTree(t.kids[i].sub, r)
  }

  ghost predicate InKids(t: Tree, n: nat, r: Rec) { n > 0 && (InKids(t, n - 1, r) || InKid(t, n - 1, r)) }

  lemma {:induction false} InKidsMeans(t: Tree, n: nat, r: Rec)
    requires t.Branch? && n <= |t.kids|
    ensures InKids(t, n, r) <==> exists i: nat | i < n :: t.kids[i].clusters != 0 && InTree(t.kids[i].sub, r)
    decreases n
  {
    if n > 0 {
      InKidsMeans(t, n - 1, r);
    }
  }

  lemma {:induction false} FlattenKidsHolds(t: Tree, n: nat, r: Rec)
    requires t.Branch? && n <= |t.kids|
    ensures r in FlattenKids(t, n) <==> InKids(t, n, r)
    decreases t, 0, n
  {
    if n > 0 {
      FlattenKidsHolds(t, n - 1, r);
      FlattenHolds(t.kids[n-1].sub, r);
    }
  }

  /** Every record of a well-formed tree lies in the tree's range. */
  lemma {:induction false} InRange(t: Tree, lo: nat, hi: nat, r: Rec)
    requires WellFormed(t, lo, hi) && InTree(t, r)
    ensures lo <= r.cpos && r.cpos + r.clusters <= hi
    decreases t
  {
    match t
    case Leaves(recs) =>
      var i :| 0 <= i < |recs| && recs[i] == r;
      assert RecAt(recs, lo, hi, i);
    case Branch(kids) =>
      var i :| 0 <= i < |kids| && kids[i].clusters != 0 && InTree(kids[i].sub, r);
      InRange(kids[i].sub, kids[i].cpos, kids[i].cpos + kids[i].clusters, r);
  }

  // ---- from logical to physical -------------------------------------------------------------

  /** The cluster of a logical block, in 32 bits. */
  function ClusterOf(bpc: nat, off: nat): nat
    requires bpc > 0
  {
    off / bpc % UINT32_RANGE
  }

  predicate Covers(r: Rec, cluster: nat) { r.cpos <= cluster < r.cpos + r.clusters }

  /** Where a covering record puts a logical block; the distance is kept in 32 bits. */
  function Place(r: Rec, bpc: nat, off: nat): nat { r.blkno + (off - r.cpos * bpc) % UINT32_RANGE }

  /** Linear search: the place that the first covering record gives, or 0. */
  function Lookup(recs: seq<Rec>, bpc: nat, off: nat): nat
    requires bpc > 0
  {
    if recs == [] then 0
    else if Covers(recs[0], ClusterOf(bpc, off)) then Place(recs[0], bpc, off)
    else Lookup(recs[1..], bpc, off)
  }

  /** What a search must answer: what any covering record says, or 0 for a hole. */
  ghost predicate Answer(t: Tree, cluster: nat, bpc: nat, off: nat, a: nat) {
    && (forall r :: InTree(t, r) && Covers(r, cluster) ==> a == Place(r, bpc, off))
    && ((forall r :: InTree(t, r) ==> !Covers(r, cluster)) ==> a == 0)
  }

  lemma {:induction false} LookupHits(recs: seq<Rec>, bpc: nat, off: nat)
    requires bpc > 0
    ensures (exists r | r in recs :: Covers(r, ClusterOf(bpc, off)) && Lookup(recs, bpc, off) == Place(r, bpc, off))
         || ((forall r | r in recs :: !Covers(r, ClusterOf(bpc, off))) && Lookup(recs, bpc, off) == 0)
  {
    if recs != [] {
      LookupHits(recs[1..], bpc, off);
      assert recs == [recs[0]] + recs[1..];
    }
  }

  /** The answer on the tree is the linear search through its leaf records. */
  lemma AnswerIsLookup(t: Tree, bpc: nat, off: nat, a: nat)
    requires bpc > 0 && Answer(t, ClusterOf(bpc, off), bpc, off, a)
    ensures a == Lookup(Flatten(t), bpc, off)
  {
    LookupHits(Flatten(t), bpc, off);
    forall r: Rec
      ensures r in Flatten(t) <==> InTree(t, r)
    {
      FlattenHolds(t, r);
    }
  }

  /** The end of an extent as the search computes it, in 32 bits. */
  function CutEnd(cpos: uint32, clusters: uint32): uint32 {
    if cpos + clusters < UINT32_RANGE then cpos + clusters else cpos + clusters - UINT32_RANGE
  }

  /** The record is in the tree, and neither it nor an extent above it ends at 2^32 clusters or beyond. */
  ghost predicate Seen(t: Tree, r: Rec) {
    match t
    case Leaves(recs) => r in recs && r.clusters != 0 && r.cpos + r.clusters < UINT32_RANGE
    case Branch(kids) =>
      exists i: nat | i < |kids| ::
        kids[i].clusters != 0 && kids[i].cpos + kids[i].clusters < UINT32_RANGE && Seen(kids[i].sub, r)
  }

  lemma {:induction false} SeenInTree(t: Tree, r: Rec)
    requires Seen(t, r)
    ensures InTree(t, r)
    decreases t
  {
    if t.Branch? {
      var i: nat :| i < |t.kids| && t.kids[i].clusters != 0 && Seen(t.kids[i].sub, r);
      SeenInTree(t.kids[i].sub, r);
    }
  }

  /** What the search prints: what the covering record says if it is seen, and 0 otherwise. */
  ghost predicate Printed(t: Tree, cluster: nat, bpc: nat, off: nat, a: nat) {
    && (forall r :: Seen(t, r) && Covers(r, cluster) ==> a == Place(r, bpc, off))
    && ((forall r :: Seen(t, r) ==> !Covers(r, cluster)) ==> a == 0)
  }

  /** Descends to the one record that can cover the block. */
  method FindBlockOffset(t: Tree, bpc: nat, off: nat, ghost lo: nat, ghost hi: nat) returns (a: nat)
    requires bpc > 0 && WellFormed(t, lo, hi)
    ensures Printed(t, ClusterOf(bpc, off), bpc, off, a)
    decreases t
  {
    var cluster := ClusterOf(bpc, off);
    match t {
      case Leaves(recs) =>
        a := FindInLeaf(recs, bpc, off, cluster, lo, hi);
      case Branch(kids) =>
        var i := 0;
        while i < |kids|
          invariant i <= |kids| && forall k: nat :: KidBelow(kids, i, cluster, k)
        {
          if kids[i].clusters != 0 && cluster < CutEnd(kids[i].cpos, kids[i].clusters) {
            a := FindBlockOffset(kids[i].sub, bpc, off, kids[i].cpos, kids[i].cpos + kids[i].clusters);
            OneKid(t, kids, lo, hi, i, cluster, bpc, off, a);
            return;
          }
          NextKid(kids, i, i + 1, cluster);
          i := i + 1;
        }
        a := 0;
        NoKid(t, kids, lo, hi, |kids|, cluster);
    }
  }

  ghost predicate KidBelow(kids: seq<Kid>, i: nat, cluster: nat, k: nat) {
    k < i && k < |kids| && kids[k].clusters != 0 ==> CutEnd(kids[k].cpos, kids[k].clusters) <= cluster
  }

  lemma NextKid(kids: seq<Kid>, i: nat, n: nat, cluster: nat)
    requires i < |kids| && n == i + 1 && forall k: nat :: KidBelow(kids, i, cluster, k)
    requires kids[i].clusters == 0 || CutEnd(kids[i].cpos, kids[i].clusters) <= cluster
    ensures forall k: nat :: KidBelow(kids, n, cluster, k)
  {
    forall k: nat
      ensures KidBelow(kids, n, cluster, k)
    {
      assert KidBelow(kids, i, cluster, k);
    }
  }

  method FindInLeaf(recs: seq<Rec>, bpc: nat, off: nat, cluster: nat, ghost lo: nat, ghost hi: nat) returns (a: nat)
    requires WellFormed(Leaves(recs), lo, hi)
    ensures Printed(Leaves(recs), cluster, bpc, off, a)
  {
    var i := 0;
    while i < |recs|
      invariant i <= |recs|
      invariant forall k | 0 <= k < i :: recs[k].clusters != 0 ==> CutEnd(recs[k].cpos, recs[k].clusters) <= cluster
    {
      if recs[i].clusters != 0 && cluster < CutEnd(recs[i].cpos, recs[i].clusters) {
        a := if cluster < recs[i].cpos then 0 else Place(recs[i], bpc, off);
        forall r | Seen(Leaves(recs), r) && Covers(r, cluster)
          ensures r == recs[i]
        {
          var k :| 0 <= k < |recs| && recs[k] == r;
          assert RecsApart(recs, i, k);
        }
        assert cluster >= recs[i].cpos ==> Seen(Leaves(recs), recs[i]);
        return;
      }
      i := i + 1;
    }
    a := 0;
  }

  /** Only the chosen subtree can hold a covering record that is seen. */
  lemma OneKid(t: Tree, kids: seq<Kid>, lo: nat, hi: nat, i: nat, cluster: nat, bpc: nat, off: nat, a: nat)
    requires t == Branch(kids) && WellFormed(t, lo, hi) && i < |kids| && kids[i].clusters != 0
    requires cluster < CutEnd(kids[i].cpos, kids[i].clusters) && forall k: nat :: KidBelow(kids, i, cluster, k)
    requires Printed(kids[i].sub, cluster, bpc, off, a)
    ensures Printed(t, cluster, bpc, off, a)
  {
    forall r | Seen(t, r) && Covers(r, cluster)
      ensures Seen(kids[i].sub, r)
    {
      var k := SeenBelow(kids, r);
      SeenInRange(kids, lo, hi, k, r);
      assert KidsApart(kids, i, k) && KidBelow(kids, i, cluster, k);
    }
    forall r | Seen(kids[i].sub, r) && Covers(r, cluster)
      ensures Seen(t, r)
    {
      SeenInTree(kids[i].sub, r);
      InRange(kids[i].sub, kids[i].cpos, kids[i].cpos + kids[i].clusters, r);
      assert SeenIn(kids, i, r);
    }
  }

  ghost predicate SeenIn(kids: seq<Kid>, k: nat, r: Rec) {
    k < |kids| && kids[k].clusters != 0 && kids[k].cpos + kids[k].clusters < UINT32_RANGE && Seen(kids[k].sub, r)
  }

  lemma SeenBelow(kids: seq<Kid>, r: Rec) returns (k: nat)
    requires Seen(Branch(kids), r)
    ensures SeenIn(kids, k, r)
  {
    k :| k < |kids| && kids[k].clusters != 0 && kids[k].cpos + kids[k].clusters < UINT32_RANGE && Seen(kids[k].sub, r);
  }

  lemma SeenInRange(kids: seq<Kid>, lo: nat, hi: nat, k: nat, r: Rec)
    requires WellFormed(Branch(kids), lo, hi) && SeenIn(kids, k, r)
    ensures kids[k].cpos <= r.cpos && r.cpos + r.clusters <= kids[k].cpos + kids[k].clusters
  {
    SeenInTree(kids[k].sub, r);
    InRange(kids[k].sub, kids[k].cpos, kids[k].cpos + kids[k].clusters, r);
  }

  lemma NoKid(t: Tree, kids: seq<Kid>, lo: nat, hi: nat, i: nat, cluster: nat)
    requires t == Branch(kids) && WellFormed(t, lo, hi) && i == |kids| && forall k: nat :: KidBelow(kids, i, cluster, k)
    ensures forall r :: Seen(t, r) ==> !Covers(r, cluster)
  {
    forall r | Seen(t, r)
      ensures !Covers(r, cluster)
    {
      var k := SeenBelow(kids, r);
      SeenInRange(kids, lo, hi, k, r);
      assert KidBelow(kids, i, cluster, k);
    }
  }

  /** What is printed is right if and only if the covering record, if there is one, is seen. */
  lemma PrintedIsRight(t: Tree, lo: nat, hi: nat, cluster: nat, bpc: nat, off: nat, a: nat)
    requires WellFormed(t, lo, hi) && Printed(t, cluster, bpc, off, a)
    requires forall r :: InTree(t, r) ==> r.blkno > 0
    ensures Answer(t, cluster, bpc, off, a) <==> forall r :: InTree(t, r) && Covers(r, cluster) ==> Seen(t, r)
  {
    forall r | Seen(t, r)
      ensures InTree(t, r)
    {
      SeenInTree(t, r);
    }
    if r :| InTree(t, r) && Covers(r, cluster) && !Seen(t, r) {
      forall s | Seen(t, s)
        ensures !Covers(s, cluster)
      {
        if Covers(s, cluster) {
          CoverUnique(t, lo, hi, cluster, r, s);
          assert false;
        }
      }
      assert a == 0;
    }
  }

  /** The last cluster that a file can have is mapped to block 800, and 0 is printed for it. */
  lemma LastClusterMissed()
    ensures var r, off := Rec(UINT32_RANGE - 1, 1, 800), UINT32_RANGE - 1;
            && WellFormed(Leaves([r]), 0, UINT32_RANGE) && Lookup(Flatten(Leaves([r])), 1, off) == 800
            && Printed(Leaves([r]), ClusterOf(1, off), 1, off, 0)
  {
    var r, off := Rec(UINT32_RANGE - 1, 1, 800), UINT32_RANGE - 1;
    assert [r][..0] == [] && NonEmpty([]) == [] && NonEmpty([r]) == [r];
    assert ClusterOf(1, off) == off && Covers(r, off) && Place(r, 1, off) == 800;
  }

  // ---- 32 bits ------------------------------------------------------------------------------

  /** Below 2^32 clusters, and for records of less than 2^32 blocks, neither cluster nor distance is cut off. */
  lemma PlaceIsPlain(r: Rec, bpc: nat, off: nat)
    requires bpc > 0 && off / bpc < UINT32_RANGE && r.clusters * bpc <= UINT32_RANGE && Covers(r, ClusterOf(bpc, off))
    ensures r.cpos * bpc <= off < r.cpos * bpc + r.clusters * bpc
    ensures Place(r, bpc, off) == r.blkno + (off - r.cpos * bpc)
  {
    var q := off / bpc;
    assert ClusterOf(bpc, off) == q;
    assert q * bpc <= off < q * bpc + bpc;
    Product(r.cpos, q, bpc);
    Product(q + 1, r.cpos + r.clusters, bpc);
    assert (q + 1) * bpc == q * bpc + bpc;
    assert (r.cpos + r.clusters) * bpc == r.cpos * bpc + r.clusters * bpc;
  }

  /** Beyond that the answer is the one for the offset reduced by 2^32 clusters. */
  lemma OffsetWraps(r: Rec, bpc: nat, off: nat)
    requires bpc > 0
    ensures ClusterOf(bpc, off + bpc * UINT32_RANGE) == ClusterOf(bpc, off)
    ensures Place(r, bpc, off + bpc * UINT32_RANGE) == Place(r, bpc, off)
  {
    DivShift(off, bpc, UINT32_RANGE);
    ModShift(off / bpc, 1);
    ModShift(off - r.cpos * bpc, bpc);
  }

  lemma DivShift(x: nat, d: nat, k: nat)
    requires d > 0
    ensures (x + d * k) / d == x / d + k
  {
    var q := x / d;
    assert x == q * d + x % d;
    assert x + d * k == (q + k) * d + x % d;
    DivUnique(x + d * k, d, q + k, x % d);
  }

  lemma DivUnique(x: nat, d: nat, q: nat, r: nat)
    requires d > 0 && r < d && x == q * d + r
    ensures x / d == q
  {
    var p: nat := x / d;
    var s: nat := x % d;
    assert x == p * d + s && s < d;
    if p < q {
      Product(p + 1, q, d);
      OneMore(p, d);
    } else if q < p {
      Product(q + 1, p, d);
      OneMore(q, d);
    }
  }

  lemma OneMore(a: nat, d: nat)
    ensures (a + 1) * d == a * d + d
  {
  }

  lemma ModShift(x: int, k: nat)
    ensures (x + k * UINT32_RANGE) % UINT32_RANGE == x % UINT32_RANGE
  {
    if k > 0 {
      ModShift(x, k - 1);
      assert x + k * UINT32_RANGE == x + (k - 1) * UINT32_RANGE + UINT32_RANGE;
    }
  }

  // ---- from physical to logical -------------------------------------------------------------

  /** What is known about a block that is asked for. */
  datatype Status = Unknown | Meta | Data(offset: nat)

  datatype Query = Query(blkno: nat, status: Status)

  /** What a walk over the tree meets: an extent block, or a leaf record. */
  datatype Event = Block(blkno: nat) | Extent(r: Rec)

  function Events(t: Tree): seq<Event>
    decreases t, 1
  {
    match t
    case Leaves(recs) => LeafEvents(recs, |recs|)
    case Branch(kids) => KidEvents(t, |kids|)
  }

  function LeafEvents(recs: seq<Rec>, n: nat): seq<Event>
    requires n <= |recs|
  {
    if n == 0 then [] else LeafEvents(recs, n - 1) + if recs[n-1].clusters != 0 then [Extent(recs[n-1])] else []
  }

  function KidEvents(t: Tree, n: nat): seq<Event>
    requires t.Branch? && n <= |t.kids|
    decreases t, 0, n
  {
    if n == 0 then []
    else
      KidEvents(t, n - 1) +
      if t.kids[n-1].clusters != 0 then [Block(t.kids[n-1].blkno)] + Events(t.kids[n-1].sub) else []
  }

  predicate Holds(e: Event, bpc: nat, b: nat) {
    match e
    case Block(x) => b == x
    case Extent(r) => r.blkno <= b < r.blkno + r.clusters * bpc
  }

  function Found(e: Event, bpc: nat, b: nat): Status
    requires Holds(e, bpc, b)
  {
    match e
    case Block(_) => Meta
    case Extent(r) => Data(r.cpos * bpc + (b - r.blkno))
  }

  /** One event settles a query that is still open. */
  function Settle(q: Query, bpc: nat, e: Event): Query {
    if q.status.Unknown? && Holds(e, bpc, q.blkno) then q.(status := Found(e, bpc, q.blkno)) else q
  }

  function SettleAll(q: Query, bpc: nat, es: seq<Event>): Query {
    if es == [] then q else Settle(SettleAll(q, bpc, es[..|es|-1]), bpc, es[|es|-1])
  }

  function Open(qs: seq<Query>): nat {
    if qs == [] then 0 else Open(qs[..|qs|-1]) + if qs[|qs|-1].status.Unknown? then 1 else 0
  }

  ghost predicate SettledAt(q0: seq<Query>, qs: seq<Query>, bpc: nat, es: seq<Event>, j: nat) {
    j < |q0| && j < |qs| ==> qs[j] == SettleAll(q0[j], bpc, es)
  }

  /** All queries have been settled by the events. */
  ghost predicate Settled(q0: seq<Query>, qs: seq<Query>, bpc: nat, es: seq<Event>) {
    |qs| == |q0| && forall j: nat :: SettledAt(q0, qs, bpc, es, j)
  }

  lemma {:induction false} SettleConcat(q: Query, bpc: nat, a: seq<Event>, b: seq<Event>)
    ensures SettleAll(q, bpc, a + b) == SettleAll(SettleAll(q, bpc, a), bpc, b)
  {
    if b == [] {
      assert a + b == a;
    } else {
      SettleConcat(q, bpc, a, b[..|b|-1]);
      assert (a + b)[..|a+b|-1] == a + b[..|b|-1];
    }
  }

  lemma SettledThen(q0: seq<Query>, q1: seq<Query>, q2: seq<Query>, bpc: nat, a: seq<Event>, b: seq<Event>)
    requires Settled(q0, q1, bpc, a) && Settled(q1, q2, bpc, b)
    ensures Settled(q0, q2, bpc, a + b)
  {
    var es := a + b;
    forall j: nat
      ensures SettledAt(q0, q2, bpc, es, j)
    {
      assert SettledAt(q0, q1, bpc, a, j) && SettledAt(q1, q2, bpc, b, j);
      if j < |q0| {
        SettleConcat(q0[j], bpc, a, b);
      }
    }
  }

  /** Once every query is settled, further events change nothing. */
  lemma NothingOpen(qs: seq<Query>, bpc: nat, es: seq<Event>)
    requires Open(qs) == 0
    ensures Settled(qs, qs, bpc, es)
  {
    forall j: nat
      ensures SettledAt(qs, qs, bpc, es, j)
    {
      if j < |qs| {
        OpenCounts(qs, j);
        KnownStays(qs[j], bpc, es);
      }
    }
  }

  lemma {:induction false} OpenCounts(qs: seq<Query>, j: nat)
    requires j < |qs|
    ensures qs[j].status.Unknown? ==> Open(qs) > 0
  {
    if j < |qs| - 1 {
      OpenCounts(qs[..|qs|-1], j);
    }
  }

  lemma {:induction false} KnownStays(q: Query, bpc: nat, es: seq<Event>)
    requires !q.status.Unknown?
    ensures SettleAll(q, bpc, es) == q
  {
    if es != [] {
      KnownStays(q, bpc, es[..|es|-1]);
    }
  }

  lemma {:induction false} OpenReplaced(qs: seq<Query>, j: nat, q: Query)
    requires j < |qs| && qs[j].status.Unknown? && !q.status.Unknown?
    ensures Open(qs[j := q]) == Open(qs) - 1
  {
    var n := |qs| - 1;
    if j < n {
      OpenReplaced(qs[..n], j, q);
      assert qs[j := q][..n] == qs[..n][j := q];
    } else {
      assert qs[j := q][..n] == qs[..n];
    }
  }

  class BlockFinder {
    var queries: seq<Query>
    var found: nat
    const bpc: nat

    constructor (queries: seq<Query>, bpc: nat)
      requires Open(queries) == |queries|
      ensures this.queries == queries && this.bpc == bpc && found == 0
    {
      this.queries, this.bpc, this.found := queries, bpc, 0;
    }

    /** The counter is the number of queries that are settled. */
    ghost predicate Counted()
      reads this
    {
      found + Open(queries) == |queries|
    }

    /** Compares one extent or extent block with every open query. */
    method Meet(e: Event)
      requires Counted()
      modifies this
      ensures Counted() && Settled(old(queries), queries, bpc, [e])
    {
      ghost var q0 := queries;
      var j := 0;
      while j < |queries|
        invariant j <= |queries| == |q0| && Counted()
        invariant forall k | 0 <= k < j :: queries[k] == Settle(q0[k], bpc, e)
        invariant forall k | j <= k < |queries| :: queries[k] == q0[k]
      {
        var q := queries[j];
        if q.status.Unknown? && Holds(e, bpc, q.blkno) {
          OpenReplaced(queries, j, q.(status := Found(e, bpc, q.blkno)));
          queries := queries[j := q.(status := Found(e, bpc, q.blkno))];
          found := found + 1;
        }
        j := j + 1;
      }
      forall k: nat
        ensures SettledAt(q0, queries, bpc, [e], k)
      {
        SettleOne(q0, queries, bpc, e, k);
      }
    }

    /** Walks the tree until it is done or nothing is left to find. */
    method LookupRegular(t: Tree)
      requires Counted()
      modifies this
      ensures Counted() && Settled(old(queries), queries, bpc, Events(t))
      decreases t
    {
      if found >= |queries| {
        NothingOpen(queries, bpc, Events(t));
        return;
      }
      ghost var q0 := queries;
      match t {
        case Leaves(recs) =>
          LookupLeaf(recs);
        case Branch(kids) =>
          var i := 0;
          NothingMet(q0, bpc);
          while i < |kids|
            invariant i <= |kids| && Counted() && Settled(q0, queries, bpc, KidEvents(t, i))
          {
            if kids[i].clusters != 0 {
              ghost var q1 := queries;
              Meet(Block(kids[i].blkno));
              ghost var q2 := queries;
              LookupRegular(kids[i].sub);
              SettledThen(q1, q2, queries, bpc, [Block(kids[i].blkno)], Events(kids[i].sub));
              SettledThen(q0, q1, queries, bpc, KidEvents(t, i), [Block(kids[i].blkno)] + Events(kids[i].sub));
            } else {
              assert KidEvents(t, i) + [] == KidEvents(t, i);
            }
            i := i + 1;
          }
      }
    }

    method LookupLeaf(recs: seq<Rec>)
      requires Counted()
      modifies this
      ensures Counted() && Settled(old(queries), queries, bpc, LeafEvents(recs, |recs|))
    {
      ghost var q0 := queries;
      var i := 0;
      NothingMet(q0, bpc);
      while i < |recs|
        invariant i <= |recs| && Counted() && Settled(q0, queries, bpc, LeafEvents(recs, i))
      {
        if recs[i].clusters != 0 {
          ghost var q1 := queries;
          Meet(Extent(recs[i]));
          SettledThen(q0, q1, queries, bpc, LeafEvents(recs, i), [Extent(recs[i])]);
          if found >= |queries| {
            StopEarly(q0, queries, bpc, recs, i + 1);
            return;
          }
        } else {
          assert LeafEvents(recs, i) + [] == LeafEvents(recs, i);
        }
        i := i + 1;
      }
    }
  }

  lemma SettleOne(q0: seq<Query>, qs: seq<Query>, bpc: nat, e: Event, k: nat)
    requires |qs| == |q0| && forall i | 0 <= i < |qs| :: qs[i] == Settle(q0[i], bpc, e)
    ensures SettledAt(q0, qs, bpc, [e], k)
  {
    if k < |q0| {
      assert [e][..0] == [];
      assert SettleAll(q0[k], bpc, []) == q0[k];
    }
  }

  lemma NothingMet(qs: seq<Query>, bpc: nat)
    ensures Settled(qs, qs, bpc, [])
  {
  }

  lemma {:induction false} LeafTail(recs: seq<Rec>, i: nat, n: nat) returns (tail: seq<Event>)
    requires i <= n <= |recs|
    ensures LeafEvents(recs, n) == LeafEvents(recs, i) + tail
    decreases n
  {
    tail := [];
    if i < n {
      var t := LeafTail(recs, i, n - 1);
      tail := t + if recs[n-1].clusters != 0 then [Extent(recs[n-1])] else [];
    }
  }

  lemma StopEarly(q0: seq<Query>, qs: seq<Query>, bpc: nat, recs: seq<Rec>, i: nat)
    requires i <= |recs| && Settled(q0, qs, bpc, LeafEvents(recs, i)) && Open(qs) == 0
    ensures Settled(q0, qs, bpc, LeafEvents(recs, |recs|))
  {
    var tail := LeafTail(recs, i, |recs|);
    NothingOpen(qs, bpc, tail);
    SettledThen(q0, qs, qs, bpc, LeafEvents(recs, i), tail);
  }

  // ---- the two lookups are inverse ----------------------------------------------------------

  lemma InFront(a: seq<Event>, b: seq<Event>, e: Event)
    requires e in a
    ensures e in a + b
  {
  }

  lemma InBack(a: seq<Event>, b: seq<Event>, e: Event)
    requires e in b
    ensures e in a + b
  {
  }

  lemma {:induction false} LeafEventsHold(recs: seq<Rec>, n: nat, k: nat)
    requires k < n <= |recs| && recs[k].clusters != 0
    ensures Extent(recs[k]) in LeafEvents(recs, n)
  {
    var before := LeafEvents(recs, n - 1);
    if k < n - 1 {
      LeafEventsHold(recs, n - 1, k);
      InFront(before, if recs[n-1].clusters != 0 then [Extent(recs[n-1])] else [], Extent(recs[k]));
    } else {
      InBack(before, [Extent(recs[k])], Extent(recs[k]));
    }
  }

  /** Every record of the tree is met on the walk. */
  lemma {:induction false} EventsHold(t: Tree, r: Rec)
    requires InTree(t, r)
    ensures Extent(r) in Events(t)
    decreases t, 1
  {
    match t
    case Leaves(recs) =>
      var k :| 0 <= k < |recs| && recs[k] == r;
      LeafEventsHold(recs, |recs|, k);
    case Branch(kids) =>
      var i: nat :| i < |kids| && kids[i].clusters != 0 && InTree(kids[i].sub, r);
      KidEventsHold(t, |kids|, i, r);
  }

  lemma {:induction false} KidEventsHold(t: Tree, n: nat, i: nat, r: Rec)
    requires t.Branch? && i < n <= |t.kids| && t.kids[i].clusters != 0 && InTree(t.kids[i].sub, r)
    ensures Extent(r) in KidEvents(t, n)
    decreases t, 0, n
  {
    var before, last := KidEvents(t, n - 1), t.kids[n-1];
    if i < n - 1 {
      KidEventsHold(t, n - 1, i, r);
      InFront(before, if last.clusters != 0 then [Block(last.blkno)] + Events(last.sub) else [], Extent(r));
    } else {
      EventsHold(last.sub, r);
      InBack([Block(last.blkno)], Events(last.sub), Extent(r));
      InBack(before, [Block(last.blkno)] + Events(last.sub), Extent(r));
    }
  }

  /** No block of the disk belongs to two extents or extent blocks. */
  ghost predicate NoneShared(es: seq<Event>, bpc: nat) {
    forall i: nat, j: nat, b: nat :: NotBoth(es, bpc, i, j, b)
  }

  ghost predicate NotBoth(es: seq<Event>, bpc: nat, i: nat, j: nat, b: nat) {
    i < j < |es| ==> !(Holds(es[i], bpc, b) && Holds(es[j], bpc, b))
  }

  lemma {:induction false} SettledByOne(es: seq<Event>, bpc: nat, b: nat, k: nat, n: nat)
    requires NoneShared(es, bpc) && k < |es| && n <= |es| && Holds(es[k], bpc, b)
    ensures SettleAll(Query(b, Unknown), bpc, es[..n]) == Query(b, if k < n then Found(es[k], bpc, b) else Unknown)
    decreases n
  {
    if n > 0 {
      SettledByOne(es, bpc, b, k, n - 1);
      assert es[..n][..n-1] == es[..n-1];
      assert NotBoth(es, bpc, n - 1, k, b) && NotBoth(es, bpc, k, n - 1, b);
    }
  }

  /**
   The disk block that the search prints for a mapped logical block leads back to that logical block, if the
   record is seen; otherwise it prints 0.
   */
  lemma LookupInverts(t: Tree, lo: nat, hi: nat, bpc: nat, off: nat, r: Rec, a: nat)
    requires bpc > 0 && WellFormed(t, lo, hi) && NoneShared(Events(t), bpc)
    requires InTree(t, r) && Covers(r, ClusterOf(bpc, off)) && Printed(t, ClusterOf(bpc, off), bpc, off, a)
    requires off / bpc < UINT32_RANGE && r.clusters * bpc <= UINT32_RANGE
    ensures Seen(t, r) ==> a == r.blkno + (off - r.cpos * bpc) == Lookup(Flatten(t), bpc, off)
    ensures Seen(t, r) ==> SettleAll(Query(a, Unknown), bpc, Events(t)).status == Data(off)
    ensures !Seen(t, r) ==> a == 0
  {
    if Seen(t, r) {
      PlaceIsPlain(r, bpc, off);
      OneCovers(t, lo, hi, bpc, off, r);
      EventsHold(t, r);
      var es := Events(t);
      var k :| 0 <= k < |es| && es[k] == Extent(r);
      SettledByOne(es, bpc, a, k, |es|);
      assert es[..|es|] == es;
    } else {
      forall s | Seen(t, s)
        ensures !Covers(s, ClusterOf(bpc, off))
      {
        SeenInTree(t, s);
        if Covers(s, ClusterOf(bpc, off)) {
          CoverUnique(t, lo, hi, ClusterOf(bpc, off), r, s);
          assert false;
        }
      }
    }
  }

  lemma OneCovers(t: Tree, lo: nat, hi: nat, bpc: nat, off: nat, r: Rec)
    requires bpc > 0 && WellFormed(t, lo, hi) && InTree(t, r) && Covers(r, ClusterOf(bpc, off))
    ensures Lookup(Flatten(t), bpc, off) == Place(r, bpc, off)
  {
    LookupHits(Flatten(t), bpc, off);
    FlattenHolds(t, r);
    forall s | s in Flatten(t) && Covers(s, ClusterOf(bpc, off))
      ensures s == r
    {
      FlattenHolds(t, s);
      CoverUnique(t, lo, hi, ClusterOf(bpc, off), r, s);
    }
  }

  /** At most one record covers a cluster. */
  lemma {:induction false} CoverUnique(t: Tree, lo: nat, hi: nat, cluster: nat, r: Rec, s: Rec)
    requires WellFormed(t, lo, hi) && InTree(t, r) && InTree(t, s) && Covers(r, cluster) && Covers(s, cluster)
    ensures r == s
    decreases t
  {
    match t
    case Leaves(recs) =>
      var i :| 0 <= i < |recs| && recs[i] == r;
      var j :| 0 <= j < |recs| && recs[j] == s;
      assert RecsApart(recs, i, j) && RecsApart(recs, j, i);
    case Branch(kids) =>
      var i: nat :| i < |kids| && kids[i].clusters != 0 && InTree(kids[i].sub, r);
      var j: nat :| j < |kids| && kids[j].clusters != 0 && InTree(kids[j].sub, s);
      InRange(kids[i].sub, kids[i].cpos, kids[i].cpos + kids[i].clusters, r);
      InRange(kids[j].sub, kids[j].cpos, kids[j].cpos + kids[j].clusters, s);
      assert KidsApart(kids, i, j) && KidsApart(kids, j, i);
      CoverUnique(kids[i].sub, kids[i].cpos, kids[i].cpos + kids[i].clusters, cluster, r, s);
  }

  /** The block holds part of the tree. */
  ghost predicate IsTreeBlock(t: Tree, b: nat) {
    t.Branch? && exists i: nat | i < |t.kids| ::
                   t.kids[i].clusters != 0 && (t.kids[i].blkno == b || IsTreeBlock(t.kids[i].sub, b))
  }

  lemma {:induction false} TreeBlockMet(t: Tree, b: nat)
    requires IsTreeBlock(t, b)
    ensures Block(b) in Events(t)
    decreases t, 1
  {
    var i: nat :| i < |t.kids| && t.kids[i].clusters != 0 && (t.kids[i].blkno == b || IsTreeBlock(t.kids[i].sub, b));
    KidBlockMet(t, |t.kids|, i, b);
  }

  lemma {:induction false} KidBlockMet(t: Tree, n: nat, i: nat, b: nat)
    requires t.Branch? && i < n <= |t.kids| && t.kids[i].clusters != 0
    requires t.kids[i].blkno == b || IsTreeBlock(t.kids[i].sub, b)
    ensures Block(b) in KidEvents(t, n)
    decreases t, 0, n
  {
    var before, last := KidEvents(t, n - 1), t.kids[n-1];
    if i < n - 1 {
      KidBlockMet(t, n - 1, i, b);
      InFront(before, if last.clusters != 0 then [Block(last.blkno)] + Events(last.sub) else [], Block(b));
    } else {
      if last.blkno == b {
        InFront([Block(last.blkno)], Events(last.sub), Block(b));
      } else {
        TreeBlockMet(last.sub, b);
        InBack([Block(last.blkno)], Events(last.sub), Block(b));
      }
      InBack(before, [Block(last.blkno)] + Events(last.sub), Block(b));
    }
  }

  /** A block of the tree that is asked for is reported as such. */
  lemma TreeBlockReported(t: Tree, bpc: nat, b: nat)
    requires NoneShared(Events(t), bpc) && IsTreeBlock(t, b)
    ensures SettleAll(Query(b, Unknown), bpc, Events(t)).status == Meta
  {
    TreeBlockMet(t, b);
    var es := Events(t);
    var k :| 0 <= k < |es| && es[k] == Block(b);
    SettledByOne(es, bpc, b, k, |es|);
    assert es[..|es|] == es;
  }

  /** A block that belongs neither to the tree nor to an extent stays unknown. */
  lemma {:induction false} OthersStayUnknown(es: seq<Event>, bpc: nat, b: nat)
    requires forall k | 0 <= k < |es| :: !Holds(es[k], bpc, b)
    ensures SettleAll(Query(b, Unknown), bpc, es) == Query(b, Unknown)
  {
    if es != [] {
      OthersStayUnknown(es[..|es|-1], bpc, b);
      assert !Holds(es[|es|-1], bpc, b);
    }
  }
}
