/**
 The store of link counts (fsck.ocfs2/icount.c), which keeps counts of one in a bitmap and larger ones in
 a search tree, and pass 4b (fsck.ocfs2/pass4.c), which makes the counts on disk agree with the references.
 */
module LinkCount {
  import opened Common

  const UINT16_RANGE: nat := 0x1_0000

  // ---- the search tree ----------------------------------------------------------------------

  datatype Tree = Leaf | Node(left: Tree, blkno: nat, count: nat, right: Tree)

  function Get(t: Tree, b: nat): nat {
    match t
    case Leaf => 0
    case Node(l, k, n, r) => if b < k then Get(l, b) else if b > k then Get(r, b) else n
  }

  /** All keys lie in `lo..hi`, in search order, and all counts are above one. */
  ghost predicate Ordered(t: Tree, lo: nat, hi: nat) {
    match t
    case Leaf => true
    case Node(l, k, n, r) => lo <= k < hi && 1 < n < UINT16_RANGE && Ordered(l, lo, k) && Ordered(r, k + 1, hi)
  }

  lemma {:induction false} OutsideIsZero(t: Tree, lo: nat, hi: nat, b: nat)
    requires Ordered(t, lo, hi)
    ensures Get(t, b) != 0 ==> lo <= b < hi && Get(t, b) > 1
  {
    match t
    case Leaf =>
    case Node(l, k, n, r) =>
      OutsideIsZero(l, lo, k, b);
      OutsideIsZero(r, k + 1, hi, b);
  }

  /** Hangs a new node where the search for it ends. */
  function Insert(t: Tree, b: nat, n: nat): Tree {
    match t
    case Leaf => Node(Leaf, b, n, Leaf)
    case Node(l, k, m, r) =>
      if b < k then Node(Insert(l, b, n), k, m, r)
      else if b > k then Node(l, k, m, Insert(r, b, n))
      else Node(l, k, n, r)
  }

  lemma {:induction false} InsertWorks(t: Tree, b: nat, n: nat, lo: nat, hi: nat)
    requires Ordered(t, lo, hi) && lo <= b < hi && 1 < n < UINT16_RANGE
    ensures Ordered(Insert(t, b, n), lo, hi)
    ensures forall x: nat :: Get(Insert(t, b, n), x) == if x == b then n else Get(t, x)
  {
    match t
    case Leaf =>
    case Node(l, k, m, r) =>
      if b < k {
        InsertWorks(l, b, n, lo, k);
      } else if b > k {
        InsertWorks(r, b, n, k + 1, hi);
      }
  }

  /** The leftmost node of a tree. */
  function First(t: Tree): (r: (nat, nat))
    requires t.Node?
  {
    if t.left.Leaf? then (t.blkno, t.count) else First(t.left)
  }

  /** Takes a node out of the tree. */
  function Erase(t: Tree, b: nat): Tree {
    match t
    case Leaf => Leaf
    case Node(l, k, n, r) =>
      if b < k then Node(Erase(l, b), k, n, r)
      else if b > k then Node(l, k, n, Erase(r, b))
      else if r.Leaf? then l
      else Node(l, First(r).0, First(r).1, Erase(r, First(r).0))
  }

  lemma {:induction false} FirstIsLeast(t: Tree, lo: nat, hi: nat)
    requires t.Node? && Ordered(t, lo, hi)
    ensures lo <= First(t).0 < hi && Get(t, First(t).0) == First(t).1 && 1 < First(t).1 < UINT16_RANGE
    ensures forall x: nat :: x < First(t).0 ==> Get(t, x) == 0
  {
    forall x: nat | x < First(t).0
      ensures Get(t, x) == 0
    {
      if t.left.Node? {
        FirstIsLeast(t.left, lo, t.blkno);
      }
    }
    if t.left.Node? {
      FirstIsLeast(t.left, lo, t.blkno);
    }
  }

  /** The bounds of a tree can be tightened to what it holds. */
  lemma {:induction false} Tighten(t: Tree, lo: nat, hi: nat, lo': nat)
    requires Ordered(t, lo, hi) && forall x: nat :: x < lo' ==> Get(t, x) == 0
    ensures Ordered(t, lo', hi)
  {
    match t
    case Leaf =>
    case Node(l, k, n, r) =>
      assert Get(t, k) == n;
      forall x: nat | x < lo'
        ensures Get(l, x) == 0
      {
        assert Get(t, x) == 0;
      }
      Tighten(l, lo, k, lo');
  }

  lemma {:induction false} EraseWorks(t: Tree, b: nat, lo: nat, hi: nat)
    requires Ordered(t, lo, hi)
    ensures Ordered(Erase(t, b), lo, hi)
    ensures forall x: nat :: Get(Erase(t, b), x) == if x == b then 0 else Get(t, x)
  {
    match t
    case Leaf =>
    case Node(l, k, n, r) =>
      if b < k {
        EraseWorks(l, b, lo, k);
        OutsideAll(r, k + 1, hi);
      } else if b > k {
        EraseWorks(r, b, k + 1, hi);
        OutsideAll(l, lo, k);
      } else if r.Leaf? {
        OutsideAll(l, lo, k);
        Widen(l, lo, k, hi);
      } else {
        var (f, m) := First(r);
        FirstIsLeast(r, k + 1, hi);
        EraseWorks(r, f, k + 1, hi);
        Tighten(Erase(r, f), k + 1, hi, f + 1);
        Widen(l, lo, k, f);
        OutsideAll(l, lo, k);
        OutsideAll(r, k + 1, hi);
      }
  }

  lemma {:induction false} Widen(t: Tree, lo: nat, hi: nat, hi': nat)
    requires Ordered(t, lo, hi) && hi <= hi'
    ensures Ordered(t, lo, hi')
  {
    match t
    case Leaf =>
    case Node(l, k, n, r) => Widen(r, k + 1, hi, hi');
  }

  lemma OutsideAll(t: Tree, lo: nat, hi: nat)
    requires Ordered(t, lo, hi)
    ensures forall x: nat :: x < lo || hi <= x ==> Get(t, x) == 0
  {
    forall x: nat | x < lo || hi <= x
      ensures Get(t, x) == 0
    {
      OutsideIsZero(t, lo, hi, x);
    }
  }

  /** What a search finds: the node itself, or else the next one. */
  ghost predicate IsNext(t: Tree, b: nat, next: Option<nat>) {
    match next
    case None => forall x: nat :: b < x ==> Get(t, x) == 0
    case Some(k) => b < k && Get(t, k) != 0 && forall x: nat :: b < x < k ==> Get(t, x) == 0
  }

  /** The part of the tree still to be searched stands for the whole around `b`. */
  ghost predicate SearchAt(t: Tree, node: Tree, b: nat, lo: nat, hi: nat, next: Option<nat>) {
    && Ordered(node, lo, hi) && lo <= b < hi
    && (forall x: nat :: lo <= x < hi ==> Get(t, x) == Get(node, x))
    && (next.Some? ==> next.value == hi && Get(t, hi) != 0)
    && (next.None? ==> forall x: nat :: hi <= x ==> Get(t, x) == 0)
  }

  /** Searches for a block; on failure it reports the last node at which it went left. */
  method Search(t: Tree, b: nat, ghost bound: nat) returns (count: nat, next: Option<nat>)
    requires Ordered(t, 0, bound) && b < bound
    ensures count == Get(t, b)
    ensures count == 0 ==> IsNext(t, b, next)
  {
    var node := t;
    next := None;
    ghost var lo: nat, hi: nat := 0, bound;
    OutsideAll(t, 0, bound);
    while node.Node?
      invariant SearchAt(t, node, b, lo, hi, next)
      decreases node
    {
      if b < node.blkno {
        SearchLeft(t, node, b, lo, hi, next);
        next, hi := Some(node.blkno), node.blkno;
        node := node.left;
      } else if b > node.blkno {
        SearchRight(t, node, b, lo, hi, next);
        lo := node.blkno + 1;
        node := node.right;
      } else {
        return node.count, next;
      }
    }
    count := 0;
  }

  lemma SearchLeft(t: Tree, node: Tree, b: nat, lo: nat, hi: nat, next: Option<nat>)
    requires node.Node? && SearchAt(t, node, b, lo, hi, next) && b < node.blkno
    ensures SearchAt(t, node.left, b, lo, node.blkno, Some(node.blkno))
  {
    assert Get(node, node.blkno) == node.count;
  }

  lemma SearchRight(t: Tree, node: Tree, b: nat, lo: nat, hi: nat, next: Option<nat>)
    requires node.Node? && SearchAt(t, node, b, lo, hi, next) && b > node.blkno
    ensures SearchAt(t, node.right, b, node.blkno + 1, hi, next)
  {
  }

  // ---- the store ----------------------------------------------------------------------------

  class Icount {
    const blocks: nat
    var single: set<nat>
    var tree: Tree

    constructor (blocks: nat)
      ensures this.blocks == blocks && Valid() && forall b: nat :: Count(b) == 0
    {
      this.blocks, this.single, this.tree := blocks, {}, Leaf;
    }

    ghost predicate Valid()
      reads this
    {
      && Ordered(tree, 0, blocks)
      && forall b | b in single :: b < blocks && Get(tree, b) == 0
    }

    /** The count that is stored for a block. */
    ghost function Count(b: nat): nat
      reads this
    {
      if b in single then 1 else Get(tree, b)
    }

    method Set(b: nat, count: nat)
      requires Valid() && b < blocks && count < UINT16_RANGE
      modifies this
      ensures Valid() && forall x: nat :: Count(x) == if x == b then count else old(Count(x))
    {
      if count == 1 {
        single := single + {b};
      } else {
        single := single - {b};
      }
      var found, next := Search(tree, b, blocks);
      OutsideIsZero(tree, 0, blocks, b);
      if found != 0 {
        if count < 2 {
          EraseWorks(tree, b, 0, blocks);
          tree := Erase(tree, b);
        } else {
          InsertWorks(tree, b, count, 0, blocks);
          tree := Insert(tree, b, count);
        }
      } else if count > 1 {
        InsertWorks(tree, b, count, 0, blocks);
        tree := Insert(tree, b, count);
      }
    }

    method GetCount(b: nat) returns (count: nat)
      requires Valid() && b < blocks
      ensures count == Count(b) && count < UINT16_RANGE
    {
      if b in single {
        return 1;
      }
      var next;
      count, next := Search(tree, b, blocks);
      CountFits(tree, 0, blocks, b);
    }

    /** Adds to a count; like every store into sixteen bits it wraps around. */
    method Delta(b: nat, delta: int)
      requires Valid() && b < blocks
      modifies this
      ensures Valid()
      ensures forall x: nat :: Count(x) == if x == b then (old(Count(b)) + delta) % UINT16_RANGE else old(Count(x))
    {
      var prev := GetCount(b);
      if delta == 0 {
        return;
      }
      Set(b, (prev + delta) % UINT16_RANGE);
    }

    /** The first block from `start` on whose count is not zero. */
    method NextBlkno(start: nat) returns (found: Option<nat>)
      requires Valid()
      ensures found.None? ==> forall x: nat :: start <= x ==> Count(x) == 0
      ensures found.Some? ==> start <= found.value < blocks && Count(found.value) != 0
      ensures found.Some? ==> forall x: nat :: start <= x < found.value ==> Count(x) == 0
    {
      OutsideAll(tree, 0, blocks);
      var bit := FindNextSet(start);
      Widen(tree, 0, blocks, blocks + start + 1);
      var count, next := Search(tree, start, blocks + start + 1);
      if count != 0 {
        next := Some(start);
      }
      if next.Some? {
        found := if bit.None? then next else if bit.value < next.value then bit else next;
      } else {
        found := bit;
      }
    }

    /** The first block from `start` on in the bitmap. */
    method FindNextSet(start: nat) returns (bit: Option<nat>)
      requires Valid()
      ensures bit.None? ==> forall x: nat :: start <= x ==> x !in single
      ensures bit.Some? ==>
                start <= bit.value && bit.value in single && forall x: nat :: start <= x < bit.value ==> x !in single
    {
      var i := start;
      while i < blocks
        invariant start <= i && forall x: nat :: start <= x < i ==> x !in single
      {
        if i in single {
          return Some(i);
        }
        i := i + 1;
      }
      return None;
    }
  }

  lemma {:induction false} CountFits(t: Tree, lo: nat, hi: nat, b: nat)
    requires Ordered(t, lo, hi)
    ensures Get(t, b) < UINT16_RANGE
  {
    match t
    case Leaf =>
    case Node(l, k, n, r) =>
      CountFits(l, lo, k, b);
      CountFits(r, k + 1, hi, b);
  }

  // ---- pass 4b ------------------------------------------------------------------------------

  ghost predicate Ascending(s: seq<nat>) { forall i, j | 0 <= i < j < |s| :: s[i] < s[j] }

  /** How many entries of lost+found are for an inode. */
  function Entries(lostFound: seq<nat>, b: nat): nat {
    if lostFound == [] then 0
    else Entries(lostFound[..|lostFound|-1], b) + if lostFound[|lostFound|-1] == b then 1 else 0
  }

  lemma OneMoreEntry(lostFound: seq<nat>, b: nat, x: nat)
    ensures Entries(lostFound + [b], x) == Entries(lostFound, x) + if x == b then 1 else 0
  {
    assert (lostFound + [b])[..|lostFound|] == lostFound;
  }

  /** An inode that can be read, has a link count, and is not referenced. */
  predicate Lost(refs: nat, links: nat, readable: bool) { refs == 0 && links != 0 && readable }

  class Pass4 {
    const refs: Icount
    const links: Icount
    /** The link counts in the inodes on disk; an inode that is missing here cannot be read. */
    var onDisk: map<nat, nat>
    var visited: seq<nat>
    /** The inodes that have been given an entry in lost+found. */
    var lostFound: seq<nat>

    constructor (refs: Icount, links: Icount, onDisk: map<nat, nat>)
      ensures this.refs == refs && this.links == links && this.onDisk == onDisk && visited == [] && lostFound == []
    {
      this.refs, this.links, this.onDisk, this.visited, this.lostFound := refs, links, onDisk, [], [];
    }

    ghost predicate Valid()
      reads this, refs, links
    {
      refs != links && refs.Valid() && links.Valid() && refs.blocks == links.blocks
    }

    ghost predicate Referenced(b: nat)
      reads refs, links
    {
      refs.Count(b) != 0 || links.Count(b) != 0
    }

    /** The next inode with references or with a link count. */
    method NextInodeAnyRef(start: nat) returns (found: Option<nat>)
      requires Valid()
      ensures found.None? ==> forall x: nat :: start <= x ==> !Referenced(x)
      ensures found.Some? ==> start <= found.value < refs.blocks && Referenced(found.value)
      ensures found.Some? ==> forall x: nat :: start <= x < found.value ==> !Referenced(x)
    {
      found := refs.NextBlkno(start);
      var other := links.NextBlkno(start);
      if other.Some? && (found.None? || other.value < found.value) {
        found := other;
      }
    }

    /** Gives an inode an entry in lost+found, which is one more reference to it; it has to be readable. */
    method ReconnectFile(b: nat)
      requires Valid() && b < refs.blocks && refs.Count(b) + 1 < UINT16_RANGE
      modifies refs, this`lostFound
      ensures Valid()
      ensures lostFound == if b in onDisk then old(lostFound) + [b] else old(lostFound)
      ensures forall x: nat :: refs.Count(x) + Entries(old(lostFound), x) == old(refs.Count(x)) + Entries(lostFound, x)
    {
      if b !in onDisk {
        return;
      }
      lostFound := lostFound + [b];
      refs.Delta(b, 1);
      forall x: nat
        ensures Entries(lostFound, x) == Entries(old(lostFound), x) + if x == b then 1 else 0
      {
        OneMoreEntry(old(lostFound), b, x);
      }
    }

    /**
     Reconciles the counts of one inode.  One without references gets an entry in lost+found if it can be read; its
     references are then those entries.
     */
    method CheckLinkCounts(b: nat)
      requires Valid() && b < refs.blocks && Referenced(b)
      modifies refs, links, this`onDisk, this`visited, this`lostFound
      ensures Valid() && visited == old(visited) + [b]
      ensures forall x: nat :: refs.Count(x) + Entries(old(lostFound), x) == old(refs.Count(x)) + Entries(lostFound, x)
      ensures lostFound == if old(refs.Count(b)) == 0 && b in old(onDisk) then old(lostFound) + [b] else old(lostFound)
      ensures forall x: nat :: x != b ==> links.Count(x) == old(links.Count(x))
      ensures links.Count(b) == if b in old(onDisk) then refs.Count(b) else old(links.Count(b))
      ensures onDisk == if b in old(onDisk) && refs.Count(b) != old(links.Count(b))
                        then old(onDisk)[b := refs.Count(b)]
                        else old(onDisk)
    {
      visited := visited + [b];
      var r := refs.GetCount(b);
      var inInode := links.GetCount(b);
      if r == 0 {
        ReconnectFile(b);
        r := refs.GetCount(b);
      }
      if r == inInode {
        return;
      }
      if b !in onDisk {
        return;
      }
      onDisk := onDisk[b := r];
      links.Set(b, r);
    }

    /**
     Visits every inode with a reference or a link count, in ascending order, each once.  Afterwards the
     counts agree for every inode that can be read.  References grow by the entries made in lost+found: one for
     each readable inode that had a link count and no reference, and none for others.
     */
    method Pass4b()
      requires Valid() && visited == [] && lostFound == []
      modifies refs, links, this`onDisk, this`visited, this`lostFound
      ensures Valid() && Ascending(visited) && forall b: nat :: b in visited <==> old(Referenced(b))
      ensures forall b: nat :: refs.Count(b) == old(refs.Count(b)) + Entries(lostFound, b)
      ensures forall b: nat ::
                var lost := Lost(old(refs.Count(b)), old(links.Count(b)), b in old(onDisk));
                Entries(lostFound, b) == if lost then 1 else 0
      ensures forall b: nat | b in visited && b in onDisk :: refs.Count(b) > 0
      ensures forall b: nat :: links.Count(b) == if b in old(onDisk) then refs.Count(b) else old(links.Count(b))
      ensures onDisk.Keys == old(onDisk).Keys
      ensures forall b: nat | b in onDisk ::
                onDisk[b] == if refs.Count(b) != old(links.Count(b)) then refs.Count(b) else old(onDisk)[b]
    {
      ghost var r0 := imap b: nat | true :: refs.Count(b);
      ghost var l0 := imap b: nat | true :: links.Count(b);
      ghost var d0 := onDisk;
      ghost var start := VisitAll(r0, l0, d0);
      forall b: nat
        ensures b in visited <==> r0[b] != 0 || l0[b] != 0
        ensures refs.Count(b) == r0[b] + Entries(lostFound, b)
        ensures Entries(lostFound, b) == if Lost(r0[b], l0[b], b in d0) then 1 else 0
        ensures links.Count(b) == if b in d0 then refs.Count(b) else l0[b]
        ensures b in onDisk ==> onDisk[b] == if refs.Count(b) != l0[b] then refs.Count(b) else d0[b]
      {
        assert VisitedAt(r0, l0, d0, start, b) && (start <= b ==> !Referenced(b));
      }
    }

    /** The rounds of the pass. */
    method VisitAll(ghost r0: imap<nat, nat>, ghost l0: imap<nat, nat>, ghost d0: map<nat, nat>)
      returns (ghost end: nat)
      requires Valid() && visited == [] && lostFound == [] && onDisk == d0
      requires forall b: nat :: VisitedAt(r0, l0, d0, 0, b)
      modifies refs, links, this`onDisk, this`visited, this`lostFound
      ensures Valid() && Ascending(visited) && onDisk.Keys == d0.Keys
      ensures forall b: nat :: VisitedAt(r0, l0, d0, end, b) && (end <= b ==> !Referenced(b))
    {
      var start: nat := 0;
      var next := NextInodeAnyRef(start);
      while next.Some?
        invariant Valid() && Ascending(visited) && onDisk.Keys == d0.Keys
        invariant forall b: nat :: VisitedAt(r0, l0, d0, start, b)
        invariant next.None? ==> forall x: nat :: start <= x ==> !Referenced(x)
        invariant next.Some? ==> start <= next.value < refs.blocks && Referenced(next.value)
        invariant next.Some? ==> forall x: nat :: start <= x < next.value ==> !Referenced(x)
        decreases next.Some?, refs.blocks - start
      {
        VisitOne(next.value, r0, l0, d0, start, next.value + 1);
        start := next.value + 1;
        next := NextInodeAnyRef(start);
      }
      end := start;
    }

    /** One round of the pass. */
    method VisitOne(b: nat, ghost r0: imap<nat, nat>, ghost l0: imap<nat, nat>, ghost d0: map<nat, nat>,
                    ghost start: nat, ghost start': nat)
      requires Valid() && Ascending(visited) && onDisk.Keys == d0.Keys
      requires forall x: nat :: VisitedAt(r0, l0, d0, start, x)
      requires start <= b < refs.blocks && start' == b + 1 && Referenced(b)
      requires forall x: nat :: start <= x < b ==> !Referenced(x)
      modifies refs, links, this`onDisk, this`visited, this`lostFound
      ensures Valid() && Ascending(visited) && onDisk.Keys == d0.Keys
      ensures forall x: nat :: VisitedAt(r0, l0, d0, start', x)
    {
      forall i | 0 <= i < |visited|
        ensures visited[i] < b
      {
        assert VisitedAt(r0, l0, d0, start, visited[i]);
      }
      forall x: nat | start <= x < b
        ensures Quiet(r0, l0, x)
      {
        assert VisitedAt(r0, l0, d0, start, x) && !Referenced(x);
      }
      assert VisitedAt(r0, l0, d0, start, b);
      label Before:
      CheckLinkCounts(b);
      forall x: nat
        ensures VisitedAt(r0, l0, d0, start', x)
      {
        assert old@Before(VisitedAt(r0, l0, d0, start, x));
        OneMoreEntry(old@Before(lostFound), b, x);
        if x != b {
          assert Entries(lostFound, x) == Entries(old@Before(lostFound), x);
          assert start <= x < b ==> Quiet(r0, l0, x);
        }
      }
    }

    /** Where the pass stands for one block, against the counts before it. */
    ghost predicate VisitedAt(r0: imap<nat, nat>, l0: imap<nat, nat>, d0: map<nat, nat>, start: nat, b: nat)
      reads this, refs, links
    {
      && b in r0 && b in l0
      && (b in visited <==> b < start && (r0[b] != 0 || l0[b] != 0))
      && refs.Count(b) == r0[b] + Entries(lostFound, b)
      && Entries(lostFound, b) == (if b < start && Lost(r0[b], l0[b], b in d0) then 1 else 0)
      && links.Count(b) == (if b < start && b in d0 then refs.Count(b) else l0[b])
      && (b in onDisk && b in d0 ==> onDisk[b] == if b < start && refs.Count(b) != l0[b] then refs.Count(b) else d0[b])
    }
  }

  ghost predicate Quiet(r0: imap<nat, nat>, l0: imap<nat, nat>, x: nat) {
    x in r0 && x in l0 && r0[x] == 0 && l0[x] == 0
  }
}
