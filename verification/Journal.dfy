/**
 Journal replay of fsck.ocfs2/journal.c.  Each slot's journal is a circular log; a first walk finds
 the last committed transaction, a second one writes the blocks of the committed transactions back.
 */
module Journal {
  import opened Common

  const INT32_RANGE: nat := 0x8000_0000
  const MAGIC: nat := 0xC03B3998
  const DESCRIPTOR: nat := 1
  const COMMIT: nat := 2
  const REVOKE: nat := 5
  const HEADER_BYTES: nat := 12

  // ---- sequence numbers ---------------------------------------------------------------------

  /** A 32-bit difference read as a signed number. */
  function SignedDiff(x: nat, y: nat): int {
    var d := (x - y) % UINT32_RANGE;
    if d < INT32_RANGE then d else d - UINT32_RANGE
  }

  predicate SeqGeq(x: nat, y: nat) { SignedDiff(x, y) >= 0 }

  /** Walking `n` of `total` numbers up from `s`, the end is recognised exactly at the end. */
  lemma SeqReached(s: nat, n: nat, total: nat)
    requires n <= total <= INT32_RANGE
    ensures SeqGeq((s + n) % UINT32_RANGE, (s + total) % UINT32_RANGE) <==> n == total
  {
    var x, y := (s + n) % UINT32_RANGE, (s + total) % UINT32_RANGE;
    var qx, qy := (s + n) / UINT32_RANGE, (s + total) / UINT32_RANGE;
    assert x == s + n - qx * UINT32_RANGE && y == s + total - qy * UINT32_RANGE;
    assert qx == qy || qx + 1 == qy;
  }

  // ---- the ring -----------------------------------------------------------------------------

  /** A journal as its super block and its inode describe it. */
  datatype Log = Log(maxlen: nat, first: nat, start: nat, sequence: nat, blkno: map<nat, nat>)

  predicate RingOk(j: Log) { j.first <= j.maxlen }

  /** Brings a block offset back into the ring. */
  function Jwrap(j: Log, block: nat): (r: nat)
    requires RingOk(j)
    decreases block
  {
    if j.maxlen == j.first then 0
    else if block >= j.maxlen then Jwrap(j, block - (j.maxlen - j.first))
    else block
  }

  method ComputeJwrap(j: Log, block: nat) returns (b: nat)
    requires RingOk(j)
    ensures b == Jwrap(j, block)
  {
    var diff := j.maxlen - j.first;
    if diff == 0 {
      return 0;
    }
    b := block;
    while b >= j.maxlen
      invariant Jwrap(j, b) == Jwrap(j, block)
    {
      b := b - diff;
    }
  }

  /** The wrapped offset is the one place in the ring that is whole turns away. */
  lemma {:induction false} JwrapInRing(j: Log, block: nat) returns (turns: nat)
    requires j.first < j.maxlen && j.first <= block
    ensures j.first <= Jwrap(j, block) < j.maxlen
    ensures block == Jwrap(j, block) + turns * (j.maxlen - j.first)
    decreases block
  {
    turns := 0;
    if block >= j.maxlen {
      var less := JwrapInRing(j, block - (j.maxlen - j.first));
      turns := less + 1;
    }
  }

  /** Wrapping early changes nothing. */
  lemma {:induction false} JwrapAdd(j: Log, x: nat, n: nat)
    requires j.first < j.maxlen && j.first <= x
    ensures Jwrap(j, Jwrap(j, x) + n) == Jwrap(j, x + n)
    decreases x
  {
    if x >= j.maxlen {
      JwrapAdd(j, x - (j.maxlen - j.first), n);
    }
  }

  // ---- blocks and tags ----------------------------------------------------------------------

  /** One entry of a descriptor block. */
  datatype Tag = Tag(block: nat, last: bool, sameUuid: bool, escape: bool)

  /** A block: its header fields, the tag found at each byte offset, and everything else. */
  datatype Block = Block(magic: nat, blocktype: nat, sequence: nat, tags: seq<Tag>, body: nat)

  /** What the super blocks fix: the tag size and the number of blocks of the volume. */
  datatype Format = Format(tagBytes: nat, fsBlocks: nat)

  predicate FormatOk(f: Format) { f.tagBytes > 0 }

  predicate OutOfRange(f: Format, block: nat) { OutOfVolume(f.fsBlocks, block) }

  /** The tags from byte offset `o` on, up to the last one or as far as the block reaches. */
  function TagList(f: Format, tags: seq<Tag>, o: nat): seq<Tag>
    requires FormatOk(f)
    decreases |tags| - o
  {
    if o + f.tagBytes > |tags| then []
    else [tags[o]] + (if tags[o].last then [] else TagList(f, tags, NextTag(f, tags[o], o)))
  }

  /** A tag that does not repeat the journal's UUID is followed by sixteen bytes of UUID. */
  function NextTag(f: Format, t: Tag, o: nat): nat { o + f.tagBytes + (if t.sameUuid then 0 else 16) }

  function Tags(f: Format, b: Block): seq<Tag>
    requires FormatOk(f)
  {
    TagList(f, b.tags, HEADER_BYTES)
  }

  /** How many of the first `k` tags bring a UUID of their own. */
  function Uuids(ts: seq<Tag>, k: nat): nat
    requires k <= |ts|
  {
    if k == 0 then 0 else Uuids(ts, k - 1) + if ts[k-1].sameUuid then 0 else 1
  }

  /** Where tag `k` of a list that starts at byte `o` stands: behind `k` tags and the UUIDs among them. */
  function TagPlace(f: Format, ts: seq<Tag>, o: nat, k: nat): nat
    requires k <= |ts|
  {
    o + k * f.tagBytes + 16 * Uuids(ts, k)
  }

  lemma {:induction false} UuidsBehind(t: Tag, rest: seq<Tag>, k: nat)
    requires k <= |rest|
    ensures Uuids([t] + rest, k + 1) == (if t.sameUuid then 0 else 1) + Uuids(rest, k)
  {
    if k > 0 {
      UuidsBehind(t, rest, k - 1);
    }
  }

  lemma PlaceBehind(f: Format, t: Tag, rest: seq<Tag>, o: nat, k: nat)
    requires k <= |rest|
    ensures TagPlace(f, [t] + rest, o, k + 1) == TagPlace(f, rest, NextTag(f, t, o), k)
  {
    UuidsBehind(t, rest, k);
    MoreBytes(k, k + 1, f.tagBytes);
  }

  /** The tag read as number `k`, and that reading goes on exactly until the last tag or the end of the block. */
  ghost predicate TagReadAt(f: Format, tags: seq<Tag>, o: nat, ts: seq<Tag>, k: nat)
    requires FormatOk(f)
  {
    if k < |ts| then
      && TagPlace(f, ts, o, k) + f.tagBytes <= |tags| && ts[k] == tags[TagPlace(f, ts, o, k)]
      && (ts[k].last ==> k == |ts| - 1)
    else k == |ts| && (ts == [] || !ts[k-1].last) ==> TagPlace(f, ts, o, k) + f.tagBytes > |tags|
  }

  lemma {:induction false} TagListPlaces(f: Format, tags: seq<Tag>, o: nat, k: nat)
    requires FormatOk(f)
    ensures TagReadAt(f, tags, o, TagList(f, tags, o), k)
    decreases |tags| - o
  {
    var ts := TagList(f, tags, o);
    if o + f.tagBytes <= |tags| {
      var t, next := tags[o], NextTag(f, tags[o], o);
      var rest := if t.last then [] else TagList(f, tags, next);
      assert ts == [t] + rest;
      if !t.last && 0 < k <= |ts| {
        TagListPlaces(f, tags, next, k - 1);
        PlaceBehind(f, t, rest, o, k - 1);
      }
    }
  }

  /**
   Where the tags of a descriptor stand: the first one behind the header of twelve bytes, each next one behind
   the tag before it and its UUID, if it brings one.  They are all tags up to the last one, or that fit.
   */
  lemma TagLayout(f: Format, b: Block, k: nat)
    requires FormatOk(f)
    ensures TagReadAt(f, b.tags, 12, Tags(f, b), k)
  {
    TagListPlaces(f, b.tags, 12, k);
  }

  /** The tags are laid out in the block from byte `o` on. */
  ghost predicate LaidOutAt(f: Format, tags: seq<Tag>, o: nat, ts: seq<Tag>, k: nat)
    requires FormatOk(f)
  {
    k < |ts| ==> TagPlace(f, ts, o, k) + f.tagBytes <= |tags| && tags[TagPlace(f, ts, o, k)] == ts[k]
  }

  ghost predicate OnlyLastIsLast(ts: seq<Tag>) {
    ts != [] && ts[|ts|-1].last && forall k | 0 <= k < |ts| - 1 :: !ts[k].last
  }

  lemma {:induction false} LaidOutIsRead(f: Format, tags: seq<Tag>, o: nat, ts: seq<Tag>)
    requires FormatOk(f) && OnlyLastIsLast(ts) && forall k: nat :: LaidOutAt(f, tags, o, ts, k)
    ensures TagList(f, tags, o) == ts
    decreases |ts|
  {
    assert LaidOutAt(f, tags, o, ts, 0);
    if |ts| > 1 {
      var t, rest, next := ts[0], ts[1..], NextTag(f, ts[0], o);
      assert ts == [t] + rest && !t.last;
      forall k: nat
        ensures LaidOutAt(f, tags, next, rest, k)
      {
        if k < |rest| {
          assert LaidOutAt(f, tags, o, ts, k + 1);
          PlaceBehind(f, t, rest, o, k);
        }
      }
      LaidOutIsRead(f, tags, next, rest);
    }
  }

  /** Whatever list of tags is laid out in a descriptor, reading gives it back. */
  lemma TagsReadBack(f: Format, b: Block, ts: seq<Tag>)
    requires FormatOk(f) && OnlyLastIsLast(ts) && forall k: nat :: LaidOutAt(f, b.tags, 12, ts, k)
    ensures Tags(f, b) == ts
  {
    LaidOutIsRead(f, b.tags, 12, ts);
  }

  predicate EndsInLast(ts: seq<Tag>) { ts != [] && ts[|ts|-1].last }

  /** What counting the tags of a descriptor comes to. */
  function TagCount(f: Format, b: Block): Option<nat>
    requires FormatOk(f)
  {
    if |b.tags| < HEADER_BYTES + f.tagBytes then None
    else if exists k | 0 <= k < |Tags(f, b)| :: OutOfRange(f, Tags(f, b)[k].block) then None
    else Some(|Tags(f, b)|)
  }

  method CountTags(f: Format, b: Block) returns (nr: Option<nat>)
    requires FormatOk(f)
    ensures nr == TagCount(f, b)
  {
    if |b.tags| < HEADER_BYTES + f.tagBytes {
      return None;
    }
    var n: nat, o: nat := 0, HEADER_BYTES;
    ghost var all := Tags(f, b);
    while o + f.tagBytes <= |b.tags|
      invariant n <= |all| && all[n..] == TagList(f, b.tags, o)
      invariant forall k | 0 <= k < n :: !OutOfRange(f, all[k].block)
      decreases |b.tags| - o
    {
      var tag := b.tags[o];
      assert all[n..][0] == tag && all[n..][1..] == all[n+1..];
      n := n + 1;
      if OutOfRange(f, tag.block) {
        return None;
      }
      if tag.last {
        assert all[n..] == [];
        break;
      }
      o := NextTag(f, tag, o);
    }
    nr := Some(n);
  }

  /** A list of tags takes at least as many bytes as its entries. */
  lemma {:induction false} TagsFit(f: Format, tags: seq<Tag>, o: nat)
    requires FormatOk(f)
    ensures |TagList(f, tags, o)| * f.tagBytes <= (if o <= |tags| then |tags| - o else 0)
    decreases |tags| - o
  {
    var n := |TagList(f, tags, o)|;
    if o + f.tagBytes <= |tags| {
      if tags[o].last {
        assert n == 1;
      } else {
        var o' := NextTag(f, tags[o], o);
        TagsFit(f, tags, o');
        MoreBytes(|TagList(f, tags, o')|, n, f.tagBytes);
      }
    }
  }

  lemma MoreBytes(m: nat, n: nat, bytes: nat)
    requires n == m + 1
    ensures n * bytes == m * bytes + bytes
  {
  }

  /** The bound that replay puts on the number of tags is never reached before the last tag. */
  lemma ReplayBound(f: Format, b: Block)
    requires FormatOk(f) && HEADER_BYTES + f.tagBytes <= |b.tags|
    ensures |Tags(f, b)| <= (|b.tags| - HEADER_BYTES) / f.tagBytes
  {
    TagsFit(f, b.tags, HEADER_BYTES);
    AtMostQuotient(|Tags(f, b)|, |b.tags| - HEADER_BYTES, f.tagBytes);
  }

  lemma AtMostQuotient(n: nat, x: nat, d: nat)
    requires d > 0 && n * d <= x
    ensures n <= x / d
  {
    var q := x / d;
    assert x < q * d + d;
    assert q * d + d == (q + 1) * d;
    MulMonotone(q + 1, n, d);
  }

  lemma MulMonotone(a: nat, b: nat, d: nat)
    ensures a <= b ==> a * d <= b * d
  {
  }

  // ---- the walk that looks for commits ------------------------------------------------------

  type Disk = map<nat, Block>

  /** Every block of the journal can be read. */
  ghost predicate Readable(j: Log, disk: Disk) { j.blkno.Values <= disk.Keys }

  /** A block read by the walk: where, with which sequence number in mind, and what it holds. */
  datatype Probe = Probe(pos: nat, seqNo: nat, block: Block)

  /** The block continues the log. */
  predicate Valid(p: Probe) { p.block.magic == MAGIC && p.block.sequence == p.seqNo }

  predicate IsDescriptor(p: Probe) { Valid(p) && p.block.blocktype == DESCRIPTOR }

  predicate IsCommit(p: Probe) { Valid(p) && p.block.blocktype == COMMIT }

  /** Where the walk goes next; a bad tag stops it. */
  function NextPos(j: Log, f: Format, p: Probe): Option<nat>
    requires RingOk(j) && FormatOk(f)
  {
    if !Valid(p) then None
    else if p.block.blocktype == DESCRIPTOR then
      match TagCount(f, p.block)
      case None => None
      case Some(n) => Some(Jwrap(j, Jwrap(j, p.pos + 1) + n))
    else Some(Jwrap(j, p.pos + 1))
  }

  function NextSeq(p: Probe): nat {
    if IsCommit(p) then SeqSucc(p.seqNo) else p.seqNo
  }

  /** The blocks that the first walk reads, given those already claimed by a journal. */
  ghost function Scan(j: Log, f: Format, disk: Disk, used: set<nat>, pos: nat, seqNo: nat): seq<Probe>
    requires RingOk(j) && FormatOk(f) && Readable(j, disk)
    decreases j.blkno.Values - used
  {
    if pos !in j.blkno || j.blkno[pos] in used then []
    else
      var p := Probe(pos, seqNo, disk[j.blkno[pos]]);
      match NextPos(j, f, p)
      case None => [p]
      case Some(pos') => [p] + Scan(j, f, disk, used + {j.blkno[pos]}, pos', NextSeq(p))
  }

  function Commits(t: seq<Probe>): nat {
    if t == [] then 0 else Commits(t[..|t|-1]) + (if IsCommit(t[|t|-1]) then 1 else 0)
  }

  /** The sequence number at which the walk over `t` ends. */
  function EndSeq(j: Log, t: seq<Probe>): nat { SeqAfter(j, Commits(t)) }

  /** The sequence number `n` transactions after the first one, in 32 bits. */
  function SeqAfter(j: Log, n: nat): nat { (j.sequence + n) % UINT32_RANGE }

  function SeqSucc(s: nat): nat { (s + 1) % UINT32_RANGE }

  lemma SeqAfterStep(j: Log, n: nat)
    ensures SeqAfter(j, n + 1) == SeqSucc(SeqAfter(j, n))
  {
    ModSuccessor(j.sequence + n);
  }

  /** The disk blocks that the walk over `t` has claimed. */
  ghost function Claimed(j: Log, t: seq<Probe>): set<nat> {
    set k | 0 <= k < |t| && t[k].pos in j.blkno :: j.blkno[t[k].pos]
  }

  class Replayer {
    var disk: Disk
    var used: set<nat>
    const format: Format

    constructor (disk: Disk, format: Format)
      ensures this.disk == disk && this.format == format && used == {}
    {
      this.disk, this.format, this.used := disk, format, {};
    }

    /** Translates a log offset; with `checkDup` the block is claimed, and must not be claimed yet. */
    method LookupJournalBlock(j: Log, pos: nat, checkDup: bool) returns (r: Option<nat>)
      modifies this`used
      ensures pos !in j.blkno ==> r == None && used == old(used)
      ensures pos in j.blkno ==> used == old(used) + (if checkDup then {j.blkno[pos]} else {})
      ensures pos in j.blkno ==>
                r == if checkDup && j.blkno[pos] in old(used) then None else Some(j.blkno[pos])
    {
      if pos !in j.blkno {
        return None;
      }
      var b := j.blkno[pos];
      r := Some(b);
      if checkDup {
        if b in used {
          r := None;
        }
        used := used + {b};
      }
    }

    /**
     The first walk.  It stops on every journal content, because every round claims a block that
     was not claimed before.
     */
    method ScanWalk(j: Log) returns (ok: bool, finalSeq: nat, ghost t: seq<Probe>)
      requires RingOk(j) && FormatOk(format) && Readable(j, disk) && j.sequence < UINT32_RANGE
      modifies this`used
      ensures t == Scan(j, format, disk, old(used), j.start, j.sequence)
      ensures finalSeq == EndSeq(j, t)
      ensures used == old(used) + Claimed(j, t)
      ensures ok <==> t != [] && !Valid(t[|t|-1])
    {
      t := [];
      ok := true;
      var nextSeq: nat, next := j.sequence, Some(j.start);
      ghost var all := Scan(j, format, disk, used, j.start, j.sequence);
      while next.Some?
        invariant all == t + ScanRest(j, format, disk, used, next, nextSeq)
        invariant nextSeq == EndSeq(j, t)
        invariant used == old(used) + Claimed(j, t)
        invariant next.Some? ==> ok && (t == [] || Valid(t[|t|-1]))
        invariant next.None? ==> (ok <==> t != [] && !Valid(t[|t|-1]))
        decreases next.Some?, j.blkno.Values - used
      {
        ghost var was := used;
        var blk := LookupJournalBlock(j, next.value, true);
        if blk.None? {
          ok, next := false, None;
        } else {
          ghost var p := Probe(next.value, nextSeq, disk[blk.value]);
          ScanStep(j, format, disk, was, next.value, nextSeq, t, all);
          EndSeqStep(j, t, p);
          ClaimedGrows(j, t, p);
          t := t + [p];
          next, nextSeq, ok := NextBlock(j, disk[blk.value], next.value, nextSeq);
        }
      }
      finalSeq := nextSeq;
    }

    /** How the first walk goes on from a block; only a bad tag is an error. */
    method NextBlock(j: Log, b: Block, pos: nat, seqNo: nat) returns (next: Option<nat>, nextSeq: nat, ok: bool)
      requires RingOk(j) && FormatOk(format)
      ensures next == NextPos(j, format, Probe(pos, seqNo, b)) && nextSeq == NextSeq(Probe(pos, seqNo, b))
      ensures !ok <==> IsDescriptor(Probe(pos, seqNo, b)) && TagCount(format, b).None?
    {
      next, nextSeq, ok := None, seqNo, true;
      var after := ComputeJwrap(j, pos + 1);
      if b.magic != MAGIC || b.sequence != seqNo {
        return;
      }
      if b.blocktype == DESCRIPTOR {
        var nr := CountTags(format, b);
        if nr.None? {
          ok := false;
          return;
        }
        after := ComputeJwrap(j, after + nr.value);
      } else if b.blocktype == COMMIT {
        nextSeq := (seqNo + 1) % UINT32_RANGE;
      }
      next := Some(after);
    }

    /**
     Writes the blocks of one descriptor back.  It meets exactly the tags that were counted, and
     wrapping after every block leads where a single wrap leads.
     */
    method ReplayBlocks(j: Log, b: Block, nb0: nat) returns (nb: nat)
      requires FormatOk(format) && ReplayReady(j, format, b, nb0, disk, used)
      modifies this`disk, this`used
      ensures Replayed(j, Tags(format, b), nb0, old(disk), old(used), disk, used)
      ensures nb == Jwrap(j, nb0 + |Tags(format, b)|)
    {
      var num := MaxTags(b);
      ghost var d0, u0, ts, m := disk, used, Tags(format, b), 0;
      var i: int, o: nat := 0, HEADER_BYTES;
      nb := nb0;
      ReplayedNone(j, ts, nb0, d0, u0);
      while i < num
        invariant TagsPending(format, b, num, i, o, m)
        invariant ReplayedTo(j, ts, nb0, d0, u0, m, nb, disk, used)
        decreases num - i
      {
        TagsLeft(format, b, num, i, o, m);
        var tag := b.tags[o];
        nb := ReplayOne(j, tag, nb, nb0, ts, m, d0, u0);
        o := NextTag(format, tag, o);
        m := m + 1;
        i := if tag.last then num else i + 1;
      }
      ReplayedAll(j, ts, nb0, d0, u0, nb, disk, used);
      nb := ComputeJwrap(j, nb);
    }

    /**
     The second walk.  It repeats the first one up to the last commit and writes exactly the tagged
     blocks of the committed transactions, in the order of the log.
     */
    method RecoverWalk(j: Log, finalSeq: nat, ghost t: seq<Probe>) returns (nextSeq: nat)
      requires FormatOk(format) && LogReady(j, format, disk, t)
      requires finalSeq == EndSeq(j, t) && Unclaimed(j, format, used, t)
      modifies this`disk, this`used
      ensures Recovered(j, format, t, old(disk), old(used), disk, used)
      ensures nextSeq == finalSeq
    {
      nextSeq := j.sequence;
      var nextBlock := j.start;
      ghost var k, d0, u0 := 0, disk, used;
      RecoveredNone(j, format, t, d0, u0);
      while !SeqGeq(nextSeq, finalSeq)
        invariant RecoveredTo(j, format, t, d0, u0, k, nextBlock, nextSeq, disk, used)
        decreases CommittedLen(t) - k
      {
        RecoverGoesOn(j, format, t, d0, u0, k, nextBlock, nextSeq, disk, used);
        nextBlock, nextSeq := RecoverOne(j, nextBlock, nextSeq, t, k, d0, u0);
        k := k + 1;
      }
      RecoveredAll(j, format, t, d0, u0, k, nextBlock, nextSeq, disk, used);
    }

    /** One round of the second walk. */
    method RecoverOne(j: Log, nextBlock: nat, nextSeq: nat, ghost t: seq<Probe>, ghost k: nat,
                      ghost d0: Disk, ghost u0: set<nat>)
      returns (nextBlock': nat, nextSeq': nat)
      requires FormatOk(format) && LogReady(j, format, d0, t)
      requires k < CommittedLen(t)
      requires RecoveredTo(j, format, t, d0, u0, k, nextBlock, nextSeq, disk, used)
      modifies this`disk, this`used
      ensures RecoveredTo(j, format, t, d0, u0, k + 1, nextBlock', nextSeq', disk, used)
    {
      ghost var used0 := used;
      HeaderAgain(j, format, t, d0, u0, k, nextBlock, nextSeq, disk, used);
      var blk := LookupJournalBlock(j, nextBlock, false);
      assert used == used0;
      var b := disk[blk.value];
      nextBlock' := ComputeJwrap(j, nextBlock + 1);
      nextSeq' := nextSeq;
      if b.magic != MAGIC || b.sequence != nextSeq {
        assert false;
      }
      if b.blocktype == DESCRIPTOR {
        nextBlock' := RecoverDescriptor(j, b, nextBlock', nextBlock, nextSeq, t, k, d0, u0);
      } else {
        if b.blocktype == COMMIT {
          nextSeq' := (nextSeq + 1) % UINT32_RANGE;
        }
        PlainDone(j, format, t, d0, u0, k, nextBlock, nextSeq, disk, used);
      }
    }

    /** The round of the second walk that meets a descriptor. */
    method RecoverDescriptor(j: Log, b: Block, after: nat, ghost nextBlock: nat, ghost nextSeq: nat,
                             ghost t: seq<Probe>, ghost k: nat, ghost d0: Disk, ghost u0: set<nat>)
      returns (next: nat)
      requires FormatOk(format) && LogReady(j, format, d0, t)
      requires k < CommittedLen(t) && IsDescriptor(t[k])
      requires RecoveredTo(j, format, t, d0, u0, k, nextBlock, nextSeq, disk, used)
      requires b == t[k].block && after == Jwrap(j, t[k].pos + 1)
      modifies this`disk, this`used
      ensures RecoveredTo(j, format, t, d0, u0, k + 1, next, nextSeq, disk, used)
    {
      ghost var disk0, used0 := disk, used;
      DescriptorReady(j, format, t, d0, u0, k, nextBlock, nextSeq, disk, used);
      next := ReplayBlocks(j, b, after);
      DescriptorDone(j, format, t, d0, u0, k, nextBlock, nextSeq, disk0, used0, disk, used, next);
    }

    /** The bound that replay puts on the number of tags; it comes after the last tag. */
    method MaxTags(b: Block) returns (num: nat)
      requires FormatOk(format) && Tags(format, b) != []
      ensures |Tags(format, b)| <= num
    {
      ReplayBound(format, b);
      num := (|b.tags| - HEADER_BYTES) / format.tagBytes;
    }

    /** Writes one tagged block back and steps on in the log. */
    method ReplayOne(j: Log, tag: Tag, nb: nat, ghost nb0: nat, ghost ts: seq<Tag>, ghost m: nat,
                     ghost d0: Disk, ghost u0: set<nat>)
      returns (nb': nat)
      requires j.first < j.maxlen && j.first <= nb0 && Readable(j, d0)
      requires m < |ts| && ts[m] == tag && OutsideLog(j, ts) && DataReady(j, u0, DataPos(j, nb0, |ts|))
      requires ReplayedTo(j, ts, nb0, d0, u0, m, nb, disk, used)
      modifies this`disk, this`used
      ensures ReplayedTo(j, ts, nb0, d0, u0, m + 1, nb', disk, used)
    {
      ghost var data := DataPos(j, nb0, |ts|);
      DataPosAt(j, nb0, |ts|, m);
      DataStep(j, u0, data, m);
      DiskBlocksStep(j, data, m);
      TagWritesStep(j, d0, data, ts, m);
      JwrapAdd(j, nb0 + m, 1);
      nb' := ComputeJwrap(j, nb);
      var blk := LookupJournalBlock(j, nb', true);
      disk := disk[tag.block := Image(tag, disk[blk.value])];
      nb' := nb' + 1;
    }
  }

  /** After `m` tags: the log offset, the disk and the claimed blocks. */
  ghost predicate ReplayedTo(j: Log, ts: seq<Tag>, nb0: nat, d0: Disk, u0: set<nat>, m: nat,
                             nb: nat, disk: Disk, used: set<nat>)
    requires RingOk(j)
  {
    && m <= |ts|
    && Jwrap(j, nb) == Jwrap(j, nb0 + m)
    && disk == Apply(d0, TagWrites(j, d0, DataPos(j, nb0, |ts|), ts[..m]))
    && used == u0 + DiskBlocks(j, DataPos(j, nb0, |ts|)[..m])
    && SameLog(j, d0, disk)
  }

  /** The effect of replaying a descriptor. */
  ghost predicate Replayed(j: Log, ts: seq<Tag>, nb0: nat, d0: Disk, u0: set<nat>, disk: Disk, used: set<nat>)
    requires RingOk(j)
  {
    var data := DataPos(j, nb0, |ts|);
    && disk == Apply(d0, TagWrites(j, d0, data, ts))
    && used == u0 + DiskBlocks(j, data)
    && SameLog(j, d0, disk)
  }

  lemma ReplayedAll(j: Log, ts: seq<Tag>, nb0: nat, d0: Disk, u0: set<nat>, nb: nat, disk: Disk, used: set<nat>)
    requires RingOk(j) && ReplayedTo(j, ts, nb0, d0, u0, |ts|, nb, disk, used)
    ensures Replayed(j, ts, nb0, d0, u0, disk, used)
    ensures Jwrap(j, nb) == Jwrap(j, nb0 + |ts|)
  {
    var data := DataPos(j, nb0, |ts|);
    assert ts[..|ts|] == ts && data[..|ts|] == data;
  }

  lemma ReplayedNone(j: Log, ts: seq<Tag>, nb0: nat, d0: Disk, u0: set<nat>)
    requires RingOk(j) && Readable(j, d0)
    ensures ReplayedTo(j, ts, nb0, d0, u0, 0, nb0, d0, u0)
  {
  }

  /** The counter and the byte offset stand at tag `m`, or the last tag has been met. */
  ghost predicate TagsPending(f: Format, b: Block, num: nat, i: int, o: nat, m: nat)
    requires FormatOk(f)
  {
    var ts := Tags(f, b);
    && m <= |ts| <= num
    && (i < num ==> i == m < |ts| && ts[m..] == TagList(f, b.tags, o))
    && (i >= num ==> m == |ts|)
  }

  lemma TagsLeft(f: Format, b: Block, num: nat, i: int, o: nat, m: nat)
    requires FormatOk(f) && EndsInLast(Tags(f, b)) && TagsPending(f, b, num, i, o, m) && i < num
    ensures o + f.tagBytes <= |b.tags| && m < |Tags(f, b)| && Tags(f, b)[m] == b.tags[o]
    ensures TagsPending(f, b, num, if b.tags[o].last then num else i + 1, NextTag(f, b.tags[o], o), m + 1)
  {
    var ts := Tags(f, b);
    assert ts[m] == ts[m..][0];
    assert ts[m+1..] == ts[m..][1..];
  }

  ghost function ScanRest(j: Log, f: Format, disk: Disk, used: set<nat>, next: Option<nat>, seqNo: nat): seq<Probe>
    requires RingOk(j) && FormatOk(f) && Readable(j, disk)
  {
    match next
    case None => []
    case Some(pos) => Scan(j, f, disk, used, pos, seqNo)
  }

  lemma ScanStep(j: Log, f: Format, disk: Disk, used: set<nat>, pos: nat, seqNo: nat, t: seq<Probe>, all: seq<Probe>)
    requires RingOk(j) && FormatOk(f) && Readable(j, disk)
    requires all == t + Scan(j, f, disk, used, pos, seqNo)
    requires pos in j.blkno && j.blkno[pos] !in used
    ensures var p := Probe(pos, seqNo, disk[j.blkno[pos]]);
            all == t + [p] + ScanRest(j, f, disk, used + {j.blkno[pos]}, NextPos(j, f, p), NextSeq(p))
  {
  }

  lemma EndSeqStep(j: Log, t: seq<Probe>, p: Probe)
    requires p.seqNo == EndSeq(j, t)
    ensures EndSeq(j, t + [p]) == NextSeq(p)
  {
    assert (t + [p])[..|t|] == t;
    ModSuccessor(j.sequence + Commits(t));
  }

  lemma ModSuccessor(x: nat)
    ensures (x % UINT32_RANGE + 1) % UINT32_RANGE == (x + 1) % UINT32_RANGE
  {
  }

  lemma ClaimedGrows(j: Log, t: seq<Probe>, p: Probe)
    requires p.pos in j.blkno
    ensures Claimed(j, t + [p]) == Claimed(j, t) + {j.blkno[p.pos]}
  {
    var t' := t + [p];
    assert t'[|t|] == p;
    forall b
      ensures b in Claimed(j, t') <==> b in Claimed(j, t) + {j.blkno[p.pos]}
    {
      if b in Claimed(j, t) {
        var k :| 0 <= k < |t| && t[k].pos in j.blkno && j.blkno[t[k].pos] == b;
        assert t'[k] == t[k];
      }
      if b in Claimed(j, t') {
        var k :| 0 <= k < |t'| && t'[k].pos in j.blkno && j.blkno[t'[k].pos] == b;
        assert k < |t| ==> t'[k] == t[k];
      }
    }
  }

  // ---- writing blocks back ------------------------------------------------------------------

  datatype Write = Write(block: nat, image: Block)

  /** What a tagged log block becomes on disk: an escaped one gets its magic number back. */
  function Image(t: Tag, b: Block): Block { if t.escape then b.(magic := MAGIC) else b }

  /** The log block at an offset of the journal. */
  function LogBlock(j: Log, disk: Disk, pos: nat): Block {
    if pos in j.blkno && j.blkno[pos] in disk then disk[j.blkno[pos]] else Block(0, 0, 0, [], 0)
  }

  /** The offsets of `n` data blocks from `nb` on. */
  function DataPos(j: Log, nb: nat, n: nat): (r: seq<nat>)
    requires RingOk(j)
    ensures |r| == n
  {
    if n == 0 then [] else DataPos(j, nb, n - 1) + [Jwrap(j, nb + n - 1)]
  }

  lemma {:induction false} DataPosAt(j: Log, nb: nat, n: nat, i: nat)
    requires RingOk(j) && i < n
    ensures DataPos(j, nb, n)[i] == Jwrap(j, nb + i)
    decreases n
  {
    if i < n - 1 {
      DataPosAt(j, nb, n - 1, i);
    }
  }

  /** The writes of one descriptor whose data blocks are at the given offsets. */
  function TagWrites(j: Log, disk: Disk, data: seq<nat>, ts: seq<Tag>): seq<Write>
    requires |ts| <= |data|
  {
    if ts == [] then []
    else
      var n := |ts| - 1;
      TagWrites(j, disk, data, ts[..n]) + [Write(ts[n].block, Image(ts[n], LogBlock(j, disk, data[n])))]
  }

  function Apply(disk: Disk, ws: seq<Write>): Disk {
    if ws == [] then disk else Apply(disk, ws[..|ws|-1])[ws[|ws|-1].block := ws[|ws|-1].image]
  }

  lemma {:induction false} ApplyConcat(disk: Disk, a: seq<Write>, b: seq<Write>)
    ensures Apply(disk, a + b) == Apply(Apply(disk, a), b)
  {
    if b == [] {
      assert a + b == a;
    } else {
      var n := |b| - 1;
      assert (a + b)[..|a+b|-1] == a + b[..n];
      ApplyConcat(disk, a, b[..n]);
    }
  }

  /** A block that is not written keeps its content. */
  lemma {:induction false} ApplyElsewhere(disk: Disk, ws: seq<Write>, b: nat)
    requires forall k | 0 <= k < |ws| :: ws[k].block != b
    ensures b in Apply(disk, ws) <==> b in disk
    ensures b in disk ==> Apply(disk, ws)[b] == disk[b]
  {
    if ws != [] {
      ApplyElsewhere(disk, ws[..|ws|-1], b);
    }
  }

  /** A written block ends with the image of the last write to it. */
  lemma {:induction false} ApplyLastWrite(disk: Disk, ws: seq<Write>, k: nat)
    requires k < |ws| && forall m | k < m < |ws| :: ws[m].block != ws[k].block
    ensures ws[k].block in Apply(disk, ws) && Apply(disk, ws)[ws[k].block] == ws[k].image
  {
    var n := |ws| - 1;
    if k < n {
      ApplyLastWrite(disk, ws[..n], k);
    }
  }

  /** Two disks hold the same in every block of the journal. */
  ghost predicate SameLog(j: Log, d: Disk, d': Disk) {
    forall b | b in j.blkno.Values :: b in d && b in d' && d'[b] == d[b]
  }

  ghost predicate OutsideLog(j: Log, ts: seq<Tag>) {
    forall k | 0 <= k < |ts| :: ts[k].block !in j.blkno.Values
  }

  /** The data blocks of a descriptor can all be claimed, one after the other. */
  ghost predicate DataReady(j: Log, used: set<nat>, data: seq<nat>) {
    && (forall i | 0 <= i < |data| :: data[i] in j.blkno && j.blkno[data[i]] !in used)
    && (forall i, k | 0 <= i < k < |data| :: j.blkno[data[i]] != j.blkno[data[k]])
  }

  /** The descriptor ends in a last tag, points outside the journal, and its data can be claimed. */
  ghost predicate ReplayReady(j: Log, f: Format, b: Block, nb0: nat, disk: Disk, used: set<nat>)
    requires FormatOk(f)
  {
    && j.first < j.maxlen && j.first <= nb0 && Readable(j, disk)
    && EndsInLast(Tags(f, b)) && OutsideLog(j, Tags(f, b))
    && DataReady(j, used, DataPos(j, nb0, |Tags(f, b)|))
  }

  /** The disk blocks behind some offsets of the journal. */
  ghost function DiskBlocks(j: Log, data: seq<nat>): set<nat> {
    set i | 0 <= i < |data| && data[i] in j.blkno :: j.blkno[data[i]]
  }

  lemma DiskBlocksStep(j: Log, data: seq<nat>, m: nat)
    requires m < |data| && data[m] in j.blkno
    ensures DiskBlocks(j, data[..m+1]) == DiskBlocks(j, data[..m]) + {j.blkno[data[m]]}
  {
    var a, b := data[..m], data[..m+1];
    forall x
      ensures x in DiskBlocks(j, b) <==> x in DiskBlocks(j, a) + {j.blkno[data[m]]}
    {
      if x in DiskBlocks(j, a) {
        var i :| 0 <= i < |a| && a[i] in j.blkno && j.blkno[a[i]] == x;
        assert b[i] == a[i];
      }
      if x in DiskBlocks(j, b) {
        var i :| 0 <= i < |b| && b[i] in j.blkno && j.blkno[b[i]] == x;
        assert i < m ==> a[i] == b[i];
      }
      assert b[m] == data[m];
    }
  }

  lemma DataStep(j: Log, used: set<nat>, data: seq<nat>, m: nat)
    requires DataReady(j, used, data) && m < |data|
    ensures data[m] in j.blkno && j.blkno[data[m]] !in used + DiskBlocks(j, data[..m])
  {
  }

  lemma TagWritesStep(j: Log, disk: Disk, data: seq<nat>, ts: seq<Tag>, m: nat)
    requires m < |ts| <= |data|
    ensures TagWrites(j, disk, data, ts[..m+1])
         == TagWrites(j, disk, data, ts[..m]) + [Write(ts[m].block, Image(ts[m], LogBlock(j, disk, data[m])))]
  {
    assert ts[..m+1][..m] == ts[..m];
  }

  // ---- what the second walk relies on -------------------------------------------------------

  /** The walk comes from the journal's content and each block leads to the next. */
  ghost predicate IsWalk(j: Log, f: Format, disk: Disk, t: seq<Probe>)
    requires FormatOk(f)
  {
    && RingOk(j)
    && (t != [] ==> t[0].pos == j.start && t[0].seqNo == EndSeq(j, []))
    && (forall k: nat :: FromLogAt(j, disk, t, k))
    && (forall k: nat :: LinkedAt(j, f, t, k))
  }

  ghost predicate FromLogAt(j: Log, disk: Disk, t: seq<Probe>, k: nat) { k < |t| ==> FromLog(j, disk, t[k]) }

  ghost predicate LinkedAt(j: Log, f: Format, t: seq<Probe>, k: nat)
    requires RingOk(j) && FormatOk(f)
  {
    k + 1 < |t| ==> Linked(j, f, t[k], t[k+1])
  }

  ghost predicate FromLog(j: Log, disk: Disk, p: Probe) {
    p.pos in j.blkno && j.blkno[p.pos] in disk && p.block == disk[j.blkno[p.pos]]
  }

  ghost predicate Linked(j: Log, f: Format, p: Probe, q: Probe)
    requires RingOk(j) && FormatOk(f)
  {
    NextPos(j, f, p) == Some(q.pos) && q.seqNo == NextSeq(p)
  }

  /** The number of log blocks that a header block and its data take. */
  function Len(f: Format, p: Probe): nat
    requires FormatOk(f)
  {
    1 + if IsDescriptor(p) then |Tags(f, p.block)| else 0
  }

  /** How far into the log the `k`-th block of the walk is, not counting turns of the ring. */
  function Off(f: Format, t: seq<Probe>, k: nat): nat
    requires FormatOk(f) && k <= |t|
  {
    if k == 0 then 0 else Off(f, t, k - 1) + Len(f, t[k - 1])
  }

  /** The part of the walk up to and including the last commit. */
  function CommittedLen(t: seq<Probe>): (n: nat)
    ensures n <= |t|
  {
    if t == [] then 0 else if IsCommit(t[|t|-1]) then |t| else CommittedLen(t[..|t|-1])
  }

  function EntryWrites(j: Log, f: Format, disk: Disk, p: Probe): seq<Write>
    requires RingOk(j) && FormatOk(f)
  {
    if IsDescriptor(p) then
      var ts := Tags(f, p.block);
      TagWrites(j, disk, DataPos(j, Jwrap(j, p.pos + 1), |ts|), ts)
    else []
  }

  /** The writes of a stretch of the log, in the order of the log. */
  function LogWrites(j: Log, f: Format, disk: Disk, t: seq<Probe>): seq<Write>
    requires RingOk(j) && FormatOk(f)
  {
    if t == [] then [] else LogWrites(j, f, disk, t[..|t|-1]) + EntryWrites(j, f, disk, t[|t|-1])
  }

  /** The log starts in its ring, is fully mapped, one block to one, and does not lap itself. */
  ghost predicate Replayable(j: Log, f: Format, t: seq<Probe>)
    requires FormatOk(f)
  {
    && 0 < j.first <= j.start < j.maxlen && j.sequence < UINT32_RANGE
    && (forall pos: nat :: MappedAt(j, pos))
    && (forall pos: nat, pos': nat :: OneToOneAt(j, pos, pos'))
    && (t != [] ==> Off(f, t, |t| - 1) < j.maxlen - j.first)
    && Commits(t) <= INT32_RANGE
    && (forall k: nat :: EntryOkAt(j, f, t, k))
  }

  ghost predicate MappedAt(j: Log, pos: nat) { j.first <= pos < j.maxlen ==> pos in j.blkno }

  ghost predicate OneToOneAt(j: Log, pos: nat, pos': nat) {
    pos in j.blkno && pos' in j.blkno && pos != pos' ==> j.blkno[pos] != j.blkno[pos']
  }

  ghost predicate EntryOkAt(j: Log, f: Format, t: seq<Probe>, k: nat)
    requires FormatOk(f)
  {
    k < CommittedLen(t) ==> EntryOk(j, f, t[k])
  }

  /** A committed descriptor ends in a last tag and points outside the journal. */
  ghost predicate EntryOk(j: Log, f: Format, p: Probe)
    requires FormatOk(f)
  {
    IsDescriptor(p) ==> EndsInLast(Tags(f, p.block)) && OutsideLog(j, Tags(f, p.block))
  }

  function Ring(j: Log, o: nat): nat
    requires RingOk(j)
  {
    Jwrap(j, j.start + o)
  }

  ghost predicate IsHeader(f: Format, t: seq<Probe>, o: nat)
    requires FormatOk(f)
  {
    exists k | 0 <= k < |t| :: Off(f, t, k) == o
  }

  /** The log block at distance `o` is a header, or nobody has claimed it. */
  ghost predicate UnclaimedAt(j: Log, f: Format, used: set<nat>, t: seq<Probe>, o: nat)
    requires RingOk(j) && FormatOk(f)
  {
    IsHeader(f, t, o) || (Ring(j, o) in j.blkno && j.blkno[Ring(j, o)] !in used)
  }

  ghost predicate UnclaimedFrom(j: Log, f: Format, used: set<nat>, t: seq<Probe>, from: nat)
    requires RingOk(j) && FormatOk(f)
  {
    forall o: nat | from <= o < Off(f, t, CommittedLen(t)) :: UnclaimedAt(j, f, used, t, o)
  }

  ghost predicate Unclaimed(j: Log, f: Format, used: set<nat>, t: seq<Probe>)
    requires FormatOk(f)
  {
    RingOk(j) && UnclaimedFrom(j, f, used, t, 0)
  }

  /** The second walk has repeated the first `k` blocks of the first one. */
  ghost predicate RecoveredTo(j: Log, f: Format, t: seq<Probe>, d0: Disk, u0: set<nat>, k: nat,
                              nextBlock: nat, nextSeq: nat, disk: Disk, used: set<nat>)
    requires FormatOk(f)
  {
    StandsAt(j, t, k, nextBlock, nextSeq) && WrittenTo(j, f, t, d0, u0, k, disk, used)
  }

  ghost predicate StandsAt(j: Log, t: seq<Probe>, k: nat, nextBlock: nat, nextSeq: nat) {
    && k <= CommittedLen(t)
    && nextSeq == EndSeq(j, t[..k])
    && (k < |t| ==> nextBlock == t[k].pos)
  }

  ghost predicate WrittenTo(j: Log, f: Format, t: seq<Probe>, d0: Disk, u0: set<nat>, k: nat,
                            disk: Disk, used: set<nat>)
    requires FormatOk(f)
  {
    && RingOk(j) && k <= |t|
    && disk == Apply(d0, LogWrites(j, f, d0, t[..k]))
    && SameLog(j, d0, disk)
    && UnclaimedFrom(j, f, used, t, Off(f, t, k))
    && u0 <= used <= u0 + j.blkno.Values
  }

  ghost predicate NoRevokes(t: seq<Probe>) {
    forall k | 0 <= k < |t| :: Valid(t[k]) ==> t[k].block.blocktype != REVOKE
  }

  ghost predicate LogReady(j: Log, f: Format, disk: Disk, t: seq<Probe>)
    requires FormatOk(f)
  {
    Readable(j, disk) && IsWalk(j, f, disk, t) && Replayable(j, f, t) && NoRevokes(t)
  }

  /** The effect of the second walk. */
  ghost predicate Recovered(j: Log, f: Format, t: seq<Probe>, d0: Disk, u0: set<nat>, disk: Disk, used: set<nat>)
    requires FormatOk(f)
  {
    && RingOk(j)
    && disk == Apply(d0, LogWrites(j, f, d0, t[..CommittedLen(t)]))
    && SameLog(j, d0, disk)
    && u0 <= used <= u0 + j.blkno.Values
  }

  lemma RecoveredNone(j: Log, f: Format, t: seq<Probe>, d0: Disk, u0: set<nat>)
    requires FormatOk(f) && LogReady(j, f, d0, t) && Unclaimed(j, f, u0, t)
    ensures RecoveredTo(j, f, t, d0, u0, 0, j.start, j.sequence, d0, u0)
  {
    assert t[..0] == [];
  }

  lemma RecoverGoesOn(j: Log, f: Format, t: seq<Probe>, d0: Disk, u0: set<nat>, k: nat,
                      nextBlock: nat, nextSeq: nat, disk: Disk, used: set<nat>)
    requires FormatOk(f) && LogReady(j, f, d0, t)
    requires RecoveredTo(j, f, t, d0, u0, k, nextBlock, nextSeq, disk, used) && !SeqGeq(nextSeq, EndSeq(j, t))
    ensures k < CommittedLen(t)
  {
    CommitsAhead(j, t, k);
  }

  lemma RecoveredAll(j: Log, f: Format, t: seq<Probe>, d0: Disk, u0: set<nat>, k: nat,
                     nextBlock: nat, nextSeq: nat, disk: Disk, used: set<nat>)
    requires FormatOk(f) && LogReady(j, f, d0, t)
    requires RecoveredTo(j, f, t, d0, u0, k, nextBlock, nextSeq, disk, used) && SeqGeq(nextSeq, EndSeq(j, t))
    ensures Recovered(j, f, t, d0, u0, disk, used) && nextSeq == EndSeq(j, t)
  {
    CommitsAhead(j, t, k);
    CommittedFacts(t);
  }

  lemma {:induction false} CommittedFacts(t: seq<Probe>)
    ensures var n := CommittedLen(t); Commits(t[..n]) == Commits(t) && (n > 0 ==> IsCommit(t[n-1]))
  {
    if t != [] {
      if IsCommit(t[|t|-1]) {
        assert t[..|t|] == t;
      } else {
        var t' := t[..|t|-1];
        CommittedFacts(t');
        assert t'[..CommittedLen(t')] == t[..CommittedLen(t')];
      }
    }
  }

  lemma {:induction false} CommitsGrow(t: seq<Probe>, k: nat, n: nat)
    requires k <= n <= |t|
    ensures Commits(t[..k]) <= Commits(t[..n])
    decreases n
  {
    if k < n {
      CommitsGrow(t, k, n - 1);
      assert t[..n][..n-1] == t[..n-1];
    }
  }

  lemma CommitsBefore(t: seq<Probe>, k: nat)
    requires k <= CommittedLen(t)
    ensures Commits(t[..k]) <= Commits(t)
    ensures Commits(t[..k]) == Commits(t) <==> k == CommittedLen(t)
  {
    var n := CommittedLen(t);
    CommittedFacts(t);
    if k < n {
      CommitsGrow(t, k, n - 1);
      assert t[..n][..n-1] == t[..n-1];
    }
  }

  /** The final sequence number is recognised exactly at the last commit. */
  lemma CommitsAhead(j: Log, t: seq<Probe>, k: nat)
    requires k <= CommittedLen(t) && Commits(t) <= INT32_RANGE
    ensures SeqGeq(EndSeq(j, t[..k]), EndSeq(j, t)) <==> k == CommittedLen(t)
  {
    CommitsBefore(t, k);
    SeqReached(j.sequence, Commits(t[..k]), Commits(t));
  }

  lemma {:induction false} OffGrows(f: Format, t: seq<Probe>, a: nat, b: nat)
    requires FormatOk(f) && a < b <= |t|
    ensures Off(f, t, a) < Off(f, t, b)
    decreases b
  {
    if a < b - 1 {
      OffGrows(f, t, a, b - 1);
    }
  }

  /** Distances below one turn are different places in the ring. */
  lemma RingValue(j: Log, o: nat)
    requires j.first <= j.start < j.maxlen && o < j.maxlen - j.first
    ensures Ring(j, o) == if j.start + o < j.maxlen then j.start + o else j.start + o - (j.maxlen - j.first)
  {
    if j.start + o >= j.maxlen {
      var x := j.start + o - (j.maxlen - j.first);
      assert Jwrap(j, x) == x;
    }
  }

  lemma {:induction false} WalkPos(j: Log, f: Format, disk: Disk, t: seq<Probe>, k: nat)
    requires FormatOk(f) && IsWalk(j, f, disk, t) && j.first <= j.start < j.maxlen && k < |t|
    ensures t[k].pos == Ring(j, Off(f, t, k)) && j.first <= t[k].pos
    decreases k
  {
    if k > 0 {
      WalkPos(j, f, disk, t, k - 1);
      assert LinkedAt(j, f, t, k - 1);
      LinkedPos(j, f, t[k-1], t[k], j.start + Off(f, t, k - 1));
    }
  }

  lemma LinkedPos(j: Log, f: Format, p: Probe, q: Probe, x: nat)
    requires FormatOk(f) && j.first < j.maxlen && j.first <= x && p.pos == Jwrap(j, x) && Linked(j, f, p, q)
    ensures q.pos == Jwrap(j, x + Len(f, p)) && j.first <= q.pos
  {
    StepInRing(j, x, Len(f, p) - 1);
    var turns := JwrapInRing(j, x + Len(f, p));
  }

  /** Stepping over a header and then over its data is one step of the ring. */
  lemma StepInRing(j: Log, x: nat, n: nat)
    requires j.first < j.maxlen && j.first <= x
    ensures j.first <= Jwrap(j, x)
    ensures Jwrap(j, Jwrap(j, x) + 1) == Jwrap(j, x + 1)
    ensures j.first <= Jwrap(j, Jwrap(j, x) + 1)
    ensures Jwrap(j, Jwrap(j, Jwrap(j, x) + 1) + n) == Jwrap(j, x + 1 + n)
  {
    var turns := JwrapInRing(j, x);
    turns := JwrapInRing(j, x + 1);
    JwrapAdd(j, x, 1);
    JwrapAdd(j, x + 1, n);
  }

  // ---- one round of the second walk ---------------------------------------------------------

  lemma {:induction false} WalkSeq(j: Log, f: Format, disk: Disk, t: seq<Probe>, k: nat)
    requires FormatOk(f) && IsWalk(j, f, disk, t) && k < |t|
    ensures t[k].seqNo == EndSeq(j, t[..k])
    decreases k
  {
    if k == 0 {
      assert t[..0] == [];
    } else {
      WalkSeq(j, f, disk, t, k - 1);
      assert LinkedAt(j, f, t, k - 1);
      SeqStep(j, t, k - 1);
    }
  }

  lemma SeqStep(j: Log, t: seq<Probe>, k: nat)
    requires k < |t| && t[k].seqNo == EndSeq(j, t[..k])
    ensures EndSeq(j, t[..k+1]) == NextSeq(t[k])
  {
    EndSeqStep(j, t[..k], t[k]);
    assert t[..k] + [t[k]] == t[..k+1];
  }

  /** Every committed block continues the log, and only the last commit may end the walk. */
  lemma CommittedEntry(j: Log, f: Format, disk: Disk, t: seq<Probe>, k: nat)
    requires FormatOk(f) && IsWalk(j, f, disk, t) && k < CommittedLen(t)
    ensures Valid(t[k])
    ensures k + 1 < |t| ==> Linked(j, f, t[k], t[k+1])
    ensures IsDescriptor(t[k]) ==>
              k + 1 < |t| && k + 1 < CommittedLen(t) && TagCount(f, t[k].block) == Some(|Tags(f, t[k].block)|)
  {
    CommittedFacts(t);
    assert LinkedAt(j, f, t, k);
  }

  lemma HeaderAgain(j: Log, f: Format, t: seq<Probe>, d0: Disk, u0: set<nat>, k: nat,
                    nextBlock: nat, nextSeq: nat, disk: Disk, used: set<nat>)
    requires FormatOk(f) && LogReady(j, f, d0, t) && k < CommittedLen(t)
    requires RecoveredTo(j, f, t, d0, u0, k, nextBlock, nextSeq, disk, used)
    ensures nextBlock == t[k].pos && nextBlock in j.blkno && j.blkno[nextBlock] in disk
    ensures disk[j.blkno[nextBlock]] == t[k].block && Valid(t[k]) && nextSeq == t[k].seqNo
  {
    CommittedEntry(j, f, d0, t, k);
    WalkSeq(j, f, d0, t, k);
    assert FromLogAt(j, d0, t, k);
  }

  lemma LogWritesStep(j: Log, f: Format, disk: Disk, t: seq<Probe>, k: nat)
    requires RingOk(j) && FormatOk(f) && k < |t|
    ensures LogWrites(j, f, disk, t[..k+1]) == LogWrites(j, f, disk, t[..k]) + EntryWrites(j, f, disk, t[k])
  {
    assert t[..k+1][..k] == t[..k];
  }

  lemma EntryStep(j: Log, f: Format, disk: Disk, t: seq<Probe>, k: nat, nextBlock: nat, nextSeq: nat)
    requires FormatOk(f) && IsWalk(j, f, disk, t) && k < CommittedLen(t) && StandsAt(j, t, k, nextBlock, nextSeq)
    ensures StandsAt(j, t, k + 1, if NextPos(j, f, t[k]).Some? then NextPos(j, f, t[k]).value else 0, NextSeq(t[k]))
    ensures nextSeq == t[k].seqNo && nextBlock == t[k].pos
  {
    CommittedEntry(j, f, disk, t, k);
    WalkSeq(j, f, disk, t, k);
    SeqStep(j, t, k);
  }

  lemma PlainDone(j: Log, f: Format, t: seq<Probe>, d0: Disk, u0: set<nat>, k: nat,
                  nextBlock: nat, nextSeq: nat, disk: Disk, used: set<nat>)
    requires FormatOk(f) && LogReady(j, f, d0, t) && k < CommittedLen(t) && !IsDescriptor(t[k])
    requires RecoveredTo(j, f, t, d0, u0, k, nextBlock, nextSeq, disk, used)
    ensures RecoveredTo(j, f, t, d0, u0, k + 1, Jwrap(j, nextBlock + 1), NextSeq(t[k]), disk, used)
  {
    CommittedEntry(j, f, d0, t, k);
    EntryStep(j, f, d0, t, k, nextBlock, nextSeq);
    PlainWritten(j, f, t, d0, u0, k, disk, used);
  }

  lemma PlainWritten(j: Log, f: Format, t: seq<Probe>, d0: Disk, u0: set<nat>, k: nat, disk: Disk, used: set<nat>)
    requires FormatOk(f) && k < |t| && !IsDescriptor(t[k]) && WrittenTo(j, f, t, d0, u0, k, disk, used)
    ensures WrittenTo(j, f, t, d0, u0, k + 1, disk, used)
  {
    LogWritesStep(j, f, d0, t, k);
    assert LogWrites(j, f, d0, t[..k]) + [] == LogWrites(j, f, d0, t[..k]);
  }

  /** Between two headers there are no headers. */
  lemma BetweenHeaders(f: Format, t: seq<Probe>, k: nat, o: nat)
    requires FormatOk(f) && k + 1 < |t| && Off(f, t, k) < o < Off(f, t, k + 1)
    ensures !IsHeader(f, t, o) && o < Off(f, t, |t| - 1)
  {
    if k + 1 < |t| - 1 {
      OffGrows(f, t, k + 1, |t| - 1);
    }
    forall m | 0 <= m < |t|
      ensures Off(f, t, m) != o
    {
      if m < k {
        OffGrows(f, t, m, k);
      } else if k + 1 < m {
        OffGrows(f, t, k + 1, m);
      }
    }
  }

  lemma DataPosition(j: Log, x: nat, n: nat, i: nat)
    requires j.first < j.maxlen && j.first <= x && i < n
    ensures DataPos(j, Jwrap(j, Jwrap(j, x) + 1), n)[i] == Jwrap(j, x + 1 + i)
  {
    DataPosAt(j, Jwrap(j, Jwrap(j, x) + 1), n, i);
    StepInRing(j, x, i);
  }

  /** The data of a committed descriptor in terms of distances from the start of the log. */
  lemma DataInRing(j: Log, f: Format, disk: Disk, t: seq<Probe>, k: nat, i: nat)
    requires FormatOk(f) && LogReady(j, f, disk, t) && k < CommittedLen(t) && IsDescriptor(t[k])
    requires i < |Tags(f, t[k].block)|
    ensures DataPos(j, Jwrap(j, t[k].pos + 1), |Tags(f, t[k].block)|)[i] == Ring(j, Off(f, t, k) + 1 + i)
    ensures Off(f, t, k) + 1 + i < j.maxlen - j.first && Off(f, t, k) + 1 + i < Off(f, t, k + 1)
    ensures !IsHeader(f, t, Off(f, t, k) + 1 + i)
  {
    CommittedEntry(j, f, disk, t, k);
    BetweenHeaders(f, t, k, Off(f, t, k) + 1 + i);
    WalkPos(j, f, disk, t, k);
    DataPosition(j, j.start + Off(f, t, k), |Tags(f, t[k].block)|, i);
  }

  /** Distances below one turn lead to different disk blocks. */
  lemma RingApart(j: Log, f: Format, t: seq<Probe>, o: nat, o': nat)
    requires FormatOk(f) && Replayable(j, f, t) && o < o' < j.maxlen - j.first
    ensures Ring(j, o) in j.blkno && Ring(j, o') in j.blkno && j.blkno[Ring(j, o)] != j.blkno[Ring(j, o')]
  {
    RingValue(j, o);
    RingValue(j, o');
    assert MappedAt(j, Ring(j, o)) && MappedAt(j, Ring(j, o')) && OneToOneAt(j, Ring(j, o), Ring(j, o'));
  }

  lemma DescriptorReady(j: Log, f: Format, t: seq<Probe>, d0: Disk, u0: set<nat>, k: nat,
                        nextBlock: nat, nextSeq: nat, disk: Disk, used: set<nat>)
    requires FormatOk(f) && LogReady(j, f, d0, t) && k < CommittedLen(t) && IsDescriptor(t[k])
    requires RecoveredTo(j, f, t, d0, u0, k, nextBlock, nextSeq, disk, used)
    ensures ReplayReady(j, f, t[k].block, Jwrap(j, t[k].pos + 1), disk, used)
  {
    CommittedTags(j, f, t, k);
    AfterHeader(j, f, d0, t, k);
    DataIsReady(j, f, t, d0, k, used);
  }

  lemma CommittedTags(j: Log, f: Format, t: seq<Probe>, k: nat)
    requires FormatOk(f) && Replayable(j, f, t) && k < CommittedLen(t) && IsDescriptor(t[k])
    ensures EndsInLast(Tags(f, t[k].block)) && OutsideLog(j, Tags(f, t[k].block))
  {
    assert EntryOkAt(j, f, t, k);
  }

  lemma AfterHeader(j: Log, f: Format, disk: Disk, t: seq<Probe>, k: nat)
    requires FormatOk(f) && IsWalk(j, f, disk, t) && j.first <= j.start < j.maxlen && k < |t|
    ensures j.first <= Jwrap(j, t[k].pos + 1)
  {
    WalkPos(j, f, disk, t, k);
    var turns := JwrapInRing(j, t[k].pos + 1);
  }

  lemma DataIsReady(j: Log, f: Format, t: seq<Probe>, d0: Disk, k: nat, used: set<nat>)
    requires FormatOk(f) && LogReady(j, f, d0, t) && k < CommittedLen(t) && IsDescriptor(t[k])
    requires UnclaimedFrom(j, f, used, t, Off(f, t, k))
    ensures DataReady(j, used, DataPos(j, Jwrap(j, t[k].pos + 1), |Tags(f, t[k].block)|))
  {
    var n := |Tags(f, t[k].block)|;
    var data := DataPos(j, Jwrap(j, t[k].pos + 1), n);
    CommittedOff(j, f, d0, t, k);
    forall i | 0 <= i < n
      ensures data[i] in j.blkno && j.blkno[data[i]] !in used
    {
      DataInRing(j, f, d0, t, k, i);
      assert UnclaimedAt(j, f, used, t, Off(f, t, k) + 1 + i);
    }
    forall i, m | 0 <= i < m < n
      ensures j.blkno[data[i]] != j.blkno[data[m]]
    {
      DataInRing(j, f, d0, t, k, i);
      DataInRing(j, f, d0, t, k, m);
      RingApart(j, f, t, Off(f, t, k) + 1 + i, Off(f, t, k) + 1 + m);
    }
  }

  lemma CommittedOff(j: Log, f: Format, disk: Disk, t: seq<Probe>, k: nat)
    requires FormatOk(f) && IsWalk(j, f, disk, t) && k < CommittedLen(t)
    ensures Off(f, t, k + 1) <= Off(f, t, CommittedLen(t))
  {
    if k + 1 < CommittedLen(t) {
      OffGrows(f, t, k + 1, CommittedLen(t));
    }
  }

  lemma {:induction false} TagWritesSame(j: Log, d: Disk, d': Disk, data: seq<nat>, ts: seq<Tag>)
    requires |ts| <= |data| && SameLog(j, d, d')
    ensures TagWrites(j, d', data, ts) == TagWrites(j, d, data, ts)
  {
    if ts != [] {
      TagWritesSame(j, d, d', data, ts[..|ts|-1]);
      var pos := data[|ts|-1];
      assert pos in j.blkno ==> j.blkno[pos] in j.blkno.Values;
    }
  }

  lemma DescriptorDone(j: Log, f: Format, t: seq<Probe>, d0: Disk, u0: set<nat>, k: nat,
                       nextBlock: nat, nextSeq: nat, disk: Disk, used: set<nat>, disk': Disk, used': set<nat>,
                       next: nat)
    requires FormatOk(f) && LogReady(j, f, d0, t) && k < CommittedLen(t) && IsDescriptor(t[k])
    requires RecoveredTo(j, f, t, d0, u0, k, nextBlock, nextSeq, disk, used)
    requires Replayed(j, Tags(f, t[k].block), Jwrap(j, t[k].pos + 1), disk, used, disk', used')
    requires next == Jwrap(j, Jwrap(j, t[k].pos + 1) + |Tags(f, t[k].block)|)
    ensures RecoveredTo(j, f, t, d0, u0, k + 1, next, nextSeq, disk', used')
  {
    DescriptorStands(j, f, t, d0, k, nextBlock, nextSeq, next);
    DescriptorWritten(j, f, t, d0, u0, k, disk, used, disk', used');
  }

  lemma DescriptorStands(j: Log, f: Format, t: seq<Probe>, disk: Disk, k: nat, nextBlock: nat, nextSeq: nat,
                         next: nat)
    requires FormatOk(f) && IsWalk(j, f, disk, t) && k < CommittedLen(t) && IsDescriptor(t[k])
    requires StandsAt(j, t, k, nextBlock, nextSeq)
    requires next == Jwrap(j, Jwrap(j, t[k].pos + 1) + |Tags(f, t[k].block)|)
    ensures StandsAt(j, t, k + 1, next, nextSeq)
  {
    CommittedEntry(j, f, disk, t, k);
    EntryStep(j, f, disk, t, k, nextBlock, nextSeq);
    DescriptorNext(j, f, t[k]);
  }

  lemma DescriptorNext(j: Log, f: Format, p: Probe)
    requires RingOk(j) && FormatOk(f) && IsDescriptor(p) && TagCount(f, p.block) == Some(|Tags(f, p.block)|)
    ensures NextPos(j, f, p) == Some(Jwrap(j, Jwrap(j, p.pos + 1) + |Tags(f, p.block)|)) && NextSeq(p) == p.seqNo
  {
  }

  lemma DescriptorWritten(j: Log, f: Format, t: seq<Probe>, d0: Disk, u0: set<nat>, k: nat,
                          disk: Disk, used: set<nat>, disk': Disk, used': set<nat>)
    requires FormatOk(f) && LogReady(j, f, d0, t) && k < CommittedLen(t) && IsDescriptor(t[k])
    requires WrittenTo(j, f, t, d0, u0, k, disk, used)
    requires Replayed(j, Tags(f, t[k].block), Jwrap(j, t[k].pos + 1), disk, used, disk', used')
    ensures WrittenTo(j, f, t, d0, u0, k + 1, disk', used')
  {
    DescriptorWrites(j, f, t, d0, k, disk, used, disk', used');
    DescriptorClaims(j, f, t, d0, k, disk, used, disk', used');
  }

  lemma DescriptorWrites(j: Log, f: Format, t: seq<Probe>, d0: Disk, k: nat,
                         disk: Disk, used: set<nat>, disk': Disk, used': set<nat>)
    requires FormatOk(f) && RingOk(j) && k < |t| && IsDescriptor(t[k])
    requires disk == Apply(d0, LogWrites(j, f, d0, t[..k])) && SameLog(j, d0, disk)
    requires Replayed(j, Tags(f, t[k].block), Jwrap(j, t[k].pos + 1), disk, used, disk', used')
    ensures disk' == Apply(d0, LogWrites(j, f, d0, t[..k+1])) && SameLog(j, d0, disk')
  {
    var ts := Tags(f, t[k].block);
    TagWritesSame(j, d0, disk, DataPos(j, Jwrap(j, t[k].pos + 1), |ts|), ts);
    LogWritesStep(j, f, d0, t, k);
    ApplyConcat(d0, LogWrites(j, f, d0, t[..k]), EntryWrites(j, f, d0, t[k]));
  }

  lemma DescriptorClaims(j: Log, f: Format, t: seq<Probe>, d0: Disk, k: nat,
                         disk: Disk, used: set<nat>, disk': Disk, used': set<nat>)
    requires FormatOk(f) && LogReady(j, f, d0, t) && k < CommittedLen(t) && IsDescriptor(t[k])
    requires UnclaimedFrom(j, f, used, t, Off(f, t, k))
    requires Replayed(j, Tags(f, t[k].block), Jwrap(j, t[k].pos + 1), disk, used, disk', used')
    ensures UnclaimedFrom(j, f, used', t, Off(f, t, k + 1))
    ensures used <= used' <= used + j.blkno.Values
  {
    var n := |Tags(f, t[k].block)|;
    var data := DataPos(j, Jwrap(j, t[k].pos + 1), n);
    forall o: nat | Off(f, t, k + 1) <= o < Off(f, t, CommittedLen(t))
      ensures UnclaimedAt(j, f, used', t, o)
    {
      assert UnclaimedAt(j, f, used, t, o);
      if !IsHeader(f, t, o) {
        CommittedBelowTurn(j, f, d0, t, o);
        forall i | 0 <= i < n
          ensures data[i] in j.blkno ==> j.blkno[data[i]] != j.blkno[Ring(j, o)]
        {
          DataInRing(j, f, d0, t, k, i);
          RingApart(j, f, t, Off(f, t, k) + 1 + i, o);
        }
      }
    }
  }

  lemma CommittedBelowTurn(j: Log, f: Format, disk: Disk, t: seq<Probe>, o: nat)
    requires FormatOk(f) && LogReady(j, f, disk, t) && o < Off(f, t, CommittedLen(t)) && !IsHeader(f, t, o)
    ensures o < j.maxlen - j.first
  {
    var n := CommittedLen(t);
    CommittedFacts(t);
    assert Off(f, t, n) == Off(f, t, n - 1) + 1;
    assert o != Off(f, t, n - 1);
    if n - 1 < |t| - 1 {
      OffGrows(f, t, n - 1, |t| - 1);
    }
  }

  // ---- from the first walk to the second ----------------------------------------------------

  /** What the first walk reads is a walk. */
  lemma {:induction false} ScanIsLinked(j: Log, f: Format, disk: Disk, used: set<nat>, pos: nat, seqNo: nat)
    requires RingOk(j) && FormatOk(f) && Readable(j, disk)
    ensures var t := Scan(j, f, disk, used, pos, seqNo);
            && (t != [] ==> t[0].pos == pos && t[0].seqNo == seqNo)
            && (forall k: nat :: FromLogAt(j, disk, t, k))
            && (forall k: nat :: LinkedAt(j, f, t, k))
    decreases j.blkno.Values - used
  {
    var t := Scan(j, f, disk, used, pos, seqNo);
    if pos in j.blkno && j.blkno[pos] !in used {
      var p := Probe(pos, seqNo, disk[j.blkno[pos]]);
      match NextPos(j, f, p)
      case None =>
      case Some(pos') =>
        var used', seqNo' := used + {j.blkno[pos]}, NextSeq(p);
        var rest := Scan(j, f, disk, used', pos', seqNo');
        ScanIsLinked(j, f, disk, used', pos', seqNo');
        assert t == [p] + rest;
        forall k: nat
          ensures FromLogAt(j, disk, t, k) && LinkedAt(j, f, t, k)
        {
          if k > 0 {
            assert FromLogAt(j, disk, rest, k - 1) && LinkedAt(j, f, rest, k - 1);
          }
        }
    }
  }

  lemma SameClaims(u: set<nat>, u': set<nat>, b: nat, values: set<nat>)
    requires u * values == u' * values
    ensures (u + {b}) * values == (u' + {b}) * values
  {
    forall x: nat
      ensures x in (u + {b}) * values <==> x in (u' + {b}) * values
    {
      assert x in u * values <==> x in u' * values;
    }
  }

  /** Blocks claimed elsewhere do not change the walk. */
  lemma {:induction false} ScanSame(j: Log, f: Format, disk: Disk, u: set<nat>, u': set<nat>, pos: nat, seqNo: nat)
    requires RingOk(j) && FormatOk(f) && Readable(j, disk)
    requires u * j.blkno.Values == u' * j.blkno.Values
    ensures Scan(j, f, disk, u, pos, seqNo) == Scan(j, f, disk, u', pos, seqNo)
    decreases j.blkno.Values - u
  {
    if pos in j.blkno {
      var b := j.blkno[pos];
      assert b in j.blkno.Values;
      assert b in u <==> b in u * j.blkno.Values;
      assert b in u' <==> b in u' * j.blkno.Values;
      if b !in u {
        var p := Probe(pos, seqNo, disk[b]);
        if NextPos(j, f, p).Some? {
          SameClaims(u, u', b, j.blkno.Values);
          ScanSame(j, f, disk, u + {b}, u' + {b}, NextPos(j, f, p).value, NextSeq(p));
        }
      }
    }
  }

  /** A journal that can be looked at: its super block is its block 0. */
  ghost predicate Usable(j: Log, disk: Disk) {
    RingOk(j) && 0 in j.blkno && Readable(j, disk) && j.sequence < UINT32_RANGE
  }

  /** The walk over a journal of which only the super block is claimed; a start of 0 means no log. */
  ghost function Walk(j: Log, f: Format, disk: Disk): seq<Probe>
    requires FormatOk(f) && Usable(j, disk)
  {
    if j.start == 0 then [] else Scan(j, f, disk, {j.blkno[0]}, j.start, j.sequence)
  }

  ghost predicate SlotReady(j: Log, f: Format, disk: Disk)
    requires FormatOk(f)
  {
    && Usable(j, disk)
    && (j.start != 0 ==> Replayable(j, f, Walk(j, f, disk)) && NoRevokes(Walk(j, f, disk)))
  }

  lemma WalkIsReady(j: Log, f: Format, disk: Disk)
    requires FormatOk(f) && SlotReady(j, f, disk) && j.start != 0
    ensures LogReady(j, f, disk, Walk(j, f, disk))
  {
    ScanIsLinked(j, f, disk, {j.blkno[0]}, j.start, j.sequence);
  }

  /** The blocks of the journal that are claimed once it has been scanned. */
  ghost function ScanClaims(j: Log, f: Format, disk: Disk): set<nat>
    requires FormatOk(f) && Usable(j, disk)
  {
    {j.blkno[0]} + Claimed(j, Walk(j, f, disk))
  }

  /** The first walk leaves every data block of the log to the second one. */
  lemma ScanLeavesData(j: Log, f: Format, disk: Disk, used: set<nat>)
    requires FormatOk(f) && SlotReady(j, f, disk) && j.start != 0
    requires used * j.blkno.Values == ScanClaims(j, f, disk)
    ensures Unclaimed(j, f, used, Walk(j, f, disk))
  {
    var t := Walk(j, f, disk);
    WalkIsReady(j, f, disk);
    forall o: nat | o < Off(f, t, CommittedLen(t))
      ensures UnclaimedAt(j, f, used, t, o)
    {
      if !IsHeader(f, t, o) {
        CommittedBelowTurn(j, f, disk, t, o);
        DataUnclaimed(j, f, disk, t, o);
        assert j.blkno[Ring(j, o)] in used <==> j.blkno[Ring(j, o)] in used * j.blkno.Values;
      }
    }
  }

  lemma DataUnclaimed(j: Log, f: Format, disk: Disk, t: seq<Probe>, o: nat)
    requires FormatOk(f) && LogReady(j, f, disk, t) && 0 in j.blkno
    requires !IsHeader(f, t, o) && o < j.maxlen - j.first
    ensures Ring(j, o) in j.blkno && j.blkno[Ring(j, o)] !in {j.blkno[0]} + Claimed(j, t)
  {
    RingValue(j, o);
    assert MappedAt(j, Ring(j, o)) && OneToOneAt(j, Ring(j, o), 0);
    forall k | 0 <= k < |t|
      ensures t[k].pos in j.blkno && j.blkno[t[k].pos] != j.blkno[Ring(j, o)]
    {
      HeaderApart(j, f, disk, t, k, o);
    }
  }

  lemma HeaderApart(j: Log, f: Format, disk: Disk, t: seq<Probe>, k: nat, o: nat)
    requires FormatOk(f) && LogReady(j, f, disk, t) && k < |t| && !IsHeader(f, t, o) && o < j.maxlen - j.first
    ensures t[k].pos in j.blkno && Ring(j, o) in j.blkno && j.blkno[t[k].pos] != j.blkno[Ring(j, o)]
  {
    WalkPos(j, f, disk, t, k);
    if k < |t| - 1 {
      OffGrows(f, t, k, |t| - 1);
    }
    var o' := Off(f, t, k);
    if o < o' {
      RingApart(j, f, t, o, o');
    } else {
      RingApart(j, f, t, o', o);
    }
  }
}
