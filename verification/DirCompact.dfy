/**
 In-place compaction of a directory block while pass 2 walks its records (fsck.ocfs2/pass2.c).
 The block is a buffer of bytes: a record is an 8-byte inode number, a 16-bit record length, a name
 length, a file type and the name, and the record lengths tile the block.
 */
module DirCompact {
  import opened Common

  type Byte = b: nat | b < 256

  type Buffer = seq<Byte>

  const MEMBER_LEN: nat := 12

  /** A multiple of four. */
  predicate Aligned(n: nat) { n == 0 || (n >= 4 && Aligned(n - 4)) }

  lemma {:induction false} AlignedIsMultiple(n: nat)
    ensures Aligned(n) <==> n % 4 == 0
  {
    if n >= 4 {
      AlignedIsMultiple(n - 4);
    }
  }

  lemma AlignedDifference(x: nat, y: nat, z: nat)
    requires Aligned(x) && Aligned(y) && z == x - y
    ensures Aligned(z)
  {
    AlignedIsMultiple(x);
    AlignedIsMultiple(y);
    AlignedIsMultiple(z);
  }

  lemma AlignedSum(x: nat, y: nat, z: nat)
    requires Aligned(x) && Aligned(y) && z == x + y
    ensures Aligned(z)
  {
    AlignedIsMultiple(x);
    AlignedIsMultiple(y);
    AlignedIsMultiple(z);
  }

  /** The space that a name needs, rounded up to four bytes. */
  function RecLenFor(nameLen: nat): (r: nat)
    ensures Aligned(r) && nameLen + MEMBER_LEN <= r < nameLen + MEMBER_LEN + 4
  {
    var r := (nameLen + MEMBER_LEN + 3) / 4 * 4;
    AlignedIsMultiple(r);
    r
  }

  // ---- fields of the record at an offset ----------------------------------------------------

  predicate Inside(buf: Buffer, o: nat) { o + MEMBER_LEN <= |buf| }

  function RecLen(buf: Buffer, o: nat): (r: nat)
    requires Inside(buf, o)
    ensures r < 65536
  {
    var low: nat, high: nat := buf[o+8], buf[o+9];
    low + 256 * high
  }

  function NameLen(buf: Buffer, o: nat): nat
    requires Inside(buf, o)
  {
    buf[o+10]
  }

  const NO_INODE: Buffer := [0, 0, 0, 0, 0, 0, 0, 0]

  predicate IsLive(buf: Buffer, o: nat)
    requires Inside(buf, o)
  {
    buf[o..o+8] != NO_INODE
  }

  function SetRecLen(buf: Buffer, o: nat, len: nat): (r: Buffer)
    requires Inside(buf, o) && len < 65536
    ensures |r| == |buf| && RecLen(r, o) == len
  {
    buf[o+8 := len % 256][o+9 := len / 256]
  }

  function ClearInode(buf: Buffer, o: nat): (r: Buffer)
    requires Inside(buf, o)
    ensures |r| == |buf|
  {
    buf[..o] + NO_INODE + buf[o+8..]
  }

  /** Copies `len` bytes down from `from` to `to`; the two stretches may overlap. */
  function MoveDown(buf: Buffer, to: nat, from: nat, len: nat): (r: Buffer)
    requires to <= from && from + len <= |buf|
    ensures |r| == |buf|
  {
    buf[..to] + buf[from..from+len] + buf[to+len..]
  }

  // ---- well-formed blocks -------------------------------------------------------------------

  predicate LeavesPartial(recLen: nat, left: nat) { 0 < left - recLen < MEMBER_LEN }

  /** The lengths of the record make sense with `left` bytes to the end of the block. */
  predicate GoodLengths(buf: Buffer, o: nat, left: nat)
    requires Inside(buf, o)
  {
    && RecLenFor(1) <= RecLen(buf, o) <= left
    && Aligned(RecLen(buf, o))
    && RecLenFor(NameLen(buf, o)) <= RecLen(buf, o)
    && !LeavesPartial(RecLen(buf, o), left)
  }

  predicate GoodAt(buf: Buffer, o: nat, end: nat) {
    o < end <= |buf| && Inside(buf, o) && GoodLengths(buf, o, end - o)
  }

  /** The records from `o` on tile the block up to `end`. */
  predicate Tiled(buf: Buffer, o: nat, end: nat)
    decreases end - o
  {
    o == end || (GoodAt(buf, o, end) && Tiled(buf, o + RecLen(buf, o), end))
  }

  /** What a directory entry means. */
  datatype Entry = Entry(inode: Buffer, fileType: Byte, name: Buffer)

  function EntryAt(buf: Buffer, o: nat): Entry
    requires Inside(buf, o) && o + MEMBER_LEN + NameLen(buf, o) <= |buf|
  {
    Entry(buf[o..o+8], buf[o+11], buf[o+12..o+12+NameLen(buf, o)])
  }

  /** The entry of one record, if it is live. */
  function EntriesAt(buf: Buffer, o: nat): seq<Entry> {
    if Inside(buf, o) && o + MEMBER_LEN + NameLen(buf, o) <= |buf| && IsLive(buf, o) then [EntryAt(buf, o)] else []
  }

  /** The live entries from `o` up to `end`, in order. */
  function Entries(buf: Buffer, o: nat, end: nat): seq<Entry>
    decreases end - o
  {
    if !GoodAt(buf, o, end) then [] else EntriesAt(buf, o) + Entries(buf, o + RecLen(buf, o), end)
  }

  /** The checks of pass 2 drop a record: its name is empty, or another check refuses the offset. */
  predicate Dropped(buf: Buffer, drops: set<nat>, o: nat)
    requires Inside(buf, o)
  {
    NameLen(buf, o) == 0 || o in drops
  }

  /** The live entries that pass the checks. */
  function KeptEntries(buf: Buffer, drops: set<nat>, o: nat, end: nat): seq<Entry>
    decreases end - o
  {
    if !GoodAt(buf, o, end) then []
    else (if Dropped(buf, drops, o) then [] else EntriesAt(buf, o)) + KeptEntries(buf, drops, o + RecLen(buf, o), end)
  }

  /** The record is live and no longer than its name needs. */
  predicate TightAt(buf: Buffer, o: nat) {
    Inside(buf, o) && IsLive(buf, o) && NameLen(buf, o) > 0 && RecLen(buf, o) == RecLenFor(NameLen(buf, o))
  }

  /** Tight records from `o` on, up to exactly `p`. */
  predicate Tight(buf: Buffer, o: nat, p: nat)
    decreases p - o
  {
    o == p || (o < p <= |buf| && TightAt(buf, o) && Tight(buf, o + RecLen(buf, o), p))
  }

  /** The entries of a stretch of tight records. */
  function TightEntries(buf: Buffer, o: nat, p: nat): seq<Entry>
    decreases p - o
  {
    if o < p && TightAt(buf, o) then EntriesAt(buf, o) + TightEntries(buf, o + RecLen(buf, o), p) else []
  }

  /** All records but the last are live and minimal. */
  ghost predicate Compact(buf: Buffer, o: nat, end: nat) {
    o == end || exists p: nat :: o <= p < end && LastAt(buf, o, end, p)
  }

  ghost predicate LastAt(buf: Buffer, o: nat, end: nat, p: nat) {
    Tight(buf, o, p) && GoodAt(buf, p, end) && p + RecLen(buf, p) == end
  }

  class DirBlock {
    var buf: Buffer
    const end: nat

    constructor (buf: Buffer, end: nat)
      ensures this.buf == buf && this.end == end
    {
      this.buf, this.end := buf, end;
    }

    /**
     Walks the records from `start` on, dropping and compacting.  The kept entries stay, in order;
     the records still tile the block; all but the last are live and minimal; and the block is
     reported changed exactly if a byte of it is.
     */
    method Compress(start: nat, drops: set<nat>) returns (changed: bool)
      requires start <= end <= |buf| < 65536 && Tiled(buf, start, end)
      modifies this
      ensures |buf| == |old(buf)| && buf[..start] == old(buf)[..start] && buf[end..] == old(buf)[end..]
      ensures Tiled(buf, start, end) && Compact(buf, start, end)
      ensures Entries(buf, start, end) == KeptEntries(old(buf), drops, start, end)
      ensures changed <==> buf != old(buf)
      ensures changed <==> !Compact(old(buf), start, end) ||
                           Entries(old(buf), start, end) != KeptEntries(old(buf), drops, start, end)
    {
      changed := false;
      var offset: nat, writeOff: nat, prev := start, start, None;
      ghost var buf0 := buf;
      ghost var last := LastOf(buf0, drops, start, end);
      while offset < end
        invariant CompressedTo(buf0, buf, drops, start, end, offset, writeOff, prev)
        invariant (!changed ==> buf == buf0) && (changed ==> start < end)
        invariant last.Some? ==> !changed && Ideal(buf0, drops, offset, end, last.value, prev)
        decreases end - offset
      {
        offset, writeOff, prev, changed := CompressOne(offset, writeOff, prev, drops, changed, start, buf0, last);
      }
      CompressedAll(buf0, buf, drops, start, end, offset, writeOff, prev);
      ReportedExactly(buf0, buf, drops, start, end, last, changed);
    }

    /** One record of the walk. */
    method CompressOne(offset: nat, writeOff: nat, prev: Option<nat>, drops: set<nat>, changed: bool,
                       ghost start: nat, ghost buf0: Buffer, ghost last: Option<nat>)
      returns (offset': nat, writeOff': nat, prev': Option<nat>, changed': bool)
      requires offset < end <= |buf| < 65536
      requires CompressedTo(buf0, buf, drops, start, end, offset, writeOff, prev)
      requires !changed ==> buf == buf0
      requires last.Some? ==> !changed && Ideal(buf0, drops, offset, end, last.value, prev)
      modifies this
      ensures last.Some? ==> !changed' && Ideal(buf0, drops, offset', end, last.value, prev')
      ensures CompressedTo(buf0, buf, drops, start, end, offset', writeOff', prev')
      ensures offset < offset' <= end
      ensures !changed' ==> buf == buf0
    {
      ghost var buf1 := buf;
      CurrentRecord(buf0, buf1, drops, start, end, offset, writeOff, prev);
      if !GoodLengths(buf, offset, end - offset) {
        assert false;
      }
      var dropped := CheckRecord(offset, drops);
      ghost var buf2 := buf;
      var saved := RecLen(buf, offset);
      writeOff' := ShrinkPrevious(offset, writeOff, prev, start, buf1);
      ghost var buf3 := buf;
      StillGood(buf1, buf2, buf3, offset, end, drops);
      offset' := offset + saved;
      var moved := MoveRecord(offset, writeOff', saved, offset');
      prev' := Some(writeOff');
      changed' := changed || dropped || moved;
      if last.Some? {
        StaysIdeal(buf0, drops, offset, end, last.value, prev, offset');
      }
      RecordDone(buf0, buf1, buf2, buf3, buf, drops, start, end, offset, writeOff, prev, writeOff', offset');
    }

    /** The checks clear the inode number of a record that they drop. */
    method CheckRecord(offset: nat, drops: set<nat>) returns (dropped: bool)
      requires Inside(buf, offset)
      modifies this
      ensures Checked(old(buf), buf, drops, offset)
      ensures !dropped ==> buf == old(buf)
      ensures dropped <==> IsLive(old(buf), offset) && Dropped(old(buf), drops, offset)
    {
      dropped := IsLive(buf, offset) && Dropped(buf, drops, offset);
      if dropped {
        buf := ClearInode(buf, offset);
        ClearedInode(old(buf), offset);
      }
    }

    /** A live previous record gives back the space that its name does not need. */
    method ShrinkPrevious(offset: nat, writeOff: nat, prev: Option<nat>, ghost start: nat, ghost buf1: Buffer)
      returns (writeOff': nat)
      requires offset <= |buf| < 65536 && PrefixAt(buf1, start, offset, writeOff, prev)
      requires Agree(buf1, buf, 0, offset)
      modifies this
      ensures ShrunkTo(buf1, old(buf), buf, start, offset, prev, writeOff')
      ensures writeOff' == writeOff + if prev.Some? && IsLive(buf1, prev.value)
                                      then RecLenFor(NameLen(buf1, prev.value)) else 0
    {
      writeOff' := writeOff;
      if prev.Some? {
        EntryKept(buf1, buf, prev.value, offset);
      }
      if prev.Some? && IsLive(buf, prev.value) {
        var need := RecLenFor(NameLen(buf, prev.value));
        buf := SetRecLen(buf, prev.value, need);
        writeOff' := writeOff + need;
        Shrunk(buf1, old(buf), start, offset, prev.value, need, writeOff');
      } else {
        KeptPrevious(buf1, buf, start, offset, writeOff, prev);
      }
    }

    /** Moves the record down to the write offset and makes it reach as far as before. */
    method MoveRecord(offset: nat, writeOff: nat, saved: nat, ghost reach: nat) returns (moved: bool)
      requires writeOff <= offset && reach == offset + saved <= |buf| < 65536 && GoodRecord(buf, offset, saved)
      requires Aligned(offset - writeOff)
      modifies this
      ensures MovedTo(old(buf), buf, offset, writeOff, reach)
      ensures !moved ==> buf == old(buf)
      ensures moved <==> writeOff != offset
    {
      moved := writeOff < offset;
      if moved {
        var len := RecLenFor(NameLen(buf, offset));
        buf := MoveDown(buf, writeOff, offset, len);
        buf := SetRecLen(buf, writeOff, saved + offset - writeOff);
        Moved(old(buf), writeOff, offset, len, saved + offset - writeOff, reach);
      }
    }
  }

  // ---- blocks that need no change -----------------------------------------------------------

  /** From `offset` on the records are tight up to `last`, which reaches the end, and none is dropped. */
  ghost predicate Ideal(buf: Buffer, drops: set<nat>, offset: nat, end: nat, last: nat, prev: Option<nat>) {
    && GoodAt(buf, last, end) && last + RecLen(buf, last) == end
    && (offset == end || (offset <= last && Tight(buf, offset, last)))
    && Entries(buf, offset, end) == KeptEntries(buf, drops, offset, end)
    && (prev.Some? && offset < end ==> TightAt(buf, prev.value) && prev.value + RecLen(buf, prev.value) == offset)
  }

  /** The last record of a block that is compact and loses no entry. */
  ghost function LastOf(buf: Buffer, drops: set<nat>, start: nat, end: nat): (last: Option<nat>)
    ensures start < end ==> (last.Some? <==> Compact(buf, start, end)
                                             && Entries(buf, start, end) == KeptEntries(buf, drops, start, end))
    ensures last.Some? ==> Ideal(buf, drops, start, end, last.value, None)
  {
    if p: nat :| start <= p < end && LastAt(buf, start, end, p)
                 && Entries(buf, start, end) == KeptEntries(buf, drops, start, end)
    then Some(p) else None
  }

  lemma ReportedExactly(buf0: Buffer, buf: Buffer, drops: set<nat>, start: nat, end: nat, last: Option<nat>,
                        changed: bool)
    requires last == LastOf(buf0, drops, start, end) && start <= end && (changed ==> start < end)
    requires (!changed ==> buf == buf0) && (last.Some? ==> !changed)
    requires Compact(buf, start, end) && Entries(buf, start, end) == KeptEntries(buf0, drops, start, end)
    ensures changed <==> buf != buf0
    ensures changed <==> !Compact(buf0, start, end) ||
                         Entries(buf0, start, end) != KeptEntries(buf0, drops, start, end)
  {
    if buf == buf0 && start < end {
      assert last.Some?;
    }
  }

  lemma {:induction false} KeptFewer(buf: Buffer, drops: set<nat>, o: nat, end: nat)
    ensures |KeptEntries(buf, drops, o, end)| <= |Entries(buf, o, end)|
    decreases end - o
  {
    if GoodAt(buf, o, end) {
      KeptFewer(buf, drops, o + RecLen(buf, o), end);
    }
  }

  lemma StaysIdeal(buf: Buffer, drops: set<nat>, offset: nat, end: nat, last: nat, prev: Option<nat>, offset': nat)
    requires offset < end && Ideal(buf, drops, offset, end, last, prev) && GoodAt(buf, offset, end)
    requires offset' == offset + RecLen(buf, offset)
    ensures Ideal(buf, drops, offset', end, last, Some(offset)) && !(IsLive(buf, offset) && Dropped(buf, drops, offset))
  {
    KeptFewer(buf, drops, offset', end);
    var es, kept := EntriesAt(buf, offset), if Dropped(buf, drops, offset) then [] else EntriesAt(buf, offset);
    SameRests(es, Entries(buf, offset', end), kept, KeptEntries(buf, drops, offset', end));
    if offset < last {
      TightBelow(buf, offset', last);
    }
  }

  lemma SameRests(a: seq<Entry>, b: seq<Entry>, c: seq<Entry>, d: seq<Entry>)
    requires a + b == c + d && |c| <= |a| && |d| <= |b|
    ensures a == c && b == d
  {
    assert |a| == |c|;
    assert a == (a + b)[..|a|] && b == (a + b)[|a|..];
  }

  // ---- the parts of one round ---------------------------------------------------------------

  ghost predicate Agree(a: Buffer, b: Buffer, lo: nat, hi: nat) {
    |a| == |b| && forall i | lo <= i < hi && i < |a| :: a[i] == b[i]
  }

  /** The record's lengths are sound and it is `len` bytes long. */
  predicate GoodRecord(buf: Buffer, o: nat, len: nat) {
    && Inside(buf, o) && o + len <= |buf| && RecLen(buf, o) == len
    && RecLenFor(1) <= len && Aligned(RecLen(buf, o)) && RecLenFor(NameLen(buf, o)) <= len
  }

  /** Before `offset`: tight records, and one record that reaches up to `offset`. */
  ghost predicate PrefixAt(buf: Buffer, s: nat, offset: nat, w: nat, prev: Option<nat>) {
    match prev
    case None => w == offset == s
    case Some(p) => p == w && s <= p < offset && Tight(buf, s, p) && GoodRecord(buf, p, offset - p)
                    && (IsLive(buf, p) ==> NameLen(buf, p) > 0)
  }

  ghost function PrefixEntries(buf: Buffer, s: nat, prev: Option<nat>): seq<Entry> {
    match prev
    case None => []
    case Some(p) => TightEntries(buf, s, p) + EntriesAt(buf, p)
  }

  /** The walk has come to `offset`. */
  ghost predicate CompressedTo(buf0: Buffer, buf: Buffer, drops: set<nat>, s: nat, end: nat, offset: nat, w: nat,
                               prev: Option<nat>) {
    && s <= offset <= end <= |buf|
    && Agree(buf0, buf, 0, s) && Agree(buf0, buf, offset, |buf|)
    && Tiled(buf0, offset, end)
    && PrefixAt(buf, s, offset, w, prev)
    && KeptEntries(buf0, drops, s, end) == PrefixEntries(buf, s, prev) + KeptEntries(buf0, drops, offset, end)
  }

  /** Two records hold the same entry. */
  ghost predicate SameEntry(a: Buffer, o: nat, b: Buffer, o': nat) {
    && Inside(a, o) && Inside(b, o')
    && (IsLive(a, o) <==> IsLive(b, o'))
    && NameLen(a, o) == NameLen(b, o')
    && EntriesAt(a, o) == EntriesAt(b, o')
  }

  /** The `i`-th bytes of two records agree, or belong to the record length. */
  ghost predicate SameByte(a: Buffer, o: nat, b: Buffer, o': nat, i: nat)
  {
    o + i < |a| && o' + i < |b| ==> i == 8 || i == 9 || a[o + i] == b[o' + i]
  }

  lemma CopiedEntry(a: Buffer, o: nat, b: Buffer, o': nat)
    requires Inside(a, o) && o + MEMBER_LEN + NameLen(a, o) <= |a|
    requires Inside(b, o') && o' + MEMBER_LEN + NameLen(a, o) <= |b|
    requires forall i: nat | i < MEMBER_LEN + NameLen(a, o) :: SameByte(a, o, b, o', i)
    ensures SameEntry(a, o, b, o')
  {
    var n := NameLen(a, o);
    assert SameByte(a, o, b, o', 10) && SameByte(a, o, b, o', 11);
    var inode, inode' := a[o..o+8], b[o'..o'+8];
    forall i | 0 <= i < 8
      ensures inode[i] == inode'[i]
    {
      assert SameByte(a, o, b, o', i);
    }
    assert inode == inode';
    var name, name' := a[o+12..o+12+n], b[o'+12..o'+12+n];
    forall i | 0 <= i < n
      ensures name[i] == name'[i]
    {
      assert SameByte(a, o, b, o', i + 12);
    }
    assert name == name';
  }

  /** A record inside a stretch that two buffers share. */
  lemma EntryKept(a: Buffer, b: Buffer, o: nat, hi: nat)
    requires Inside(a, o) && o + MEMBER_LEN + NameLen(a, o) <= hi <= |a| && Agree(a, b, o, hi)
    ensures SameEntry(a, o, b, o) && RecLen(a, o) == RecLen(b, o)
  {
    CopiedEntry(a, o, b, o);
  }

  lemma {:induction false} TightSame(a: Buffer, b: Buffer, o: nat, p: nat)
    requires o <= p <= |a| && Agree(a, b, o, p) && Tight(a, o, p)
    ensures Tight(b, o, p) && TightEntries(b, o, p) == TightEntries(a, o, p)
    decreases p - o
  {
    if o < p {
      var o' := o + RecLen(a, o);
      TightBelow(a, o', p);
      EntryKept(a, b, o, p);
      TightSame(a, b, o', p);
      assert TightAt(b, o) && o + RecLen(b, o) == o';
    }
  }

  lemma TightBelow(a: Buffer, o: nat, p: nat)
    requires Tight(a, o, p)
    ensures o <= p
  {
  }

  lemma {:induction false} TightAppend(a: Buffer, o: nat, p: nat, q: nat)
    requires o <= p && Tight(a, o, p) && TightAt(a, p) && q == p + RecLen(a, p) <= |a|
    ensures Tight(a, o, q) && TightEntries(a, o, q) == TightEntries(a, o, p) + EntriesAt(a, p)
    decreases p - o
  {
    if o == p {
      assert Tight(a, q, q) && TightEntries(a, q, q) == [];
      assert EntriesAt(a, p) + [] == EntriesAt(a, p);
    } else {
      var o' := o + RecLen(a, o);
      TightBelow(a, o', p);
      TightAppend(a, o', p, q);
      Regroup(EntriesAt(a, o), TightEntries(a, o', p), EntriesAt(a, p));
    }
  }

  /** The effect of shrinking the previous record: before `w` all records are tight. */
  ghost predicate ShrunkTo(a: Buffer, b: Buffer, c: Buffer, s: nat, offset: nat, prev: Option<nat>, w: nat) {
    && Agree(b, c, 0, s) && Agree(b, c, offset, |b|)
    && s <= w <= offset && Tight(c, s, w)
    && TightEntries(c, s, w) == PrefixEntries(a, s, prev)
    && (w == offset ==> c == b) && Aligned(offset - w)
  }

  lemma KeptPrevious(a: Buffer, b: Buffer, s: nat, offset: nat, w: nat, prev: Option<nat>)
    requires offset <= |a| && PrefixAt(a, s, offset, w, prev) && Agree(a, b, 0, offset)
    requires prev.Some? ==> !IsLive(a, prev.value)
    ensures ShrunkTo(a, b, b, s, offset, prev, w)
  {
    if prev.Some? {
      KeptDead(a, b, s, offset, prev.value);
    }
  }

  lemma KeptDead(a: Buffer, b: Buffer, s: nat, offset: nat, p: nat)
    requires s <= p < offset <= |a| && Tight(a, s, p) && Inside(a, p) && !IsLive(a, p) && Agree(a, b, 0, offset)
    requires RecLen(a, p) == offset - p && Aligned(RecLen(a, p))
    ensures ShrunkTo(a, b, b, s, offset, Some(p), p)
  {
    TightSame(a, b, s, p);
    NoMore(TightEntries(a, s, p), EntriesAt(a, p));
  }

  lemma NoMore(a: seq<Entry>, b: seq<Entry>)
    requires b == []
    ensures a + b == a
  {
  }

  lemma Shrunk(a: Buffer, b: Buffer, s: nat, offset: nat, p: nat, need: nat, w: nat)
    requires offset <= |a| < 65536 && PrefixAt(a, s, offset, p, Some(p)) && Agree(a, b, 0, offset)
    requires IsLive(a, p) && need == RecLenFor(NameLen(a, p))
    requires w == p + need
    ensures Inside(b, p) && ShrunkTo(a, b, SetRecLen(b, p, need), s, offset, Some(p), w)
  {
    var c := SetRecLen(b, p, need);
    NearlyTight(a, b, p, offset, need);
    ShrunkIsTight(a, c, s, p, need, w);
    ShrunkAligned(a, p, offset, need, w);
    if w == offset {
      SameRecLen(a, b, p);
    }
  }

  lemma ShrunkAligned(a: Buffer, p: nat, offset: nat, need: nat, w: nat)
    requires p <= w <= offset && GoodRecord(a, p, offset - p) && need == RecLenFor(NameLen(a, p)) && w == p + need
    ensures Aligned(offset - w)
  {
    AlignedDifference(RecLen(a, p), need, offset - w);
  }

  lemma NearlyTight(a: Buffer, b: Buffer, p: nat, offset: nat, need: nat)
    requires p <= offset <= |a| < 65536 && GoodRecord(a, p, offset - p) && Agree(a, b, 0, offset)
    requires IsLive(a, p) && NameLen(a, p) > 0 && need == RecLenFor(NameLen(a, p))
    ensures Inside(b, p)
    ensures var c := SetRecLen(b, p, need);
            TightAlmost(a, c, p, need) && Agree(a, c, 0, p) && Agree(b, c, 0, p) && Agree(b, c, offset, |b|)
  {
  }

  lemma SameRecLen(a: Buffer, b: Buffer, p: nat)
    requires Inside(a, p) && Agree(a, b, p, p + MEMBER_LEN)
    ensures SetRecLen(b, p, RecLen(a, p)) == b
  {
  }

  /** Shrinking a live record makes it tight. */
  lemma ShrunkIsTight(a: Buffer, c: Buffer, s: nat, p: nat, need: nat, w: nat)
    requires s <= p && w == p + need && TightAlmost(a, c, p, need) && Agree(a, c, 0, p) && Tight(a, s, p)
    ensures Tight(c, s, w) && TightEntries(c, s, w) == PrefixEntries(a, s, Some(p))
  {
    CopiedEntry(a, p, c, p);
    TightSame(a, c, s, p);
    TightAppend(c, s, p, w);
  }

  ghost predicate TightAlmost(a: Buffer, c: Buffer, p: nat, need: nat) {
    && Inside(a, p) && |c| == |a| && IsLive(a, p) && NameLen(a, p) > 0
    && need == RecLenFor(NameLen(a, p)) && p + need <= |a| && RecLen(c, p) == need
    && forall i: nat | i < MEMBER_LEN + NameLen(a, p) :: SameByte(a, p, c, p, i)
  }

  /** The record at `from` stands at `to` and reaches as far as before. */
  ghost predicate MovedTo(a: Buffer, b: Buffer, from: nat, to: nat, reach: nat) {
    && to <= reach && SameEntry(a, from, b, to) && GoodRecord(b, to, reach - to)
    && Agree(a, b, 0, to) && Agree(a, b, reach, |a|)
  }

  lemma Moved(a: Buffer, to: nat, from: nat, len: nat, recLen: nat, reach: nat)
    requires to < from && Inside(a, from) && reach == from + RecLen(a, from) <= |a| < 65536
    requires len == RecLenFor(NameLen(a, from)) && recLen == reach - to
    requires GoodRecord(a, from, RecLen(a, from)) && Aligned(from - to)
    ensures MovedTo(a, SetRecLen(MoveDown(a, to, from, len), to, recLen), from, to, reach)
  {
    var b := SetRecLen(MoveDown(a, to, from, len), to, recLen);
    forall i: nat | i < MEMBER_LEN + NameLen(a, from)
      ensures SameByte(a, from, b, to, i)
    {
      assert MoveDown(a, to, from, len)[to + i] == a[from..from+len][i];
    }
    CopiedEntry(a, from, b, to);
    AlignedSum(RecLen(a, from), from - to, recLen);
  }

  /** What the checks do to a record. */
  ghost predicate Checked(a: Buffer, b: Buffer, drops: set<nat>, o: nat)
    requires Inside(a, o)
  {
    && Agree(a, b, 0, o) && Agree(a, b, o + 8, |a|)
    && EntriesAt(b, o) == (if Dropped(a, drops, o) then [] else EntriesAt(a, o))
    && (IsLive(b, o) ==> NameLen(b, o) > 0)
  }

  lemma ClearedInode(a: Buffer, o: nat)
    requires Inside(a, o)
    ensures var b := ClearInode(a, o); !IsLive(b, o) && Agree(a, b, 0, o) && Agree(a, b, o + 8, |a|)
  {
    var b := ClearInode(a, o);
    assert b[o..o+8] == NO_INODE;
  }

  lemma StillGood(a: Buffer, b: Buffer, c: Buffer, o: nat, end: nat, drops: set<nat>)
    requires GoodAt(a, o, end) && Checked(a, b, drops, o) && Agree(b, c, o, |b|)
    ensures GoodRecord(c, o, RecLen(b, o)) && RecLen(b, o) == RecLen(a, o)
  {
    assert c[o+8] == a[o+8] && c[o+9] == a[o+9] && c[o+10] == a[o+10];
  }

  lemma CurrentRecord(buf0: Buffer, buf: Buffer, drops: set<nat>, s: nat, end: nat, offset: nat, w: nat,
                      prev: Option<nat>)
    requires offset < end && CompressedTo(buf0, buf, drops, s, end, offset, w, prev)
    ensures GoodAt(buf, offset, end) && RecLen(buf, offset) == RecLen(buf0, offset)
    ensures SameEntry(buf0, offset, buf, offset)
  {
    EntryKept(buf0, buf, offset, |buf|);
  }

  lemma RecordDone(buf0: Buffer, buf1: Buffer, buf2: Buffer, buf3: Buffer, buf4: Buffer, drops: set<nat>, s: nat,
                   end: nat, offset: nat, w: nat, prev: Option<nat>, w': nat, offset': nat)
    requires offset < end && CompressedTo(buf0, buf1, drops, s, end, offset, w, prev)
    requires GoodAt(buf1, offset, end) && RecLen(buf1, offset) == RecLen(buf0, offset)
    requires SameEntry(buf0, offset, buf1, offset) && Checked(buf1, buf2, drops, offset)
    requires ShrunkTo(buf1, buf2, buf3, s, offset, prev, w')
    requires offset' == offset + RecLen(buf0, offset) && MovedTo(buf3, buf4, offset, w', offset')
    ensures CompressedTo(buf0, buf4, drops, s, end, offset', w', Some(w'))
  {
    CheckedEntry(buf0, buf1, buf2, buf3, buf4, drops, offset, w');
    PrefixDone(buf3, buf4, s, w', offset');
    KeptStep(buf0, drops, offset, offset', end, EntriesAt(buf4, w'));
    Joined(KeptEntries(buf0, drops, s, end), PrefixEntries(buf1, s, prev), KeptEntries(buf0, drops, offset, end),
           EntriesAt(buf4, w'), KeptEntries(buf0, drops, offset', end));
    FarBytes(buf0, buf1, buf2, buf3, buf4, s, offset, w', offset');
  }

  lemma PrefixDone(a: Buffer, b: Buffer, s: nat, w: nat, offset: nat)
    requires s <= w < offset && w <= |a| && Tight(a, s, w) && Agree(a, b, 0, w)
    requires GoodRecord(b, w, offset - w) && (IsLive(b, w) ==> NameLen(b, w) > 0)
    ensures PrefixAt(b, s, offset, w, Some(w))
    ensures PrefixEntries(b, s, Some(w)) == TightEntries(a, s, w) + EntriesAt(b, w)
  {
    TightSame(a, b, s, w);
  }

  lemma Joined(all: seq<Entry>, pre: seq<Entry>, kept: seq<Entry>, es: seq<Entry>, rest: seq<Entry>)
    requires all == pre + kept && kept == es + rest
    ensures all == pre + es + rest
  {
  }

  /** The record that stands at `w` in the end holds the entry that the checks left. */
  lemma CheckedEntry(buf0: Buffer, buf1: Buffer, buf2: Buffer, buf3: Buffer, buf4: Buffer, drops: set<nat>,
                     offset: nat, w: nat)
    requires SameEntry(buf0, offset, buf1, offset) && Checked(buf1, buf2, drops, offset)
    requires Agree(buf2, buf3, offset, |buf2|) && offset + MEMBER_LEN + NameLen(buf1, offset) <= |buf1|
    requires SameEntry(buf3, offset, buf4, w)
    ensures EntriesAt(buf4, w) == if Dropped(buf0, drops, offset) then [] else EntriesAt(buf0, offset)
    ensures IsLive(buf4, w) ==> NameLen(buf4, w) > 0
  {
    EntryKept(buf2, buf3, offset, |buf2|);
  }

  lemma FarBytes(buf0: Buffer, buf1: Buffer, buf2: Buffer, buf3: Buffer, buf4: Buffer, s: nat, offset: nat, w: nat,
                 offset': nat)
    requires s <= w <= offset && offset + 8 <= offset'
    requires Agree(buf0, buf1, 0, s) && Agree(buf0, buf1, offset, |buf1|)
    requires Agree(buf1, buf2, 0, offset) && Agree(buf1, buf2, offset + 8, |buf1|)
    requires Agree(buf2, buf3, 0, s) && Agree(buf2, buf3, offset, |buf2|)
    requires Agree(buf3, buf4, 0, w) && Agree(buf3, buf4, offset', |buf3|)
    ensures Agree(buf0, buf4, 0, s) && Agree(buf0, buf4, offset', |buf4|)
  {
  }

  lemma KeptStep(buf: Buffer, drops: set<nat>, o: nat, o': nat, end: nat, es: seq<Entry>)
    requires GoodAt(buf, o, end) && es == if Dropped(buf, drops, o) then [] else EntriesAt(buf, o)
    requires o' == o + RecLen(buf, o) && Tiled(buf, o, end)
    ensures KeptEntries(buf, drops, o, end) == es + KeptEntries(buf, drops, o', end)
    ensures Tiled(buf, o', end)
  {
  }

  /** At the end of the block the last record reaches the end. */
  lemma CompressedAll(buf0: Buffer, buf: Buffer, drops: set<nat>, s: nat, end: nat, offset: nat, w: nat,
                      prev: Option<nat>)
    requires offset >= end && CompressedTo(buf0, buf, drops, s, end, offset, w, prev)
    ensures buf[..s] == buf0[..s] && buf[end..] == buf0[end..]
    ensures Tiled(buf, s, end) && Compact(buf, s, end)
    ensures Entries(buf, s, end) == KeptEntries(buf0, drops, s, end)
  {
    if prev.Some? {
      var p := prev.value;
      assert LastAt(buf, s, end, p);
      TightTiled(buf, s, p, end);
    }
  }

  lemma {:induction false} TightTiled(buf: Buffer, o: nat, p: nat, end: nat)
    requires o <= p && LastAt(buf, o, end, p)
    ensures Tiled(buf, o, end) && Entries(buf, o, end) == TightEntries(buf, o, p) + EntriesAt(buf, p)
    decreases p - o
  {
    if o == p {
      LastTile(buf, p, end);
    } else {
      var o' := o + RecLen(buf, o);
      TightBelow(buf, o', p);
      TightIsGood(buf, o, p, end);
      TightTiled(buf, o', p, end);
      Regroup(EntriesAt(buf, o), TightEntries(buf, o', p), EntriesAt(buf, p));
    }
  }

  lemma Regroup(a: seq<Entry>, b: seq<Entry>, c: seq<Entry>)
    ensures a + (b + c) == (a + b) + c
  {
  }

  lemma LastTile(buf: Buffer, p: nat, end: nat)
    requires GoodAt(buf, p, end) && p + RecLen(buf, p) == end
    ensures Tiled(buf, p, end) && Entries(buf, p, end) == EntriesAt(buf, p)
  {
    assert Entries(buf, end, end) == [];
    assert EntriesAt(buf, p) + [] == EntriesAt(buf, p);
  }

  lemma TightIsGood(buf: Buffer, o: nat, p: nat, end: nat)
    requires o < p && TightAt(buf, o) && o + RecLen(buf, o) <= p && GoodAt(buf, p, end)
    ensures GoodAt(buf, o, end)
  {
  }
}
