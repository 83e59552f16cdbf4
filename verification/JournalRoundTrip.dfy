/**
 What is written to a journal is what replay writes back.  The log is described from the writer's side: a list of
 updates and commit marks, laid out in the ring behind one another.  Reading such a log (fsck.ocfs2/journal.c)
 gives back the updates before the last commit mark, block by block.
 */
module JournalRoundTrip {
  import opened Common
  import opened Journal
  import Slots = JournalSlots

  /** A block to be updated: where, and what it is to hold. */
  datatype Item = Item(block: nat, image: Block, sameUuid: bool)

  datatype Entry = Update(items: seq<Item>) | CommitMark

  /** In the log a block must not look like a header, so its magic number is blanked. */
  function Escaped(b: Block): Block { if b.magic == 0xC03B3998 then b.(magic := 0) else b }

  function TagFor(items: seq<Item>, i: nat): Tag
    requires i < |items|
  {
    Tag(items[i].block, i == |items| - 1, items[i].sameUuid, items[i].image.magic == 0xC03B3998)
  }

  function TagsFor(items: seq<Item>): (ts: seq<Tag>)
    ensures |ts| == |items| && forall i | 0 <= i < |ts| :: ts[i] == TagFor(items, i)
  {
    seq(|items|, i requires 0 <= i < |items| => TagFor(items, i))
  }

  /** The number of log blocks of an entry: its header and one for each item. */
  function Size(e: Entry): nat {
    match e
    case Update(items) => 1 + |items|
    case CommitMark => 1
  }

  /** How far into the log entry `k` starts. */
  function Start(es: seq<Entry>, k: nat): nat
    requires k <= |es|
  {
    if k == 0 then 0 else Start(es, k - 1) + Size(es[k-1])
  }

  function Marks(es: seq<Entry>, k: nat): nat
    requires k <= |es|
  {
    if k == 0 then 0 else Marks(es, k - 1) + if es[k-1].CommitMark? then 1 else 0
  }

  /** The sequence number of an entry: one more behind each commit mark. */
  function SeqAt(j: Log, es: seq<Entry>, k: nat): nat
    requires k <= |es|
  {
    SeqAfter(j, Marks(es, k))
  }

  /** The block at distance `o` from the start of the log, around the ring. */
  ghost predicate BlockAt(j: Log, disk: Disk, o: nat, b: Block) {
    RingOk(j) && Ring(j, o) in j.blkno && j.blkno[Ring(j, o)] in disk && disk[j.blkno[Ring(j, o)]] == b
  }

  ghost predicate IsHeaderOf(j: Log, f: Format, es: seq<Entry>, k: nat, b: Block)
    requires FormatOk(f) && k < |es|
  {
    && b.magic == 0xC03B3998 && b.sequence == SeqAt(j, es, k)
    && match es[k]
       case Update(items) => b.blocktype == 1 && forall i: nat :: LaidOutAt(f, b.tags, 12, TagsFor(items), i)
       case CommitMark => b.blocktype == 2
  }

  ghost predicate HeaderAt(j: Log, f: Format, disk: Disk, es: seq<Entry>, k: nat)
    requires FormatOk(f)
  {
    k < |es| ==> exists b :: BlockAt(j, disk, Start(es, k), b) && IsHeaderOf(j, f, es, k, b)
  }

  ghost predicate ItemAt(j: Log, f: Format, disk: Disk, es: seq<Entry>, k: nat, i: nat) {
    k < |es| && es[k].Update? && i < |es[k].items| ==>
      && BlockAt(j, disk, Start(es, k) + 1 + i, Escaped(es[k].items[i].image))
      && !OutOfRange(f, es[k].items[i].block)
  }

  ghost predicate FilledAt(es: seq<Entry>, k: nat) { k < |es| && es[k].Update? ==> es[k].items != [] }

  /** Behind the last entry comes a block that does not continue the log. */
  ghost predicate EndAt(j: Log, disk: Disk, es: seq<Entry>) {
    exists b :: BlockAt(j, disk, Start(es, |es|), b) && !(b.magic == 0xC03B3998 && b.sequence == SeqAt(j, es, |es|))
  }

  /** The ring is mapped one to one, and the super block is not part of it. */
  ghost predicate Geometry(j: Log, disk: Disk) {
    && 0 < j.first <= j.start < j.maxlen && j.sequence < UINT32_RANGE && 0 in j.blkno && Readable(j, disk)
    && (forall pos: nat :: MappedAt(j, pos)) && forall pos: nat, pos': nat :: OneToOneAt(j, pos, pos')
  }

  /** The journal holds the entries, and they do not fill the ring. */
  ghost predicate LogHolds(j: Log, f: Format, disk: Disk, es: seq<Entry>)
    requires FormatOk(f)
  {
    && Geometry(j, disk) && Start(es, |es|) < j.maxlen - j.first
    && (forall k: nat :: HeaderAt(j, f, disk, es, k) && FilledAt(es, k))
    && (forall k: nat, i: nat :: ItemAt(j, f, disk, es, k, i))
    && EndAt(j, disk, es)
  }

  // ---- the walk over such a log -------------------------------------------------------------

  ghost function ProbeFor(j: Log, disk: Disk, es: seq<Entry>, k: nat): Probe
    requires k <= |es| && RingOk(j)
  {
    Probe(Ring(j, Start(es, k)), SeqAt(j, es, k), LogBlock(j, disk, Ring(j, Start(es, k))))
  }

  lemma {:induction false} StartGrows(es: seq<Entry>, k: nat, m: nat)
    requires k < m <= |es|
    ensures Start(es, k) + Size(es[k]) <= Start(es, m)
    decreases m
  {
    if k < m - 1 {
      StartGrows(es, k, m - 1);
    }
  }

  lemma RingPlace(j: Log, o: nat)
    requires j.first <= j.start < j.maxlen && o < j.maxlen - j.first
    ensures j.first <= Ring(j, o) < j.maxlen
    ensures Ring(j, o) == if j.start + o < j.maxlen then j.start + o else j.start + o - (j.maxlen - j.first)
  {
    RingValue(j, o);
  }

  lemma Apart(j: Log, disk: Disk, o: nat, o': nat)
    requires Geometry(j, disk) && o < o' < j.maxlen - j.first
    ensures Ring(j, o) in j.blkno && Ring(j, o') in j.blkno && j.blkno[Ring(j, o)] != j.blkno[Ring(j, o')]
    ensures j.blkno[Ring(j, o')] != j.blkno[0] && j.blkno[Ring(j, o)] != j.blkno[0]
  {
    RingPlace(j, o);
    RingPlace(j, o');
    assert MappedAt(j, Ring(j, o)) && MappedAt(j, Ring(j, o')) && OneToOneAt(j, Ring(j, o), Ring(j, o'));
    assert OneToOneAt(j, 0, Ring(j, o)) && OneToOneAt(j, 0, Ring(j, o'));
  }

  /** The tags of an update are read as they were written. */
  lemma UpdateRead(f: Format, b: Block, items: seq<Item>)
    requires FormatOk(f) && items != [] && forall i: nat :: LaidOutAt(f, b.tags, 12, TagsFor(items), i)
    requires forall i | 0 <= i < |items| :: !OutOfRange(f, items[i].block)
    ensures Tags(f, b) == TagsFor(items) && TagCount(f, b) == Some(|items|)
  {
    assert OnlyLastIsLast(TagsFor(items));
    TagsReadBack(f, b, TagsFor(items));
    assert LaidOutAt(f, b.tags, 12, TagsFor(items), 0);
  }

  lemma HeaderRead(j: Log, f: Format, disk: Disk, es: seq<Entry>, k: nat)
    requires FormatOk(f) && LogHolds(j, f, disk, es) && k < |es|
    ensures var p := ProbeFor(j, disk, es, k);
            && Valid(p) && IsHeaderOf(j, f, es, k, p.block)
            && (es[k].Update? ==>
                  Tags(f, p.block) == TagsFor(es[k].items) && TagCount(f, p.block) == Some(|es[k].items|))
  {
    assert HeaderAt(j, f, disk, es, k) && FilledAt(es, k);
    var b :| BlockAt(j, disk, Start(es, k), b) && IsHeaderOf(j, f, es, k, b);
    if es[k].Update? {
      forall i | 0 <= i < |es[k].items|
        ensures !OutOfRange(f, es[k].items[i].block)
      {
        assert ItemAt(j, f, disk, es, k, i);
      }
      UpdateRead(f, b, es[k].items);
    }
  }

  /** Each entry is recognised, and the walk steps from it to the next. */
  lemma StepsOn(j: Log, f: Format, disk: Disk, es: seq<Entry>, k: nat)
    requires FormatOk(f) && LogHolds(j, f, disk, es) && k < |es|
    ensures var p := ProbeFor(j, disk, es, k);
            && NextPos(j, f, p) == Some(Ring(j, Start(es, k + 1))) && NextSeq(p) == SeqAt(j, es, k + 1)
            && (IsCommit(p) <==> es[k].CommitMark?) && (IsDescriptor(p) <==> es[k].Update?)
            && (es[k].Update? ==> Tags(f, p.block) == TagsFor(es[k].items))
  {
    HeaderRead(j, f, disk, es, k);
    StepsTo(j, f, es, k, ProbeFor(j, disk, es, k));
    SeqNext(j, es, k);
  }

  lemma StepsTo(j: Log, f: Format, es: seq<Entry>, k: nat, p: Probe)
    requires FormatOk(f) && 0 < j.first <= j.start < j.maxlen && k < |es| && p.pos == Ring(j, Start(es, k)) && Valid(p)
    requires match es[k]
             case Update(items) => p.block.blocktype == DESCRIPTOR && TagCount(f, p.block) == Some(|items|)
             case CommitMark => p.block.blocktype == COMMIT
    ensures NextPos(j, f, p) == Some(Ring(j, Start(es, k + 1)))
  {
    StepInRing(j, j.start + Start(es, k), Size(es[k]) - 1);
  }

  lemma SeqNext(j: Log, es: seq<Entry>, k: nat)
    requires k < |es|
    ensures SeqAt(j, es, k + 1) == if es[k].CommitMark? then SeqSucc(SeqAt(j, es, k)) else SeqAt(j, es, k)
  {
    SeqAfterStep(j, Marks(es, k));
  }

  lemma StopsThere(j: Log, f: Format, disk: Disk, es: seq<Entry>)
    requires FormatOk(f) && LogHolds(j, f, disk, es)
    ensures NextPos(j, f, ProbeFor(j, disk, es, |es|)) == None && !IsCommit(ProbeFor(j, disk, es, |es|))
  {
    var b :| BlockAt(j, disk, Start(es, |es|), b) && !(b.magic == 0xC03B3998 && b.sequence == SeqAt(j, es, |es|));
  }

  /** The probes from entry `k` on, and the one at which the walk stops. */
  ghost function ProbesFrom(j: Log, disk: Disk, es: seq<Entry>, k: nat): (t: seq<Probe>)
    requires k <= |es| && RingOk(j)
    ensures |t| == |es| + 1 - k
    decreases |es| - k
  {
    [ProbeFor(j, disk, es, k)] + if k < |es| then ProbesFrom(j, disk, es, k + 1) else []
  }

  lemma {:induction false} ProbesAt(j: Log, disk: Disk, es: seq<Entry>, k: nat, m: nat)
    requires k <= m <= |es| && RingOk(j)
    ensures ProbesFrom(j, disk, es, k)[m-k] == ProbeFor(j, disk, es, m)
    decreases m - k
  {
    if k < m {
      var rest := ProbesFrom(j, disk, es, k + 1);
      ProbesAt(j, disk, es, k + 1, m);
      assert ProbesFrom(j, disk, es, k) == [ProbeFor(j, disk, es, k)] + rest;
    }
  }

  ghost predicate FreeAt(j: Log, es: seq<Entry>, used: set<nat>, m: nat)
    requires RingOk(j)
  {
    m <= |es| ==> Ring(j, Start(es, m)) in j.blkno && j.blkno[Ring(j, Start(es, m))] !in used
  }

  lemma {:induction false} ScanReads(j: Log, f: Format, disk: Disk, es: seq<Entry>, used: set<nat>, k: nat)
    requires FormatOk(f) && LogHolds(j, f, disk, es) && k <= |es|
    requires forall m: nat :: k <= m ==> FreeAt(j, es, used, m)
    ensures Scan(j, f, disk, used, Ring(j, Start(es, k)), SeqAt(j, es, k)) == ProbesFrom(j, disk, es, k)
    decreases |es| - k
  {
    assert FreeAt(j, es, used, k);
    if k < |es| {
      StepsOn(j, f, disk, es, k);
      var used' := used + {j.blkno[Ring(j, Start(es, k))]};
      forall m: nat | k + 1 <= m
        ensures FreeAt(j, es, used', m)
      {
        assert FreeAt(j, es, used, m);
        if m <= |es| {
          StartGrows(es, k, m);
          if m < |es| {
            StartGrows(es, m, |es|);
          }
          Apart(j, disk, Start(es, k), Start(es, m));
        }
      }
      ScanReads(j, f, disk, es, used', k + 1);
    } else {
      StopsThere(j, f, disk, es);
    }
  }

  /** The first walk reads the headers of the entries, and the block behind them. */
  lemma WalkReads(j: Log, f: Format, disk: Disk, es: seq<Entry>)
    requires FormatOk(f) && LogHolds(j, f, disk, es)
    ensures Usable(j, disk) && Walk(j, f, disk) == ProbesFrom(j, disk, es, 0)
  {
    forall m: nat
      ensures FreeAt(j, es, {j.blkno[0]}, m)
    {
      if m <= |es| {
        if m < |es| {
          StartGrows(es, m, |es|);
        }
        RingPlace(j, Start(es, m));
        assert MappedAt(j, Ring(j, Start(es, m))) && OneToOneAt(j, 0, Ring(j, Start(es, m)));
      }
    }
    RingPlace(j, 0);
    ScanReads(j, f, disk, es, {j.blkno[0]}, 0);
  }

  // ---- the writes of such a log -------------------------------------------------------------

  /** The first `n` updates of a list, in order. */
  function ItemWrites(items: seq<Item>, n: nat): seq<Write>
    requires n <= |items|
  {
    if n == 0 then [] else ItemWrites(items, n - 1) + [Write(items[n-1].block, items[n-1].image)]
  }

  /** The updates of the first `n` entries. */
  function EntriesWrites(es: seq<Entry>, n: nat): seq<Write>
    requires n <= |es|
  {
    if n == 0 then []
    else EntriesWrites(es, n - 1) + if es[n-1].Update? then ItemWrites(es[n-1].items, |es[n-1].items|) else []
  }

  /** The entries up to and including the last commit mark among the first `n`. */
  function Committed(es: seq<Entry>, n: nat): (m: nat)
    requires n <= |es|
    ensures m <= n
  {
    if n == 0 then 0 else if es[n-1].CommitMark? then n else Committed(es, n - 1)
  }

  /** Blanking a magic number and putting it back cancel. */
  lemma EscapeUndone(items: seq<Item>, i: nat)
    requires i < |items|
    ensures Image(TagFor(items, i), Escaped(items[i].image)) == items[i].image
  {
  }

  lemma {:induction false} ItemsWritten(j: Log, f: Format, disk: Disk, es: seq<Entry>, k: nat, data: seq<nat>, n: nat)
    requires FormatOk(f) && LogHolds(j, f, disk, es) && k < |es| && es[k].Update? && n <= |es[k].items| == |data|
    requires forall i | 0 <= i < |data| :: data[i] == Ring(j, Start(es, k) + 1 + i)
    ensures TagWrites(j, disk, data, TagsFor(es[k].items)[..n]) == ItemWrites(es[k].items, n)
    decreases n
  {
    if n > 0 {
      var items, ts := es[k].items, TagsFor(es[k].items);
      ItemsWritten(j, f, disk, es, k, data, n - 1);
      assert ts[..n][..n-1] == ts[..n-1];
      assert ItemAt(j, f, disk, es, k, n - 1);
      EscapeUndone(items, n - 1);
    }
  }

  lemma EntryWritten(j: Log, f: Format, disk: Disk, es: seq<Entry>, k: nat)
    requires FormatOk(f) && LogHolds(j, f, disk, es) && k < |es|
    ensures EntryWrites(j, f, disk, ProbeFor(j, disk, es, k))
         == if es[k].Update? then ItemWrites(es[k].items, |es[k].items|) else []
  {
    StepsOn(j, f, disk, es, k);
    if es[k].Update? {
      var items, p := es[k].items, ProbeFor(j, disk, es, k);
      var data := DataPos(j, Jwrap(j, p.pos + 1), |items|);
      forall i | 0 <= i < |data|
        ensures data[i] == Ring(j, Start(es, k) + 1 + i)
      {
        DataPosition(j, j.start + Start(es, k), |items|, i);
      }
      ItemsWritten(j, f, disk, es, k, data, |items|);
      assert TagsFor(items)[..|items|] == TagsFor(items);
    }
  }

  /** What the walk over the first `n` entries comes to. */
  lemma {:induction false} WalkMeans(j: Log, f: Format, disk: Disk, es: seq<Entry>, t: seq<Probe>, n: nat)
    requires FormatOk(f) && LogHolds(j, f, disk, es) && n <= |es| && t == ProbesFrom(j, disk, es, 0)
    ensures LogWrites(j, f, disk, t[..n]) == EntriesWrites(es, n)
    ensures CommittedLen(t[..n]) == Committed(es, n) && Commits(t[..n]) == Marks(es, n)
    decreases n
  {
    if n > 0 {
      WalkMeans(j, f, disk, es, t, n - 1);
      assert t[..n][..n-1] == t[..n-1];
      ProbesAt(j, disk, es, 0, n - 1);
      StepsOn(j, f, disk, es, n - 1);
      EntryWritten(j, f, disk, es, n - 1);
    } else {
      assert t[..n] == [];
    }
  }

  /**
   Replaying a journal writes the blocks of the updates before the last commit mark, with the content that they
   were given, in order; and the number at which it ends is the one behind all commit marks.
   */
  lemma LogReadBack(j: Log, f: Format, disk: Disk, es: seq<Entry>)
    requires FormatOk(f) && LogHolds(j, f, disk, es)
    ensures Usable(j, disk) && Slots.SlotWrites(j, f, disk) == EntriesWrites(es, Committed(es, |es|))
    ensures EndSeq(j, Walk(j, f, disk)) == SeqAt(j, es, |es|)
  {
    WalkReads(j, f, disk, es);
    WalkComesTo(j, f, disk, es, Walk(j, f, disk));
  }

  lemma CommitsCounted(j: Log, f: Format, disk: Disk, es: seq<Entry>, t: seq<Probe>)
    requires FormatOk(f) && LogHolds(j, f, disk, es)
    ensures Usable(j, disk) && j.start != 0 && (t == Walk(j, f, disk) ==> Commits(t) == Marks(es, |es|))
  {
    WalkReads(j, f, disk, es);
    WalkComesTo(j, f, disk, es, ProbesFrom(j, disk, es, 0));
  }

  /** The empty log that replay leaves starts with the second number behind all commit marks. */
  lemma ResetReadBack(j: Log, f: Format, disk: Disk, es: seq<Entry>, n: nat)
    requires FormatOk(f) && LogHolds(j, f, disk, es) && n == Marks(es, |es|)
    ensures Usable(j, disk) && Slots.ResetLog(j, f, disk) == j.(start := 0, sequence := SeqAfter(j, n + 1))
  {
    CommitsCounted(j, f, disk, es, Walk(j, f, disk));
    Slots.ResetFollows(j, f, disk, Walk(j, f, disk), n);
  }

  lemma WalkComesTo(j: Log, f: Format, disk: Disk, es: seq<Entry>, t: seq<Probe>)
    requires FormatOk(f) && LogHolds(j, f, disk, es) && t == ProbesFrom(j, disk, es, 0)
    ensures LogWrites(j, f, disk, t[..CommittedLen(t)]) == EntriesWrites(es, Committed(es, |es|))
    ensures Commits(t) == Marks(es, |es|)
  {
    var n := |es|;
    ProbesAt(j, disk, es, 0, n);
    StopsThere(j, f, disk, es);
    LastIsNoCommit(t);
    WalkMeans(j, f, disk, es, t, n);
    WalkMeans(j, f, disk, es, t, Committed(es, n));
  }

  lemma LastIsNoCommit(t: seq<Probe>)
    requires t != [] && !IsCommit(t[|t|-1])
    ensures CommittedLen(t) == CommittedLen(t[..|t|-1]) && Commits(t) == Commits(t[..|t|-1])
  {
  }

  /** No update touches the journal itself, and there are at most 2^31 commit marks. */
  ghost predicate UpdatesOutside(j: Log, es: seq<Entry>) {
    && Marks(es, |es|) <= INT32_RANGE
    && forall k, i | 0 <= k < |es| && es[k].Update? && 0 <= i < |es[k].items| :: es[k].items[i].block !in j.blkno.Values
  }

  lemma {:induction false} SameOffsets(j: Log, f: Format, disk: Disk, es: seq<Entry>, t: seq<Probe>, n: nat)
    requires FormatOk(f) && LogHolds(j, f, disk, es) && n <= |es| && t == ProbesFrom(j, disk, es, 0)
    ensures Off(f, t, n) == Start(es, n)
    decreases n
  {
    if n > 0 {
      SameOffsets(j, f, disk, es, t, n - 1);
      ProbesAt(j, disk, es, 0, n - 1);
      StepsOn(j, f, disk, es, n - 1);
    }
  }

  /** So such a journal is one that replay is proved for. */
  lemma HoldsIsReady(j: Log, f: Format, disk: Disk, es: seq<Entry>)
    requires FormatOk(f) && LogHolds(j, f, disk, es) && UpdatesOutside(j, es)
    ensures SlotReady(j, f, disk)
  {
    WalkReads(j, f, disk, es);
    WalkIsReplayable(j, f, disk, es, Walk(j, f, disk));
    NothingRevoked(j, f, disk, es, Walk(j, f, disk));
  }

  lemma WalkIsReplayable(j: Log, f: Format, disk: Disk, es: seq<Entry>, t: seq<Probe>)
    requires FormatOk(f) && LogHolds(j, f, disk, es) && UpdatesOutside(j, es) && t == ProbesFrom(j, disk, es, 0)
    ensures Replayable(j, f, t)
  {
    WalkComesTo(j, f, disk, es, t);
    SameOffsets(j, f, disk, es, t, |es|);
    forall k: nat
      ensures EntryOkAt(j, f, t, k)
    {
      if k < CommittedLen(t) {
        ShortOfEnd(j, f, disk, es, t);
        ProbesAt(j, disk, es, 0, k);
        EntryIsOk(j, f, disk, es, k);
      }
    }
  }

  lemma ShortOfEnd(j: Log, f: Format, disk: Disk, es: seq<Entry>, t: seq<Probe>)
    requires FormatOk(f) && LogHolds(j, f, disk, es) && t == ProbesFrom(j, disk, es, 0)
    ensures CommittedLen(t) <= |es|
  {
    ProbesAt(j, disk, es, 0, |es|);
    StopsThere(j, f, disk, es);
    LastIsNoCommit(t);
  }

  lemma NothingRevoked(j: Log, f: Format, disk: Disk, es: seq<Entry>, t: seq<Probe>)
    requires FormatOk(f) && LogHolds(j, f, disk, es) && t == ProbesFrom(j, disk, es, 0)
    ensures NoRevokes(t)
  {
    forall k | 0 <= k < |t|
      ensures Valid(t[k]) ==> t[k].block.blocktype != REVOKE
    {
      ProbesAt(j, disk, es, 0, k);
      if k < |es| {
        HeaderRead(j, f, disk, es, k);
      } else {
        StopsThere(j, f, disk, es);
      }
    }
  }

  lemma EntryIsOk(j: Log, f: Format, disk: Disk, es: seq<Entry>, k: nat)
    requires FormatOk(f) && LogHolds(j, f, disk, es) && UpdatesOutside(j, es) && k < |es|
    ensures EntryOk(j, f, ProbeFor(j, disk, es, k))
  {
    StepsOn(j, f, disk, es, k);
    assert FilledAt(es, k);
  }
}
