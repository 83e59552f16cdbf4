/**
 Journal replay over all slots (fsck.ocfs2/journal.c).  One map of claimed blocks is shared by all
 journals; all of them are scanned before the first one is written back.
 */
module JournalSlots {
  import opened Journal
  import opened Common

  // ---- the journals of all slots ------------------------------------------------------------

  /** The writes that replaying one slot comes to. */
  ghost function SlotWrites(j: Log, f: Format, disk: Disk): seq<Write>
    requires FormatOk(f) && Usable(j, disk)
  {
    var t := Walk(j, f, disk);
    LogWrites(j, f, disk, t[..CommittedLen(t)])
  }

  /** Every dirty journal can be replayed; dirty journals share no block and do not point into each other. */
  ghost predicate SlotsReady(logs: seq<Log>, dirty: seq<bool>, f: Format, disk: Disk)
    requires FormatOk(f)
  {
    && |dirty| == |logs|
    && (forall i: nat :: SlotReadyAt(logs, dirty, f, disk, i))
    && (forall i: nat, k: nat :: SlotsApartAt(logs, dirty, f, disk, i, k))
  }

  ghost predicate IsDirty(logs: seq<Log>, dirty: seq<bool>, i: nat) {
    i < |logs| && i < |dirty| && dirty[i]
  }

  ghost predicate SlotReadyAt(logs: seq<Log>, dirty: seq<bool>, f: Format, disk: Disk, i: nat)
    requires FormatOk(f)
  {
    IsDirty(logs, dirty, i) ==> SlotReady(logs[i], f, disk)
  }

  ghost predicate SlotsApartAt(logs: seq<Log>, dirty: seq<bool>, f: Format, disk: Disk, i: nat, k: nat)
    requires FormatOk(f)
  {
    IsDirty(logs, dirty, i) && IsDirty(logs, dirty, k) && Usable(logs[i], disk) ==>
      && (i != k ==> logs[i].blkno.Values !! logs[k].blkno.Values)
      && WritesOutside(SlotWrites(logs[i], f, disk), logs[k])
  }

  ghost predicate WritesOutside(ws: seq<Write>, j: Log) {
    forall m | 0 <= m < |ws| :: ws[m].block !in j.blkno.Values
  }

  /** The writes of the first `n` slots, slot after slot. */
  ghost function AllWrites(logs: seq<Log>, dirty: seq<bool>, f: Format, disk: Disk, n: nat): seq<Write>
    requires FormatOk(f) && SlotsReady(logs, dirty, f, disk) && n <= |logs|
  {
    if n == 0 then []
    else
      assert SlotReadyAt(logs, dirty, f, disk, n - 1);
      AllWrites(logs, dirty, f, disk, n - 1) + (if dirty[n-1] then SlotWrites(logs[n-1], f, disk) else [])
  }

  /** The super block that replay leaves behind: no log, and a sequence number not used yet. */
  ghost function ResetLog(j: Log, f: Format, disk: Disk): Log
    requires FormatOk(f) && Usable(j, disk)
  {
    j.(start := 0,
       sequence := if j.start == 0 then j.sequence else SeqSucc(EndSeq(j, Walk(j, f, disk))))
  }

  ghost predicate ResetAt(logs: seq<Log>, logs': seq<Log>, dirty: seq<bool>, f: Format, disk: Disk, n: nat, i: nat)
    requires FormatOk(f)
  {
    && (i < |logs| && i < |logs'| && !(i < n && IsDirty(logs, dirty, i)) ==> logs'[i] == logs[i])
    && (i < n && i < |logs'| && IsDirty(logs, dirty, i) && Usable(logs[i], disk) ==>
          logs'[i] == ResetLog(logs[i], f, disk))
  }

  /** After `n` slots have been scanned. */
  ghost predicate ClaimedSlotAt(logs: seq<Log>, dirty: seq<bool>, f: Format, disk: Disk, used: set<nat>, n: nat, i: nat)
    requires FormatOk(f)
  {
    IsDirty(logs, dirty, i) && Usable(logs[i], disk) ==>
      used * logs[i].blkno.Values == if i < n then ScanClaims(logs[i], f, disk) else {}
  }

  ghost predicate FinalSeqAt(logs: seq<Log>, dirty: seq<bool>, f: Format, disk: Disk, finals: seq<nat>, i: nat)
    requires FormatOk(f)
  {
    i < |finals| && IsDirty(logs, dirty, i) && Usable(logs[i], disk) && logs[i].start != 0 ==>
      finals[i] == EndSeq(logs[i], Walk(logs[i], f, disk))
  }

  ghost predicate SameLogAt(logs: seq<Log>, dirty: seq<bool>, d0: Disk, disk: Disk, i: nat) {
    IsDirty(logs, dirty, i) ==> SameLog(logs[i], d0, disk)
  }

  /** After the logs of `n` slots have been written back. */
  ghost predicate UnrecoveredAt(logs: seq<Log>, dirty: seq<bool>, f: Format, d0: Disk, used: set<nat>, n: nat, i: nat)
    requires FormatOk(f)
  {
    n <= i && IsDirty(logs, dirty, i) && Usable(logs[i], d0) ==>
      used * logs[i].blkno.Values == ScanClaims(logs[i], f, d0)
  }

  class SlotReplayer {
    var logs: seq<Log>
    const replayer: Replayer
    const dirty: seq<bool>

    constructor (logs: seq<Log>, dirty: seq<bool>, replayer: Replayer)
      ensures this.logs == logs && this.dirty == dirty && this.replayer == replayer
    {
      this.logs, this.dirty, this.replayer := logs, dirty, replayer;
    }

    /** Claims the super block of a journal and walks its log. */
    method ScanSlot(j: Log) returns (ok: bool, finalSeq: nat)
      requires FormatOk(replayer.format) && Usable(j, replayer.disk)
      requires replayer.used * j.blkno.Values == {}
      modifies replayer`used
      ensures replayer.used == old(replayer.used) + ScanClaims(j, replayer.format, replayer.disk)
      ensures j.start != 0 ==> finalSeq == EndSeq(j, Walk(j, replayer.format, replayer.disk))
      ensures ok <==> ScanEnds(j, replayer.format, replayer.disk)
    {
      assert j.blkno[0] in j.blkno.Values;
      assert j.blkno[0] !in replayer.used * j.blkno.Values;
      var blk := replayer.LookupJournalBlock(j, 0, true);
      if blk.None? {
        assert false;
      }
      finalSeq, ok := 0, true;
      if j.start != 0 {
        OnlySuperBlock(j, old(replayer.used));
        ScanSame(j, replayer.format, replayer.disk, replayer.used, {j.blkno[0]}, j.start, j.sequence);
        ghost var t;
        ok, finalSeq, t := replayer.ScanWalk(j);
      }
    }

    /** The first round over the slots. */
    method ScanSlots() returns (finals: seq<nat>, trouble: bool)
      requires FormatOk(replayer.format) && SlotsReady(logs, dirty, replayer.format, replayer.disk)
      modifies replayer`used
      ensures |finals| == |logs|
      ensures forall i: nat :: FinalSeqAt(logs, dirty, replayer.format, replayer.disk, finals, i)
      ensures forall i: nat :: ClaimedSlotAt(logs, dirty, replayer.format, replayer.disk, replayer.used, |logs|, i)
      ensures trouble <==> exists i: nat :: ScanFailsAt(logs, dirty, replayer.format, replayer.disk, |logs|, i)
    {
      replayer.used := {};
      finals, trouble := [], false;
      while |finals| < |logs|
        invariant |finals| <= |logs|
        invariant forall i: nat :: FinalSeqAt(logs, dirty, replayer.format, replayer.disk, finals, i)
        invariant forall i: nat ::
                    ClaimedSlotAt(logs, dirty, replayer.format, replayer.disk, replayer.used, |finals|, i)
        invariant trouble <==> exists i: nat :: ScanFailsAt(logs, dirty, replayer.format, replayer.disk, |finals|, i)
      {
        var n := |finals|;
        ghost var was := replayer.used;
        var ok, finalSeq := true, 0;
        if dirty[n] {
          assert SlotReadyAt(logs, dirty, replayer.format, replayer.disk, n);
          assert ClaimedSlotAt(logs, dirty, replayer.format, replayer.disk, was, n, n);
          ok, finalSeq := ScanSlot(logs[n]);
        }
        SlotScanned(logs, dirty, replayer.format, replayer.disk, was, replayer.used, n, n + 1);
        FinalSeqStep(logs, dirty, replayer.format, replayer.disk, finals, finalSeq);
        ScanFailsStep(logs, dirty, replayer.format, replayer.disk, n, n + 1);
        trouble := trouble || !ok;
        finals := finals + [finalSeq];
      }
    }

    /** One slot of the second round. */
    method RecoverSlot(n: nat, finalSeq: nat, ghost logs0: seq<Log>, ghost d0: Disk)
      requires FormatOk(replayer.format) && SlotsReady(logs0, dirty, replayer.format, d0)
      requires n < |logs| == |logs0|
      requires RecoveredSlots(logs0, logs, dirty, replayer.format, d0, replayer.disk, replayer.used, n)
      requires IsDirty(logs0, dirty, n) && logs0[n].start != 0 ==>
                 Usable(logs0[n], d0) && finalSeq == EndSeq(logs0[n], Walk(logs0[n], replayer.format, d0))
      modifies this`logs, replayer`disk, replayer`used
      ensures |logs| == |logs0|
      ensures RecoveredSlots(logs0, logs, dirty, replayer.format, d0, replayer.disk, replayer.used, n + 1)
    {
      ghost var f, disk, used, logs' := replayer.format, replayer.disk, replayer.used, logs;
      if dirty[n] {
        assert ResetAt(logs0, logs, dirty, f, d0, n, n) && SlotReadyAt(logs0, dirty, f, d0, n);
        assert SameLogAt(logs0, dirty, d0, disk, n) && UnrecoveredAt(logs0, dirty, f, d0, used, n, n);
        var j := logs[n];
        if j.start != 0 {
          SlotStillReady(logs0, dirty, f, d0, disk, used, n);
          var seqNo := replayer.RecoverWalk(j, finalSeq, Walk(j, f, d0));
          j := j.(sequence := (finalSeq + 1) % UINT32_RANGE);
        }
        SlotRecovered(logs0[n], f, d0, disk, used, replayer.disk, replayer.used);
        logs := logs[n := j.(start := 0)];
      }
      RecoveredStep(logs0, logs', logs, dirty, f, d0, disk, used, replayer.disk, replayer.used, n);
    }

    /**
     Replays every dirty slot.  The volume changes by exactly the committed writes of the slots, in
     the order of the slots and of their logs, and every replayed log is marked empty.
     */
    method ReplayJournals() returns (trouble: bool)
      requires FormatOk(replayer.format) && SlotsReady(logs, dirty, replayer.format, replayer.disk)
      modifies this`logs, replayer`disk, replayer`used
      ensures SlotsReady(old(logs), dirty, replayer.format, old(replayer.disk))
      ensures replayer.disk
           == Apply(old(replayer.disk), AllWrites(old(logs), dirty, replayer.format, old(replayer.disk), |old(logs)|))
      ensures |logs| == |old(logs)|
      ensures forall i: nat :: ResetAt(old(logs), logs, dirty, replayer.format, old(replayer.disk), |logs|, i)
      ensures trouble <==>
              exists i: nat :: ScanFailsAt(old(logs), dirty, replayer.format, old(replayer.disk), |logs|, i)
    {
      ghost var logs0, d0, f := logs, replayer.disk, replayer.format;
      var finals;
      finals, trouble := ScanSlots();
      RecoveredNoSlot(logs0, dirty, f, d0, replayer.used);
      var n := 0;
      while n < |logs|
        invariant n <= |logs| == |logs0|
        invariant RecoveredSlots(logs0, logs, dirty, f, d0, replayer.disk, replayer.used, n)
      {
        assert SlotReadyAt(logs0, dirty, f, d0, n) && FinalSeqAt(logs0, dirty, f, d0, finals, n);
        RecoverSlot(n, finals[n], logs0, d0);
        n := n + 1;
      }
    }
  }

  /** The walk ends at a block that does not continue the log, and not at a bad tag or a lap. */
  ghost predicate ScanEnds(j: Log, f: Format, disk: Disk)
    requires FormatOk(f) && Usable(j, disk)
  {
    var t := Walk(j, f, disk);
    j.start == 0 || (t != [] && !Valid(t[|t|-1]))
  }

  ghost predicate ScanFailsAt(logs: seq<Log>, dirty: seq<bool>, f: Format, disk: Disk, n: nat, i: nat)
    requires FormatOk(f)
  {
    i < n && IsDirty(logs, dirty, i) && Usable(logs[i], disk) && !ScanEnds(logs[i], f, disk)
  }

  lemma ScanFailsStep(logs: seq<Log>, dirty: seq<bool>, f: Format, disk: Disk, n: nat, m: nat)
    requires FormatOk(f) && SlotsReady(logs, dirty, f, disk) && n < |logs| && m == n + 1
    ensures (exists i: nat :: ScanFailsAt(logs, dirty, f, disk, m, i))
       <==> (exists i: nat :: ScanFailsAt(logs, dirty, f, disk, n, i))
            || (dirty[n] && Usable(logs[n], disk) && !ScanEnds(logs[n], f, disk))
  {
    assert SlotReadyAt(logs, dirty, f, disk, n);
    if i: nat :| ScanFailsAt(logs, dirty, f, disk, n, i) {
      assert ScanFailsAt(logs, dirty, f, disk, m, i);
    }
    if i: nat :| ScanFailsAt(logs, dirty, f, disk, m, i) {
      assert i == n || ScanFailsAt(logs, dirty, f, disk, n, i);
    }
    if dirty[n] && !ScanEnds(logs[n], f, disk) {
      assert ScanFailsAt(logs, dirty, f, disk, m, n);
    }
  }

  lemma OnlySuperBlock(j: Log, used: set<nat>)
    requires 0 in j.blkno && used * j.blkno.Values == {}
    ensures (used + {j.blkno[0]}) * j.blkno.Values == {j.blkno[0]} * j.blkno.Values
  {
    forall x: nat
      ensures x in (used + {j.blkno[0]}) * j.blkno.Values <==> x in {j.blkno[0]} * j.blkno.Values
    {
      assert x !in used * j.blkno.Values;
    }
  }

  lemma FinalSeqStep(logs: seq<Log>, dirty: seq<bool>, f: Format, disk: Disk, finals: seq<nat>, finalSeq: nat)
    requires FormatOk(f) && |finals| < |logs| && forall i: nat :: FinalSeqAt(logs, dirty, f, disk, finals, i)
    requires IsDirty(logs, dirty, |finals|) && Usable(logs[|finals|], disk) && logs[|finals|].start != 0 ==>
               finalSeq == EndSeq(logs[|finals|], Walk(logs[|finals|], f, disk))
    ensures forall i: nat :: FinalSeqAt(logs, dirty, f, disk, finals + [finalSeq], i)
  {
    forall i: nat
      ensures FinalSeqAt(logs, dirty, f, disk, finals + [finalSeq], i)
    {
      assert FinalSeqAt(logs, dirty, f, disk, finals, i);
    }
  }

  /** Scanning a slot claims blocks of that slot only. */
  lemma SlotScanned(logs: seq<Log>, dirty: seq<bool>, f: Format, disk: Disk, used: set<nat>, used': set<nat>,
                    n: nat, m: nat)
    requires FormatOk(f) && SlotsReady(logs, dirty, f, disk) && n < |logs| && m == n + 1
    requires forall i: nat :: ClaimedSlotAt(logs, dirty, f, disk, used, n, i)
    requires dirty[n] ==> Usable(logs[n], disk) && used' == used + ScanClaims(logs[n], f, disk)
    requires !dirty[n] ==> used' == used
    ensures forall i: nat :: ClaimedSlotAt(logs, dirty, f, disk, used', m, i)
  {
    forall i: nat
      ensures ClaimedSlotAt(logs, dirty, f, disk, used', m, i)
    {
      assert ClaimedSlotAt(logs, dirty, f, disk, used, n, i);
      if dirty[n] && IsDirty(logs, dirty, i) && Usable(logs[i], disk) {
        ClaimsInside(logs[n], f, disk);
        if i == n {
          ClaimOwn(used, ScanClaims(logs[n], f, disk), logs[n].blkno.Values);
        } else {
          assert SlotsApartAt(logs, dirty, f, disk, n, i);
          ClaimElsewhere(used, ScanClaims(logs[n], f, disk), logs[n].blkno.Values, logs[i].blkno.Values);
        }
      }
    }
  }

  lemma ClaimsInside(j: Log, f: Format, disk: Disk)
    requires FormatOk(f) && Usable(j, disk)
    ensures ScanClaims(j, f, disk) <= j.blkno.Values
  {
  }

  lemma ClaimOwn(used: set<nat>, claims: set<nat>, values: set<nat>)
    requires used * values == {} && claims <= values
    ensures (used + claims) * values == claims
  {
    forall x: nat
      ensures x in (used + claims) * values <==> x in claims
    {
      assert x !in used * values;
    }
  }

  lemma ClaimElsewhere(used: set<nat>, claims: set<nat>, values: set<nat>, others: set<nat>)
    requires claims <= values && values !! others
    ensures (used + claims) * others == used * others
  {
  }

  /** After the logs of `n` slots have been written back. */
  ghost predicate RecoveredSlots(logs0: seq<Log>, logs: seq<Log>, dirty: seq<bool>, f: Format, d0: Disk,
                                 disk: Disk, used: set<nat>, n: nat)
    requires FormatOk(f)
  {
    && SlotsReady(logs0, dirty, f, d0) && n <= |logs0| == |logs|
    && disk == Apply(d0, AllWrites(logs0, dirty, f, d0, n))
    && (forall i: nat :: SameLogAt(logs0, dirty, d0, disk, i))
    && (forall i: nat :: UnrecoveredAt(logs0, dirty, f, d0, used, n, i))
    && (forall i: nat :: ResetAt(logs0, logs, dirty, f, d0, n, i))
  }

  lemma RecoveredNoSlot(logs: seq<Log>, dirty: seq<bool>, f: Format, disk: Disk, used: set<nat>)
    requires FormatOk(f) && SlotsReady(logs, dirty, f, disk)
    requires forall i: nat :: ClaimedSlotAt(logs, dirty, f, disk, used, |logs|, i)
    ensures RecoveredSlots(logs, logs, dirty, f, disk, disk, used, 0)
  {
    forall i: nat
      ensures SameLogAt(logs, dirty, disk, disk, i) && UnrecoveredAt(logs, dirty, f, disk, used, 0, i)
      ensures ResetAt(logs, logs, dirty, f, disk, 0, i)
    {
      assert SlotReadyAt(logs, dirty, f, disk, i) && ClaimedSlotAt(logs, dirty, f, disk, used, |logs|, i);
    }
  }

  lemma LogReadySame(j: Log, f: Format, d: Disk, d': Disk, t: seq<Probe>)
    requires FormatOk(f) && LogReady(j, f, d, t) && SameLog(j, d, d')
    ensures LogReady(j, f, d', t)
  {
    forall k: nat
      ensures FromLogAt(j, d', t, k)
    {
      assert FromLogAt(j, d, t, k);
    }
  }

  lemma {:induction false} LogWritesSame(j: Log, f: Format, d: Disk, d': Disk, t: seq<Probe>)
    requires FormatOk(f) && RingOk(j) && SameLog(j, d, d')
    ensures LogWrites(j, f, d', t) == LogWrites(j, f, d, t)
  {
    if t != [] {
      LogWritesSame(j, f, d, d', t[..|t|-1]);
      EntryWritesSame(j, f, d, d', t[|t|-1]);
    }
  }

  lemma EntryWritesSame(j: Log, f: Format, d: Disk, d': Disk, p: Probe)
    requires FormatOk(f) && RingOk(j) && SameLog(j, d, d')
    ensures EntryWrites(j, f, d', p) == EntryWrites(j, f, d, p)
  {
    if IsDescriptor(p) {
      var ts := Tags(f, p.block);
      TagWritesSame(j, d, d', DataPos(j, Jwrap(j, p.pos + 1), |ts|), ts);
    }
  }

  /** What earlier slots wrote did not touch this slot's journal. */
  lemma SlotStillReady(logs: seq<Log>, dirty: seq<bool>, f: Format, d0: Disk, disk: Disk, used: set<nat>, n: nat)
    requires FormatOk(f) && SlotsReady(logs, dirty, f, d0) && IsDirty(logs, dirty, n) && logs[n].start != 0
    requires SameLogAt(logs, dirty, d0, disk, n) && UnrecoveredAt(logs, dirty, f, d0, used, n, n)
    ensures Usable(logs[n], d0) && LogReady(logs[n], f, disk, Walk(logs[n], f, d0))
    ensures Unclaimed(logs[n], f, used, Walk(logs[n], f, d0))
  {
    assert SlotReadyAt(logs, dirty, f, d0, n);
    WalkIsReady(logs[n], f, d0);
    LogReadySame(logs[n], f, d0, disk, Walk(logs[n], f, d0));
    ScanLeavesData(logs[n], f, d0, used);
  }

  /** One slot has been written back. */
  ghost predicate SlotDone(j: Log, f: Format, d0: Disk, disk: Disk, used: set<nat>, disk': Disk, used': set<nat>)
    requires FormatOk(f)
  {
    && Usable(j, d0)
    && disk' == Apply(disk, SlotWrites(j, f, d0))
    && used <= used' <= used + j.blkno.Values
  }

  lemma SlotRecovered(j: Log, f: Format, d0: Disk, disk: Disk, used: set<nat>, disk': Disk, used': set<nat>)
    requires FormatOk(f) && Usable(j, d0) && SameLog(j, d0, disk)
    requires j.start != 0 ==> Recovered(j, f, Walk(j, f, d0), disk, used, disk', used')
    requires j.start == 0 ==> disk' == disk && used' == used
    ensures SlotDone(j, f, d0, disk, used, disk', used')
  {
    var t := Walk(j, f, d0);
    LogWritesSame(j, f, d0, disk, t[..CommittedLen(t)]);
  }

  lemma RecoveredStep(logs0: seq<Log>, logs: seq<Log>, logs': seq<Log>, dirty: seq<bool>, f: Format, d0: Disk,
                      disk: Disk, used: set<nat>, disk': Disk, used': set<nat>, n: nat)
    requires FormatOk(f) && RecoveredSlots(logs0, logs, dirty, f, d0, disk, used, n) && n < |logs0|
    requires dirty[n] ==> SlotDone(logs0[n], f, d0, disk, used, disk', used')
    requires dirty[n] ==> logs' == logs[n := ResetLog(logs0[n], f, d0)]
    requires !dirty[n] ==> disk' == disk && used' == used && logs' == logs
    ensures RecoveredSlots(logs0, logs', dirty, f, d0, disk', used', n + 1)
  {
    var m := n + 1;
    WritesStep(logs0, dirty, f, d0, disk, disk', n);
    forall i: nat
      ensures SameLogAt(logs0, dirty, d0, disk', i)
    {
      assert SameLogAt(logs0, dirty, d0, disk, i) && SlotsApartAt(logs0, dirty, f, d0, n, i);
      if dirty[n] && IsDirty(logs0, dirty, i) {
        StillSameLog(logs0[i], d0, disk, SlotWrites(logs0[n], f, d0));
      }
    }
    forall i: nat
      ensures UnrecoveredAt(logs0, dirty, f, d0, used', m, i)
    {
      assert UnrecoveredAt(logs0, dirty, f, d0, used, n, i) && SlotsApartAt(logs0, dirty, f, d0, n, i);
      if dirty[n] && n < i && IsDirty(logs0, dirty, i) && Usable(logs0[i], d0) {
        ClaimElsewhere(used, used' - used, logs0[n].blkno.Values, logs0[i].blkno.Values);
        assert used + (used' - used) == used';
      }
    }
    forall i: nat
      ensures ResetAt(logs0, logs', dirty, f, d0, m, i)
    {
      assert ResetAt(logs0, logs, dirty, f, d0, n, i);
    }
  }

  lemma WritesStep(logs: seq<Log>, dirty: seq<bool>, f: Format, d0: Disk, disk: Disk, disk': Disk, n: nat)
    requires FormatOk(f) && SlotsReady(logs, dirty, f, d0) && n < |logs|
    requires disk == Apply(d0, AllWrites(logs, dirty, f, d0, n))
    requires dirty[n] ==> Usable(logs[n], d0) && disk' == Apply(disk, SlotWrites(logs[n], f, d0))
    requires !dirty[n] ==> disk' == disk
    ensures disk' == Apply(d0, AllWrites(logs, dirty, f, d0, n + 1))
  {
    var ws := AllWrites(logs, dirty, f, d0, n);
    if dirty[n] {
      ApplyConcat(d0, ws, SlotWrites(logs[n], f, d0));
    } else {
      assert ws + [] == ws;
    }
  }

  lemma StillSameLog(j: Log, d0: Disk, disk: Disk, ws: seq<Write>)
    requires SameLog(j, d0, disk) && WritesOutside(ws, j)
    ensures SameLog(j, d0, Apply(disk, ws))
  {
    forall b | b in j.blkno.Values
      ensures b in d0 && b in Apply(disk, ws) && Apply(disk, ws)[b] == d0[b]
    {
      ApplyElsewhere(disk, ws, b);
    }
  }

  lemma {:induction false} ApplyKeeps(disk: Disk, ws: seq<Write>)
    ensures disk.Keys <= Apply(disk, ws).Keys
  {
    if ws != [] {
      ApplyKeeps(disk, ws[..|ws|-1]);
    }
  }

  /** A second replay, which starts from what the first one left, writes nothing. */
  lemma SecondReplayWritesNothing(logs: seq<Log>, logs': seq<Log>, dirty: seq<bool>, f: Format, d0: Disk, disk: Disk)
    requires FormatOk(f) && SlotsReady(logs, dirty, f, d0) && |logs'| == |logs|
    requires disk == Apply(d0, AllWrites(logs, dirty, f, d0, |logs|))
    requires forall i: nat :: ResetAt(logs, logs', dirty, f, d0, |logs|, i)
    ensures SlotsReady(logs', dirty, f, disk)
    ensures AllWrites(logs', dirty, f, disk, |logs'|) == []
    ensures forall i | 0 <= i < |logs'| && dirty[i] ::
              Usable(logs'[i], disk) && ResetLog(logs'[i], f, disk) == logs'[i]
  {
    ApplyKeeps(d0, AllWrites(logs, dirty, f, d0, |logs|));
    forall i: nat
      ensures SlotReadyAt(logs', dirty, f, disk, i)
      ensures IsDirty(logs', dirty, i) ==> logs'[i].start == 0 && Usable(logs'[i], disk)
    {
      assert SlotReadyAt(logs, dirty, f, d0, i) && ResetAt(logs, logs', dirty, f, d0, |logs|, i);
    }
    forall i: nat, k: nat
      ensures SlotsApartAt(logs', dirty, f, disk, i, k)
    {
      assert SlotsApartAt(logs, dirty, f, d0, i, k);
      assert SlotReadyAt(logs, dirty, f, d0, i) && ResetAt(logs, logs', dirty, f, d0, |logs|, i);
      assert SlotReadyAt(logs, dirty, f, d0, k) && ResetAt(logs, logs', dirty, f, d0, |logs|, k);
    }
    NoLogsNoWrites(logs', dirty, f, disk, |logs'|);
  }

  lemma {:induction false} NoLogsNoWrites(logs: seq<Log>, dirty: seq<bool>, f: Format, disk: Disk, n: nat)
    requires FormatOk(f) && SlotsReady(logs, dirty, f, disk) && n <= |logs|
    requires forall i | 0 <= i < |logs| && dirty[i] :: logs[i].start == 0
    ensures AllWrites(logs, dirty, f, disk, n) == []
  {
    if n > 0 {
      NoLogsNoWrites(logs, dirty, f, disk, n - 1);
      assert SlotReadyAt(logs, dirty, f, disk, n - 1);
    }
  }

  lemma SeqApart(j: Log, m: nat, n: nat)
    requires m < n < m + UINT32_RANGE
    ensures SeqAfter(j, m) != SeqAfter(j, n)
  {
    var x, y := j.sequence + m, j.sequence + n;
    assert x == x / UINT32_RANGE * UINT32_RANGE + x % UINT32_RANGE;
    assert y == y / UINT32_RANGE * UINT32_RANGE + y % UINT32_RANGE;
  }

  lemma {:induction false} CommitsGrow(t: seq<Probe>, k: nat)
    requires k <= |t|
    ensures Commits(t[..k]) <= Commits(t)
  {
    if k < |t| {
      CommitsGrow(t[..|t|-1], k);
      assert t[..|t|-1][..k] == t[..k];
    } else {
      assert t[..k] == t;
    }
  }

  /** The number that a replayed log is given is two after that of the last finished transaction. */
  lemma ResetFollows(j: Log, f: Format, disk: Disk, t: seq<Probe>, n: nat)
    requires FormatOk(f) && Usable(j, disk) && j.start != 0 && t == Walk(j, f, disk) && Commits(t) == n
    ensures ResetLog(j, f, disk) == j.(start := 0, sequence := SeqAfter(j, n + 1))
  {
    SeqAfterStep(j, n);
  }

  /** The number that a replayed log is given is carried by none of its blocks, even of an unfinished transaction. */
  lemma ResetIsFresh(j: Log, f: Format, disk: Disk, k: nat)
    requires FormatOk(f) && SlotReady(j, f, disk) && j.start != 0
    requires k < |Walk(j, f, disk)| && Valid(Walk(j, f, disk)[k])
    ensures Walk(j, f, disk)[k].block.sequence != ResetLog(j, f, disk).sequence
  {
    WalkIsReady(j, f, disk);
    var t := Walk(j, f, disk);
    WalkSeq(j, f, disk, t, k);
    CommitsGrow(t, k);
    SeqAfterStep(j, Commits(t));
    SeqApart(j, Commits(t[..k]), Commits(t) + 1);
  }
}
