/**
 The step of pass 1 that makes the global cluster bitmap agree with the clusters that were found in
 use (fsck.ocfs2/pass1.c).  Two cursors run over the two bitmaps; the operator may refuse any change.
 */
module ClusterBitmap {

  type Bitmap = seq<bool>

  /** The operator's answer to setting (`true`) or clearing (`false`) the bit of a cluster. */
  type Answers = (nat, bool) -> bool

  ghost predicate ClearFrom(b: Bitmap, from: nat, to: nat) {
    forall c | from <= c < to && c < |b| :: !b[c]
  }

  /** The first set bit at or after `start`; past the end of the bitmap when there is none. */
  method FindNextSet(b: Bitmap, start: nat) returns (found: bool, bit: nat)
    ensures found ==> start <= bit < |b| && b[bit] && ClearFrom(b, start, bit)
    ensures !found ==> ClearFrom(b, start, |b|)
  {
    found, bit := false, start;
    while bit < |b|
      invariant start <= bit && ClearFrom(b, start, bit)
    {
      if b[bit] {
        return true, bit;
      }
      bit := bit + 1;
    }
  }

  method BitInBackupSuper(bit: nat, clusters: seq<nat>) returns (r: bool)
    ensures r <==> bit in clusters
  {
    for i := 0 to |clusters|
      invariant bit !in clusters[..i]
    {
      if bit == clusters[i] {
        return true;
      }
    }
    return false;
  }

  /** What a cluster's bit should be: in use, or a backup super block that is marked already. */
  predicate Wanted(found: bool, backup: bool, was: bool) { found || (backup && was) }

  /** The bit that the merge leaves: the wanted one, unless it differs and the operator refused. */
  predicate Merged(answer: Answers, c: nat, found: bool, backup: bool, was: bool) {
    var want := Wanted(found, backup, was);
    if want == was || answer(c, want) then want else was
  }

  ghost predicate MergedAt(answer: Answers, found: Bitmap, backups: seq<nat>, was: Bitmap, now: Bitmap, c: nat) {
    c < |found| && c < |was| && c < |now| ==> now[c] == Merged(answer, c, found[c], c in backups, was[c])
  }

  ghost predicate SameAt(was: Bitmap, now: Bitmap, c: nat) {
    c < |was| && c < |now| ==> now[c] == was[c]
  }

  /** The bits below `to` are merged, the others untouched. */
  ghost predicate MergedTo(answer: Answers, found: Bitmap, backups: seq<nat>, was: Bitmap, now: Bitmap, to: nat) {
    && |now| == |was|
    && (forall c: nat :: c < to ==> MergedAt(answer, found, backups, was, now, c))
    && (forall c: nat :: to <= c ==> SameAt(was, now, c))
  }

  class GlobalBitmap {
    /** The bits of the global bitmap, as its chain of groups holds them. */
    var chains: Bitmap
    const found: Bitmap
    const backups: seq<nat>
    const answer: Answers

    constructor (chains: Bitmap, found: Bitmap, backups: seq<nat>, answer: Answers)
      ensures this.chains == chains && this.found == found && this.backups == backups && this.answer == answer
    {
      this.chains, this.found, this.backups, this.answer := chains, found, backups, answer;
    }

    method ForceClusterBit(bit: nat, val: bool)
      requires bit < |chains|
      modifies this
      ensures chains == if answer(bit, val) then old(chains)[bit := val] else old(chains)
    {
      if answer(bit, val) {
        chains := chains[bit := val];
      }
    }

    /** Clears the bits from `from` up to `cbit`, all of which are not in use. */
    method ClearTo(from: nat, cbit: nat, ghost was: Bitmap) returns (next: nat)
      requires from <= cbit <= |found| <= |chains|
      requires ClearFrom(found, from, cbit) && MergedTo(answer, found, backups, was, chains, from)
      modifies this
      ensures MergedTo(answer, found, backups, was, chains, cbit)
      ensures cbit <= next
      ensures cbit < |found| ==> (next == cbit <==> chains[cbit])
    {
      next := NextInChains(from);
      QuietStretch(answer, found, backups, was, chains, from, next, cbit);
      while next < cbit
        invariant from <= next
        invariant |found| <= |chains|
        invariant MergedTo(answer, found, backups, was, chains, if next < cbit then next else cbit)
        invariant next < cbit ==> chains[next]
        invariant cbit <= next && cbit < |found| ==> (next == cbit <==> chains[cbit])
        decreases cbit - next
      {
        assert SameAt(was, chains, next);
        ghost var before := chains;
        var backup := BitInBackupSuper(next, backups);
        if !backup {
          ForceClusterBit(next, false);
        }
        OneMore(answer, found, backups, was, before, chains, next);
        ghost var after := next + 1;
        next := NextInChains(next + 1);
        QuietStretch(answer, found, backups, was, chains, after, next, cbit);
      }
    }

    /** The next set bit of the global bitmap, or the number of clusters. */
    method NextInChains(start: nat) returns (bit: nat)
      requires start <= |found| <= |chains|
      ensures start <= bit && ClearFrom(chains, start, if bit < |found| then bit else |found|)
      ensures bit < |found| ==> chains[bit]
    {
      var isSet;
      isSet, bit := FindNextSet(chains, start);
      if !isSet {
        bit := |found|;
      }
    }

    /** Makes the global bitmap agree with the clusters found in use. */
    method WriteClusterAlloc()
      requires |found| <= |chains|
      modifies this
      ensures MergedTo(answer, found, backups, old(chains), chains, |found|)
    {
      var lastCbit, cbit := 0, 0;
      while cbit < |found|
        invariant lastCbit == cbit && |found| <= |chains|
        invariant MergedTo(answer, found, backups, old(chains), chains, if cbit < |found| then cbit else |found|)
      {
        var isSet;
        isSet, cbit := FindNextSet(found, cbit);
        if !isSet {
          cbit := |found|;
        }
        var cbitFound := ClearTo(lastCbit, cbit, old(chains));
        ghost var before := chains;
        if cbitFound != cbit && cbit != |found| {
          ForceClusterBit(cbit, true);
        }
        if cbit < |found| {
          OneMore(answer, found, backups, old(chains), before, chains, cbit);
        }
        cbit := cbit + 1;
        lastCbit := cbit;
      }
    }
  }

  /** A stretch without bits in either bitmap is merged as it is. */
  lemma QuietStretch(answer: Answers, found: Bitmap, backups: seq<nat>, was: Bitmap, now: Bitmap, from: nat, next: nat,
                     cbit: nat)
    requires from <= cbit <= |found| <= |now| && from <= next
    requires ClearFrom(found, from, cbit) && MergedTo(answer, found, backups, was, now, from)
    requires ClearFrom(now, from, if next < |found| then next else |found|)
    ensures MergedTo(answer, found, backups, was, now, if next < cbit then next else cbit)
  {
    var to := if next < cbit then next else cbit;
    forall c: nat | c < to
      ensures MergedAt(answer, found, backups, was, now, c)
    {
      if from <= c {
        assert SameAt(was, now, c);
      }
    }
  }

  lemma OneMore(answer: Answers, found: Bitmap, backups: seq<nat>, was: Bitmap, before: Bitmap, now: Bitmap, c: nat)
    requires c < |found| && c < |before| && |now| == |before| && MergedTo(answer, found, backups, was, before, c)
    requires forall b: nat :: b != c ==> SameAt(before, now, b)
    requires now[c] == Merged(answer, c, found[c], c in backups, before[c])
    ensures MergedTo(answer, found, backups, was, now, c + 1)
  {
    assert SameAt(was, before, c);
    forall b: nat
      ensures b < c + 1 ==> MergedAt(answer, found, backups, was, now, b)
      ensures c + 1 <= b ==> SameAt(was, now, b)
    {
      assert b < c ==> MergedAt(answer, found, backups, was, before, b);
      assert b != c ==> SameAt(before, now, b);
      assert c <= b ==> SameAt(was, before, b);
    }
  }

  /** With every change accepted the bitmap is the clusters in use and the backups marked before. */
  lemma AcceptedMerge(answer: Answers, found: Bitmap, backups: seq<nat>, was: Bitmap, now: Bitmap)
    requires |found| <= |was| && MergedTo(answer, found, backups, was, now, |found|)
    requires forall c: nat, val: bool :: answer(c, val)
    ensures forall c | 0 <= c < |found| :: now[c] <==> found[c] || (c in backups && was[c])
    ensures forall c | |found| <= c < |was| :: now[c] == was[c]
  {
    forall c: nat | c < |was|
      ensures c < |found| ==> (now[c] <==> found[c] || (c in backups && was[c]))
      ensures |found| <= c ==> now[c] == was[c]
    {
      assert c < |found| ==> MergedAt(answer, found, backups, was, now, c);
      assert |found| <= c ==> SameAt(was, now, c);
    }
  }

  /** Merging again asks for nothing that was accepted: an accepted bitmap stays as it is. */
  lemma MergeSettles(answer: Answers, found: Bitmap, backups: seq<nat>, was: Bitmap, now: Bitmap, again: Bitmap,
                     other: Answers)
    requires |found| <= |was| && MergedTo(answer, found, backups, was, now, |found|)
    requires forall c: nat, val: bool :: answer(c, val)
    requires MergedTo(other, found, backups, now, again, |found|)
    ensures again == now
  {
    forall c: nat | c < |was|
      ensures again[c] == now[c]
    {
      assert c < |found| ==> MergedAt(answer, found, backups, was, now, c);
      assert c < |found| ==> MergedAt(other, found, backups, now, again, c);
      assert |found| <= c ==> SameAt(now, again, c);
    }
  }

  /** A bit changes only with the operator's consent, and stays wrong only if consent was refused. */
  lemma OperatorHeeded(answer: Answers, found: Bitmap, backups: seq<nat>, was: Bitmap, now: Bitmap, c: nat)
    requires |found| <= |was| && MergedTo(answer, found, backups, was, now, |found|) && c < |found|
    ensures now[c] == was[c] || answer(c, now[c])
    ensures var right := found[c] || (c in backups && was[c]); now[c] == right || !answer(c, right)
  {
    assert MergedAt(answer, found, backups, was, now, c);
  }
}
