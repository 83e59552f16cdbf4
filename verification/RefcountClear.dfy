/**
 What clearing a range of a refcount tree comes to when the tree holds records with a count of zero
 (libocfs2/refcount.c, fsck.ocfs2/refcount.c).  Such a record is stepped over by its whole length, also from
 the middle, and a step over the end of the range makes the remaining length wrap.
 */
module RefcountClear {
  import opened Common
  import opened RefcountRecords

  /** The position lies strictly inside a record with a count of zero. */
  ghost predicate Inside(r: Rec, p: nat) { r.refcount == 0 && r.cpos < p < r.End() }

  ghost predicate CutAt(rs: seq<Rec>, p: nat) { exists r | r in rs :: Inside(r, p) }

  /** The record has no cluster in the range. */
  ghost predicate Apart(r: Rec, lo: nat, hi: nat) {
    r.clusters == 0 || hi <= lo || r.End() <= lo || hi <= r.cpos
  }

  ghost predicate ZerosApart(rs: seq<Rec>, lo: nat, hi: nat) {
    forall r | r in rs && r.refcount == 0 :: Apart(r, lo, hi)
  }

  /** Where steps that start inside records with a count of zero come out of them, or meet the end. */
  ghost function Landing(rs: seq<Rec>, p: nat, end: nat): nat
    requires Low(rs)
    decreases if p < UINT32_RANGE then UINT32_RANGE - p else 0
  {
    if p != end && CutAt(rs, p) then
      var r :| r in rs && Inside(r, p);
      Landing(rs, p + r.clusters, end)
    else p
  }

  /**
   The clusters that a clearing of `[start, end)` clears.  It begins where it lands; having missed the end, or
   having stepped over it, it goes on behind all records.
   */
  ghost predicate Cleared(rs: seq<Rec>, start: nat, end: nat, c: nat)
    requires Low(rs)
  {
    var from := Landing(rs, start, end);
    from != end && from <= c && (c < end || from > end || CutAt(rs, end))
  }

  /** Unless the range cuts a record with a count of zero, it is cleared and nothing else. */
  lemma PlainClearing(rs: seq<Rec>, start: nat, end: nat, c: nat)
    requires Low(rs) && start <= end && !CutAt(rs, start) && !CutAt(rs, end)
    ensures Cleared(rs, start, end, c) <==> start <= c < end
  {
  }

  lemma CoverUnique(rs: seq<Rec>, r: Rec, s: Rec, c: nat)
    requires WellFormed(rs) && r in rs && s in rs && r.Covers(c) && s.Covers(c)
    ensures r == s
  {
    var i :| 0 <= i < |rs| && rs[i] == r;
    var j :| 0 <= j < |rs| && rs[j] == s;
    assert i < j ==> Before(rs[i], rs[j]);
    assert j < i ==> Before(rs[j], rs[i]);
  }

  lemma LandingJump(rs: seq<Rec>, r: Rec, p: nat, end: nat)
    requires Stored(rs) && r in rs && Inside(r, p) && p != end
    ensures Landing(rs, p, end) == Landing(rs, p + r.clusters, end)
  {
    forall s | s in rs && Inside(s, p)
      ensures s == r
    {
      CoverUnique(rs, r, s, p);
    }
  }

  lemma {:induction false} LandingAbove(rs: seq<Rec>, p: nat, end: nat)
    requires Low(rs)
    ensures Landing(rs, p, end) >= p
    decreases if p < UINT32_RANGE then UINT32_RANGE - p else 0
  {
    if p != end && CutAt(rs, p) {
      var r :| r in rs && Inside(r, p) && Landing(rs, p, end) == Landing(rs, p + r.clusters, end);
      LandingAbove(rs, p + r.clusters, end);
    }
  }

  lemma CutSame(rs: seq<Rec>, rs': seq<Rec>, p: nat)
    requires SameZeros(rs, rs')
    ensures CutAt(rs, p) <==> CutAt(rs', p)
  {
  }

  lemma {:induction false} LandingSame(rs: seq<Rec>, rs': seq<Rec>, p: nat, end: nat)
    requires Stored(rs) && Stored(rs') && SameZeros(rs, rs')
    ensures Landing(rs', p, end) == Landing(rs, p, end)
    decreases if p < UINT32_RANGE then UINT32_RANGE - p else 0
  {
    CutSame(rs, rs', p);
    if p != end && CutAt(rs, p) {
      var r :| r in rs && Inside(r, p);
      LandingJump(rs, r, p, end);
      LandingJump(rs', r, p, end);
      LandingSame(rs, rs', p + r.clusters, end);
    }
  }

  /** What is cleared depends on the records with a count of zero only. */
  lemma ClearedSame(rs: seq<Rec>, rs': seq<Rec>, start: nat, end: nat, c: nat)
    requires Stored(rs) && Stored(rs') && SameZeros(rs, rs')
    ensures Cleared(rs', start, end, c) <==> Cleared(rs, start, end, c)
  {
    LandingSame(rs, rs', start, end);
    CutSame(rs, rs', end);
  }

  // ---- steps of a clearing ------------------------------------------------------------------

  /** The count that a clearing which has come to `p` will leave. */
  ghost function Final(rs: seq<Rec>, p: nat, end: nat, c: nat): nat
    requires Low(rs)
  {
    if Cleared(rs, p, end, c) then 0 else CountAt(rs, c)
  }

  ghost predicate SameFinalAt(rs: seq<Rec>, p: nat, rs': seq<Rec>, p': nat, end: nat, c: nat)
    requires Low(rs) && Low(rs')
  {
    Final(rs', p', end, c) == Final(rs, p, end, c)
  }

  /** A step from one state to the next leaves the outcome as it is. */
  ghost predicate SameFinal(rs: seq<Rec>, p: nat, rs': seq<Rec>, p': nat, end: nat) {
    && Stored(rs) && Stored(rs') && SameZeros(rs, rs')
    && forall c: nat :: SameFinalAt(rs, p, rs', p', end, c)
  }

  lemma SameFinalThen(a: seq<Rec>, p: nat, b: seq<Rec>, q: nat, d: seq<Rec>, r: nat, end: nat)
    requires SameFinal(a, p, b, q, end) && SameFinal(b, q, d, r, end)
    ensures SameFinal(a, p, d, r, end)
  {
    forall c: nat
      ensures SameFinalAt(a, p, d, r, end, c)
    {
      assert SameFinalAt(a, p, b, q, end, c) && SameFinalAt(b, q, d, r, end, c);
    }
  }

  /** Clearing a stretch between two positions that cut nothing; it may lead over the end only if the end is cut. */
  lemma Advance(rs: seq<Rec>, rs': seq<Rec>, p: nat, p': nat, end: nat)
    requires Stored(rs) && Stored(rs') && SameZeros(rs, rs') && p <= p' && p != end
    requires !CutAt(rs, p) && !CutAt(rs, p') && (p < end < p' ==> CutAt(rs, end))
    requires forall c: nat :: CountAt(rs', c) == if p <= c < p' then 0 else CountAt(rs, c)
    ensures SameFinal(rs, p, rs', p', end)
  {
    CutSame(rs, rs', p');
    CutSame(rs, rs', end);
    forall c: nat
      ensures SameFinalAt(rs, p, rs', p', end, c)
    {
    }
  }

  /** A step over a record from the middle. */
  lemma Jump(rs: seq<Rec>, r: Rec, p: nat, end: nat)
    requires Stored(rs) && r in rs && Inside(r, p) && p != end
    ensures SameFinal(rs, p, rs, p + r.clusters, end)
  {
    LandingJump(rs, r, p, end);
    var p' := p + r.clusters;
    assert forall c: nat :: SameFinalAt(rs, p, rs, p', end, c);
  }

  lemma NoCountAbove(rs: seq<Rec>, c: nat)
    requires Low(rs) && c + 1 >= UINT32_RANGE
    ensures CountAt(rs, c) == 0
  {
    forall i | 0 <= i < |rs|
      ensures !rs[i].Covers(c)
    {
      assert rs[i] in rs;
    }
    CountAtUncovered(rs, c);
  }

  /** Behind all records there is nothing left to do. */
  lemma NothingAbove(rs: seq<Rec>, p: nat, p': nat, end: nat)
    requires Stored(rs) && p + 1 >= UINT32_RANGE && p != end && p' == end
    ensures SameFinal(rs, p, rs, p', end)
  {
    forall c: nat
      ensures SameFinalAt(rs, p, rs, p', end, c)
    {
      if c >= p {
        NoCountAbove(rs, c);
      }
    }
  }

  lemma DoneClearing(was: seq<Rec>, start: nat, rs: seq<Rec>, p: nat, end: nat)
    requires SameFinal(was, start, rs, p, end) && (p == end || p + 1 >= UINT32_RANGE)
    ensures forall c: nat :: CountAt(rs, c) == if Cleared(was, start, end, c) then 0 else CountAt(was, c)
  {
    forall c: nat
      ensures CountAt(rs, c) == if Cleared(was, start, end, c) then 0 else CountAt(was, c)
    {
      assert SameFinalAt(was, start, rs, p, end, c);
      if c + 1 >= UINT32_RANGE {
        NoCountAbove(rs, c);
      }
    }
  }

  // ---- answers ------------------------------------------------------------------------------

  /** Every other record lies beside an answer. */
  lemma AnswerOrBeside(rs: seq<Rec>, lo: nat, len: nat, rec: Rec, index: nat, r: Rec)
    requires WellFormed(rs) && (Real(rs, lo, rec, index) || Faked(rs, lo, len, rec, index)) && r in rs
    ensures (r == rec && Real(rs, lo, rec, index)) || r.End() <= lo || rec.End() <= r.cpos
  {
    if Faked(rs, lo, len, rec, index) {
      FakedUncovered(rs, lo, len, rec, index);
    } else {
      var k :| 0 <= k < |rs| && rs[k] == r;
      assert k < index ==> Before(rs[k], rs[index]);
      assert index < k ==> Before(rs[index], rs[k]);
    }
  }

  /** Neither end of an answer is cut, nor a place inside one that counts something. */
  lemma AnswerCutsNothing(rs: seq<Rec>, p: nat, len: nat, rec: Rec, index: nat, q: nat)
    requires WellFormed(rs) && (Real(rs, p, rec, index) || Faked(rs, p, len, rec, index)) && p <= q <= rec.End()
    requires Real(rs, p, rec, index) && rec.refcount == 0 ==> q == rec.End() || q == rec.cpos
    ensures !CutAt(rs, q)
  {
    if r :| r in rs && Inside(r, q) {
      AnswerOrBeside(rs, p, len, rec, index, r);
      BesideBefore(rs, p, len, rec, index, r);
      assert false;
    }
  }

  lemma BesideBefore(rs: seq<Rec>, p: nat, len: nat, rec: Rec, index: nat, r: Rec)
    requires WellFormed(rs) && (Real(rs, p, rec, index) || Faked(rs, p, len, rec, index)) && r in rs
    ensures Real(rs, p, rec, index) && r != rec ==> r.End() <= rec.cpos || rec.End() <= r.cpos
  {
    if Real(rs, p, rec, index) && r != rec {
      var k :| 0 <= k < |rs| && rs[k] == r;
      assert k < index ==> Before(rs[k], rs[index]);
      assert index < k ==> Before(rs[index], rs[k]);
    }
  }
}
