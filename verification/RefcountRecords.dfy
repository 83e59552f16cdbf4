/**
 The refcount record list of libocfs2/refcount.c.  A refcount tree stores how many files share
 each physical cluster as an ordered list of records; a cluster without a record has count zero.
 Every edit of the list is proved to be a plain update of the cluster-to-count map it stands for.
 */
module RefcountRecords {
  import opened Common

  datatype Rec = Rec(cpos: nat, clusters: nat, refcount: nat) {
    function End(): nat { cpos + clusters }
    predicate Covers(c: nat) { cpos <= c < cpos + clusters }
  }

  /** The count that one record contributes to cluster `c`. */
  ghost function CountIn(r: Rec, c: nat): nat { if r.Covers(c) then r.refcount else 0 }

  /** The meaning of a record list: the reference count of cluster `c`. */
  ghost function CountAt(rs: seq<Rec>, c: nat): nat {
    if rs == [] then 0 else CountIn(rs[0], c) + CountAt(rs[1..], c)
  }

  predicate Before(a: Rec, b: Rec) { a.End() <= b.cpos }

  /** Records ascend and do not overlap; they may be empty or carry a count of zero. */
  ghost predicate WellFormed(rs: seq<Rec>) {
    forall i, j {:trigger Before(rs[i], rs[j])} | 0 <= i < j < |rs| :: Before(rs[i], rs[j])
  }

  /** No record ends beyond 32 bits, as on any volume, which has a 32-bit number of clusters. */
  ghost predicate Low(rs: seq<Rec>) { forall r | r in rs :: r.End() < UINT32_RANGE }

  ghost predicate Stored(rs: seq<Rec>) { WellFormed(rs) && Low(rs) }

  /** Both lists have the same records with a count of zero. */
  ghost predicate SameZeros(rs: seq<Rec>, rs': seq<Rec>) {
    forall r: Rec | r.refcount == 0 :: r in rs <==> r in rs'
  }

  lemma {:induction false} CountAtConcat(a: seq<Rec>, b: seq<Rec>, c: nat)
    ensures CountAt(a + b, c) == CountAt(a, c) + CountAt(b, c)
  {
    if a == [] {
      assert a + b == b;
    } else {
      assert (a + b)[0] == a[0] && (a + b)[1..] == a[1..] + b;
      CountAtConcat(a[1..], b, c);
    }
  }

  /** Replacing a stretch of the list changes the count by the difference of the stretches. */
  lemma CountAtReplace(a: seq<Rec>, x: seq<Rec>, y: seq<Rec>, b: seq<Rec>, c: nat)
    ensures CountAt(a + y + b, c) + CountAt(x, c) == CountAt(a + x + b, c) + CountAt(y, c)
  {
    CountAtConcat(a + x, b, c);
    CountAtConcat(a, x, c);
    CountAtConcat(a + y, b, c);
    CountAtConcat(a, y, c);
  }

  lemma {:induction false} CountAtUncovered(rs: seq<Rec>, c: nat)
    requires forall i | 0 <= i < |rs| :: !rs[i].Covers(c)
    ensures CountAt(rs, c) == 0
  {
    if rs != [] {
      CountAtUncovered(rs[1..], c);
    }
  }

  /** In a well-formed list the record that covers a cluster alone determines its count. */
  lemma CountAtCovered(rs: seq<Rec>, i: nat, c: nat)
    requires WellFormed(rs) && i < |rs| && rs[i].Covers(c)
    ensures CountAt(rs, c) == rs[i].refcount
  {
    assert rs == rs[..i] + [rs[i]] + rs[i+1..];
    CountAtConcat(rs[..i] + [rs[i]], rs[i+1..], c);
    CountAtConcat(rs[..i], [rs[i]], c);
    assert forall k | 0 <= k < i :: Before(rs[k], rs[i]);
    CountAtUncovered(rs[..i], c);
    assert forall k | i < k < |rs| :: Before(rs[i], rs[k]);
    CountAtUncovered(rs[i+1..], c);
    assert CountAt([rs[i]], c) == rs[i].refcount + CountAt([], c);
  }

  /** Clusters in the gap before record `i` have count zero. */
  lemma CountAtGap(rs: seq<Rec>, i: nat, c: nat)
    requires WellFormed(rs) && i <= |rs|
    requires i > 0 ==> rs[i-1].End() <= c
    requires i < |rs| ==> c < rs[i].cpos
    ensures CountAt(rs, c) == 0
  {
    forall k | 0 <= k < |rs|
      ensures !rs[k].Covers(c)
    {
      if k < i {
        assert k < i - 1 ==> Before(rs[k], rs[i-1]);
      } else {
        assert i < k ==> Before(rs[i], rs[k]);
      }
    }
    CountAtUncovered(rs, c);
  }

  lemma SliceWellFormed(rs: seq<Rec>, lo: nat, hi: nat)
    requires WellFormed(rs) && lo <= hi <= |rs|
    ensures WellFormed(rs[lo..hi])
  {
    forall i, j | 0 <= i < j < hi - lo
      ensures Before(rs[lo..hi][i], rs[lo..hi][j])
    {
      assert Before(rs[lo+i], rs[lo+j]);
    }
  }

  /** Three well-formed stretches, each before the next, form a well-formed list. */
  lemma JoinWellFormed(a: seq<Rec>, x: seq<Rec>, b: seq<Rec>)
    requires WellFormed(a) && WellFormed(x) && WellFormed(b)
    requires forall i, j | 0 <= i < |a| && 0 <= j < |x| :: Before(a[i], x[j])
    requires forall i, j | 0 <= i < |x| && 0 <= j < |b| :: Before(x[i], b[j])
    requires forall i, j | 0 <= i < |a| && 0 <= j < |b| :: Before(a[i], b[j])
    ensures WellFormed(a + x + b)
  {
    var t := a + x + b;
    forall i, j | 0 <= i < j < |t|
      ensures Before(t[i], t[j])
    {
      var n, m := |a|, |a| + |x|;
      if i < n {
        assert t[i] == a[i];
        assert t[j] == if j < n then a[j] else if j < m then x[j-n] else b[j-m];
      } else if i < m {
        assert t[i] == x[i-n];
        assert t[j] == if j < m then x[j-n] else b[j-m];
      } else {
        assert t[i] == b[i-m] && t[j] == b[j-m];
      }
    }
  }

  /** The answer is a record of the list. */
  ghost predicate Real(rs: seq<Rec>, cpos: nat, rec: Rec, index: nat) {
    index < |rs| && rs[index] == rec && rec.Covers(cpos)
  }

  /** Tells the two kinds of answers apart. */
  predicate IsRecord(rs: seq<Rec>, rec: Rec, index: nat) { index < |rs| && rs[index] == rec }

  /** The answer is made up: it reaches to the next record or to `cpos + len`. */
  ghost predicate Faked(rs: seq<Rec>, cpos: nat, len: nat, rec: Rec, index: nat) {
    && index <= |rs| && rec.cpos == cpos && rec.refcount == 0
    && rec.clusters <= len && (len > 0 ==> rec.clusters > 0)
    && (rec.clusters < len ==> index < |rs| && rs[index].cpos == rec.End())
    && (index > 0 ==> rs[index-1].End() <= cpos)
    && (index < |rs| ==> rec.End() <= rs[index].cpos && cpos < rs[index].cpos)
  }

  /** A made-up answer is given only where no record is. */
  lemma FakedUncovered(rs: seq<Rec>, cpos: nat, len: nat, rec: Rec, index: nat)
    requires WellFormed(rs) && Faked(rs, cpos, len, rec, index)
    ensures forall r | r in rs :: r.End() <= cpos || (rec.End() <= r.cpos && cpos < r.cpos)
  {
    forall r | r in rs
      ensures r.End() <= cpos || (rec.End() <= r.cpos && cpos < r.cpos)
    {
      var k :| 0 <= k < |rs| && rs[k] == r;
      assert k < index - 1 ==> Before(rs[k], rs[index-1]);
      assert index < k ==> Before(rs[index], rs[k]);
    }
  }

  /**
   Finds the record that covers `cpos`, or fakes a zero-count one that reaches to the next record
   or to `cpos + len`.  In a list in order, the list has the answer's count throughout the answer.
   */
  method FindRec(rs: seq<Rec>, cpos: nat, len: nat) returns (rec: Rec, index: nat)
    ensures Real(rs, cpos, rec, index) ||
            (index <= |rs| && rec == Rec(cpos, rec.clusters, 0) && !IsRecord(rs, rec, index))
    ensures Real(rs, cpos, rec, index) || (rec.clusters <= len && (len > 0 ==> rec.clusters > 0))
    ensures WellFormed(rs) ==> Real(rs, cpos, rec, index) || Faked(rs, cpos, len, rec, index)
    ensures WellFormed(rs) ==> forall c: nat | cpos <= c < rec.End() :: CountAt(rs, c) == rec.refcount
  {
    var i := 0;
    while i < |rs| && rs[i].cpos <= cpos
      invariant i <= |rs|
      invariant i > 0 ==> rs[i-1].End() <= cpos
    {
      if cpos < rs[i].End() {
        forall c: nat | WellFormed(rs) && cpos <= c < rs[i].End()
          ensures CountAt(rs, c) == rs[i].refcount
        {
          CountAtCovered(rs, i, c);
        }
        return rs[i], i;
      }
      i := i + 1;
    }
    index := i;
    if i < |rs| && rs[i].cpos < cpos + len {
      rec := Rec(cpos, rs[i].cpos - cpos, 0);
    } else {
      rec := Rec(cpos, len, 0);
    }
    forall c: nat | WellFormed(rs) && cpos <= c < rec.End()
      ensures CountAt(rs, c) == 0
    {
      CountAtGap(rs, i, c);
    }
  }

  // ---- merging neighbours -------------------------------------------------------------------

  predicate Adjacent(rs: seq<Rec>, i: nat)
    requires i + 1 < |rs|
  {
    rs[i].refcount == rs[i+1].refcount && rs[i].End() == rs[i+1].cpos
  }

  /** The record that stands for record `i` and the next one; its length is cut to 32 bits. */
  function Joined(rs: seq<Rec>, i: nat): Rec
    requires i + 1 < |rs|
  {
    rs[i].(clusters := (rs[i].clusters + rs[i+1].clusters) % UINT32_RANGE)
  }

  /** Absorbs record `i + 1` into record `i`. */
  function RotateLeft(rs: seq<Rec>, i: nat): (r: seq<Rec>)
    requires i + 1 < |rs| && Adjacent(rs, i)
    ensures |r| == |rs| - 1
  {
    rs[..i] + [Joined(rs, i)] + rs[i+2..]
  }

  lemma JoinedLow(rs: seq<Rec>, i: nat)
    requires Low(rs) && i + 1 < |rs| && Adjacent(rs, i)
    ensures Joined(rs, i).End() == rs[i+1].End() && rs[i].clusters + rs[i+1].clusters < UINT32_RANGE
  {
    assert rs[i+1] in rs;
  }

  lemma RotateLeftStored(rs: seq<Rec>, i: nat)
    requires Stored(rs) && i + 1 < |rs| && Adjacent(rs, i)
    ensures Stored(RotateLeft(rs, i))
  {
    JoinedLow(rs, i);
    assert rs == rs[..i] + [rs[i], rs[i+1]] + rs[i+2..];
    SliceWellFormed(rs, 0, i);
    SliceWellFormed(rs, i + 2, |rs|);
    assert forall k | 0 <= k < i :: Before(rs[k], rs[i]);
    assert forall m | i + 1 < m < |rs| :: Before(rs[i+1], rs[m]);
    assert forall k, m | 0 <= k < i && i + 1 < m < |rs| :: Before(rs[k], rs[m]);
    JoinWellFormed(rs[..i], [Joined(rs, i)], rs[i+2..]);
  }

  /** Joining two records keeps every count if and only if their length fits in 32 bits, or they count nothing. */
  lemma RotateLeftKeepsCount(rs: seq<Rec>, i: nat)
    requires i + 1 < |rs| && Adjacent(rs, i)
    ensures (forall c: nat :: CountAt(RotateLeft(rs, i), c) == CountAt(rs, c)) <==>
            rs[i].clusters + rs[i+1].clusters < UINT32_RANGE || rs[i].refcount == 0
  {
    JoinedLength(rs, i);
    if rs[i].clusters + rs[i+1].clusters < UINT32_RANGE || rs[i].refcount == 0 {
      JoinedKeeps(rs, i, Joined(rs, i));
    } else {
      JoinedLoses(rs, i, Joined(rs, i));
    }
  }

  lemma JoinedLength(rs: seq<Rec>, i: nat)
    requires i + 1 < |rs|
    ensures var n := rs[i].clusters + rs[i+1].clusters;
            if n < UINT32_RANGE then Joined(rs, i).clusters == n else Joined(rs, i).clusters < n
  {
  }

  lemma JoinedKeeps(rs: seq<Rec>, i: nat, j: Rec)
    requires i + 1 < |rs| && Adjacent(rs, i) && j == Joined(rs, i)
    requires j.clusters == rs[i].clusters + rs[i+1].clusters || rs[i].refcount == 0
    ensures forall c: nat :: CountAt(RotateLeft(rs, i), c) == CountAt(rs, c)
  {
    forall c: nat
      ensures CountAt(RotateLeft(rs, i), c) == CountAt(rs, c)
    {
      JoinedCount(rs, i, c);
      JoinedFits(rs[i], rs[i+1], j, c);
    }
  }

  lemma JoinedLoses(rs: seq<Rec>, i: nat, j: Rec)
    requires i + 1 < |rs| && Adjacent(rs, i) && j == Joined(rs, i)
    requires j.clusters < rs[i].clusters + rs[i+1].clusters && rs[i].refcount > 0
    ensures exists c: nat :: CountAt(RotateLeft(rs, i), c) != CountAt(rs, c)
  {
    JoinedCount(rs, i, j.End());
    JoinedShort(rs[i], rs[i+1], j);
    assert CountAt(RotateLeft(rs, i), j.End()) != CountAt(rs, j.End());
  }

  lemma JoinedFits(a: Rec, b: Rec, j: Rec, c: nat)
    requires a.refcount == b.refcount && a.End() == b.cpos && j.cpos == a.cpos && j.refcount == a.refcount
    requires j.clusters == a.clusters + b.clusters || a.refcount == 0
    ensures CountIn(j, c) == CountIn(a, c) + CountIn(b, c)
  {
  }

  lemma JoinedShort(a: Rec, b: Rec, j: Rec)
    requires a.refcount == b.refcount && a.End() == b.cpos && j.cpos == a.cpos && j.clusters < a.clusters + b.clusters
    ensures CountIn(j, j.End()) == 0 && CountIn(a, j.End()) + CountIn(b, j.End()) == a.refcount
  {
  }

  lemma JoinedCount(rs: seq<Rec>, i: nat, c: nat)
    requires i + 1 < |rs| && Adjacent(rs, i)
    ensures CountAt(RotateLeft(rs, i), c) + (CountIn(rs[i], c) + CountIn(rs[i+1], c))
         == CountAt(rs, c) + CountIn(Joined(rs, i), c)
  {
    var x, y := [rs[i], rs[i+1]], [Joined(rs, i)];
    assert rs == rs[..i] + x + rs[i+2..];
    CountAtReplace(rs[..i], x, y, rs[i+2..], c);
    assert x[1..] == [rs[i+1]] && x[1..][1..] == [] && y[1..] == [];
  }

  lemma RotateLeftZeros(rs: seq<Rec>, i: nat)
    requires i + 1 < |rs| && Adjacent(rs, i) && rs[i].refcount != 0
    ensures SameZeros(rs, RotateLeft(rs, i))
  {
    assert rs == rs[..i] + [rs[i], rs[i+1]] + rs[i+2..];
  }

  /** Absorbs both neighbours; the source asserts no more than that the counts agree. */
  function RotateBoth(rs: seq<Rec>, index: nat): (r: seq<Rec>)
    requires 0 < index < |rs| - 1 && Adjacent(rs, index - 1) && Adjacent(rs, index)
  {
    var t := RotateLeft(rs, index - 1);
    t[..index-1] + [Joined(t, index - 1)] + t[index+1..]
  }

  lemma RotateBothIsTwice(rs: seq<Rec>, index: nat)
    requires Low(rs) && 0 < index < |rs| - 1 && Adjacent(rs, index - 1) && Adjacent(rs, index)
    ensures Adjacent(RotateLeft(rs, index - 1), index - 1)
    ensures RotateBoth(rs, index) == RotateLeft(RotateLeft(rs, index - 1), index - 1)
  {
    JoinedLow(rs, index - 1);
  }

  /** Merges record `index` with the neighbours it touches and agrees with. */
  function Merge(rs: seq<Rec>, index: nat): (r: seq<Rec>)
    requires index < |rs|
  {
    var right := index < |rs| - 1 && Adjacent(rs, index);
    var left := index > 0 && Adjacent(rs, index - 1);
    if left && right then
      RotateBoth(rs, index)
    else if left then
      RotateLeft(rs, index - 1)
    else if right then
      RotateLeft(rs, index)
    else
      rs
  }

  lemma MergeStored(rs: seq<Rec>, index: nat)
    requires Stored(rs) && index < |rs|
    ensures Stored(Merge(rs, index))
  {
    var right := index < |rs| - 1 && Adjacent(rs, index);
    if index > 0 && Adjacent(rs, index - 1) {
      RotateLeftStored(rs, index - 1);
      if right {
        RotateBothIsTwice(rs, index);
        RotateLeftStored(RotateLeft(rs, index - 1), index - 1);
      }
    } else if right {
      RotateLeftStored(rs, index);
    }
  }

  lemma RotateBothZeros(rs: seq<Rec>, index: nat)
    requires 0 < index < |rs| - 1 && Adjacent(rs, index - 1) && Adjacent(rs, index) && rs[index].refcount != 0
    ensures SameZeros(rs, RotateBoth(rs, index))
  {
    var t := RotateLeft(rs, index - 1);
    RotateLeftZeros(rs, index - 1);
    assert t[index-1] == Joined(rs, index - 1) && t[index] == rs[index+1];
    assert t == t[..index-1] + [t[index-1], t[index]] + t[index+1..];
  }

  /** Merging a record that counts something takes no record away that counts nothing, whatever the list. */
  lemma MergeZeros(rs: seq<Rec>, index: nat)
    requires index < |rs| && rs[index].refcount != 0
    ensures SameZeros(rs, Merge(rs, index))
  {
    var right := index < |rs| - 1 && Adjacent(rs, index);
    if index > 0 && Adjacent(rs, index - 1) {
      if right {
        RotateBothZeros(rs, index);
      } else {
        RotateLeftZeros(rs, index - 1);
      }
    } else if right {
      RotateLeftZeros(rs, index);
    }
  }

  lemma MergeMeaning(rs: seq<Rec>, index: nat)
    requires Stored(rs) && index < |rs|
    ensures Stored(Merge(rs, index))
    ensures forall c: nat :: CountAt(Merge(rs, index), c) == CountAt(rs, c)
    ensures rs[index].refcount != 0 ==> SameZeros(rs, Merge(rs, index))
  {
    MergeStored(rs, index);
    if rs[index].refcount != 0 {
      MergeZeros(rs, index);
    }
    MergeCounts(rs, index);
  }

  lemma MergeCounts(rs: seq<Rec>, index: nat)
    requires Stored(rs) && index < |rs|
    ensures forall c: nat :: CountAt(Merge(rs, index), c) == CountAt(rs, c)
  {
    var right := index < |rs| - 1 && Adjacent(rs, index);
    if index > 0 && Adjacent(rs, index - 1) {
      JoinedLow(rs, index - 1);
      RotateLeftKeepsCount(rs, index - 1);
      if right {
        var t := RotateLeft(rs, index - 1);
        RotateBothIsTwice(rs, index);
        RotateLeftStored(rs, index - 1);
        JoinedLow(t, index - 1);
        RotateLeftKeepsCount(t, index - 1);
      }
    } else if right {
      JoinedLow(rs, index);
      RotateLeftKeepsCount(rs, index);
    }
  }

  // ---- the three edits ----------------------------------------------------------------------

  /** Replacing one record by well-formed parts of it keeps the list well-formed. */
  lemma ReplaceStored(rs: seq<Rec>, index: nat, parts: seq<Rec>)
    requires Stored(rs) && index < |rs| && WellFormed(parts)
    requires forall i | 0 <= i < |parts| :: rs[index].cpos <= parts[i].cpos && parts[i].End() <= rs[index].End()
    ensures Stored(rs[..index] + parts + rs[index+1..])
  {
    assert rs[index] in rs;
    SliceWellFormed(rs, 0, index);
    SliceWellFormed(rs, index + 1, |rs|);
    assert forall k | 0 <= k < index :: Before(rs[k], rs[index]);
    assert forall m | index < m < |rs| :: Before(rs[index], rs[m]);
    assert forall k, m | 0 <= k < index < m < |rs| :: Before(rs[k], rs[m]);
    JoinWellFormed(rs[..index], parts, rs[index+1..]);
  }

  lemma ReplaceZeros(rs: seq<Rec>, index: nat, parts: seq<Rec>)
    requires index < |rs| && rs[index].refcount != 0 && forall p | p in parts :: p.refcount != 0
    ensures SameZeros(rs, rs[..index] + parts + rs[index+1..])
  {
    assert rs == rs[..index] + [rs[index]] + rs[index+1..];
  }

  /** The same replacement, read as an update of the count map. */
  lemma ReplaceMeaning(rs: seq<Rec>, index: nat, parts: seq<Rec>, c: nat)
    requires index < |rs|
    ensures CountAt(rs[..index] + parts + rs[index+1..], c)
         == CountAt(rs, c) - CountIn(rs[index], c) + CountAt(parts, c)
  {
    assert rs == rs[..index] + [rs[index]] + rs[index+1..];
    CountAtReplace(rs[..index], [rs[index]], parts, rs[index+1..], c);
    CountAtOne(rs[index], c);
  }

  lemma CountAtOne(r: Rec, c: nat)
    ensures CountAt([r], c) == CountIn(r, c)
  {
    assert [r][1..] == [];
  }

  /** The record with `change` added to its count; one that drops to zero is gone. */
  function ChangeParts(r: Rec, change: int): (parts: seq<Rec>)
    requires r.refcount + change >= 0
  {
    if r.refcount + change == 0 then [] else [r.(refcount := r.refcount + change)]
  }

  function ChangeList(rs: seq<Rec>, index: nat, change: int): (t: seq<Rec>)
    requires index < |rs| && rs[index].refcount + change >= 0
  {
    rs[..index] + ChangeParts(rs[index], change) + rs[index+1..]
  }

  lemma ChangeListMeaning(rs: seq<Rec>, index: nat, change: int)
    requires Stored(rs) && index < |rs| && rs[index].refcount + change >= 0
    ensures Stored(ChangeList(rs, index, change))
    ensures forall c: nat :: CountAt(ChangeList(rs, index, change), c)
                          == CountAt(rs, c) + (if rs[index].Covers(c) then change else 0)
    ensures rs[index].refcount != 0 ==> SameZeros(rs, ChangeList(rs, index, change))
  {
    var r, parts := rs[index], ChangeParts(rs[index], change);
    ReplaceStored(rs, index, parts);
    if r.refcount != 0 {
      ReplaceZeros(rs, index, parts);
    }
    forall c: nat
      ensures CountAt(ChangeList(rs, index, change), c) == CountAt(rs, c) + (if r.Covers(c) then change else 0)
    {
      ReplaceMeaning(rs, index, parts, c);
      if parts != [] {
        CountAtOne(parts[0], c);
      }
    }
  }

  /** Adds `change` to the count of record `index`; a record that stays is merged with its neighbours. */
  function ChangeRec(rs: seq<Rec>, index: nat, change: int): (r: seq<Rec>)
    requires index < |rs| && rs[index].refcount + change >= 0
  {
    var t := ChangeList(rs, index, change);
    if rs[index].refcount + change == 0 then t else Merge(t, index)
  }

  lemma ChangeRecMeaning(rs: seq<Rec>, index: nat, change: int)
    requires Stored(rs) && index < |rs| && rs[index].refcount + change >= 0
    ensures Stored(ChangeRec(rs, index, change))
    ensures forall c: nat :: CountAt(ChangeRec(rs, index, change), c)
                          == CountAt(rs, c) + (if rs[index].Covers(c) then change else 0)
    ensures rs[index].refcount != 0 ==> SameZeros(rs, ChangeRec(rs, index, change))
  {
    ChangeListMeaning(rs, index, change);
    if rs[index].refcount + change != 0 {
      MergeMeaning(ChangeList(rs, index, change), index);
    }
  }

  /** Inserts `rec` before position `index`. */
  function InsertRec(rs: seq<Rec>, rec: Rec, index: nat): (r: seq<Rec>)
    requires index <= |rs|
  {
    Merge(rs[..index] + [rec] + rs[index..], index)
  }

  lemma InsertRecMeaning(rs: seq<Rec>, rec: Rec, index: nat)
    requires Stored(rs) && index <= |rs| && rec.refcount > 0 && rec.End() < UINT32_RANGE
    requires index > 0 ==> rs[index-1].End() <= rec.cpos
    requires index < |rs| ==> rec.End() <= rs[index].cpos
    ensures Stored(InsertRec(rs, rec, index))
    ensures forall c: nat :: CountAt(InsertRec(rs, rec, index), c) == CountAt(rs, c) + CountIn(rec, c)
    ensures SameZeros(rs, InsertRec(rs, rec, index))
  {
    var t := rs[..index] + [rec] + rs[index..];
    InsertWellFormed(rs, rec, index);
    InsertCounts(rs, rec, index, t);
    MergeMeaning(t, index);
  }

  lemma InsertCounts(rs: seq<Rec>, rec: Rec, index: nat, t: seq<Rec>)
    requires index <= |rs| && rec.refcount > 0 && t == rs[..index] + [rec] + rs[index..]
    ensures forall c: nat :: CountAt(t, c) == CountAt(rs, c) + CountIn(rec, c)
    ensures SameZeros(rs, t)
  {
    assert rs == rs[..index] + [] + rs[index..];
    forall c: nat
      ensures CountAt(t, c) == CountAt(rs, c) + CountIn(rec, c)
    {
      CountAtReplace(rs[..index], [], [rec], rs[index..], c);
      CountAtOne(rec, c);
    }
  }

  lemma InsertWellFormed(rs: seq<Rec>, rec: Rec, index: nat)
    requires WellFormed(rs) && index <= |rs|
    requires index > 0 ==> rs[index-1].End() <= rec.cpos
    requires index < |rs| ==> rec.End() <= rs[index].cpos
    ensures WellFormed(rs[..index] + [rec] + rs[index..])
  {
    SliceWellFormed(rs, 0, index);
    SliceWellFormed(rs, index, |rs|);
    assert forall k | 0 <= k < index - 1 :: Before(rs[k], rs[index-1]);
    assert forall m | index < m < |rs| :: Before(rs[index], rs[m]);
    assert forall k, m | 0 <= k < index <= m < |rs| :: Before(rs[k], rs[m]);
    JoinWellFormed(rs[..index], [rec], rs[index..]);
  }

  /** What is left of `orig` once `split` takes over a stretch of it; a zero count leaves a hole. */
  function SplitParts(orig: Rec, split: Rec): (parts: seq<Rec>)
    requires orig.cpos <= split.cpos && split.End() <= orig.End()
  {
    (if split.cpos != orig.cpos then [orig.(clusters := split.cpos - orig.cpos)] else [])
    + (if split.refcount != 0 then [split] else [])
    + (if split.End() != orig.End() then [Rec(split.End(), orig.End() - split.End(), orig.refcount)] else [])
  }

  lemma SplitPartsMeaning(orig: Rec, split: Rec, c: nat)
    requires orig.cpos <= split.cpos && split.End() <= orig.End()
    ensures CountAt(SplitParts(orig, split), c) == if split.Covers(c) then split.refcount else CountIn(orig, c)
  {
    var head := if split.cpos != orig.cpos then [orig.(clusters := split.cpos - orig.cpos)] else [];
    var mid := if split.refcount != 0 then [split] else [];
    var tail := if split.End() != orig.End() then [Rec(split.End(), orig.End() - split.End(), orig.refcount)] else [];
    CountAtConcat(head + mid, tail, c);
    CountAtConcat(head, mid, c);
    if head != [] {
      CountAtOne(head[0], c);
    }
    if mid != [] {
      CountAtOne(mid[0], c);
    }
    if tail != [] {
      CountAtOne(tail[0], c);
    }
  }

  lemma SplitPartsWellFormed(orig: Rec, split: Rec)
    requires orig.cpos <= split.cpos && split.End() <= orig.End()
    ensures var parts := SplitParts(orig, split);
            && WellFormed(parts)
            && (forall i | 0 <= i < |parts| :: orig.cpos <= parts[i].cpos && parts[i].End() <= orig.End())
            && (orig.refcount != 0 ==> forall p | p in parts :: p.refcount != 0)
            && (split.refcount != 0 ==> (if split.cpos != orig.cpos then 1 else 0) < |parts|)
  {
  }

  /** The list with part of record `index` taken over by `split`. */
  function SplitList(rs: seq<Rec>, split: Rec, index: nat): (t: seq<Rec>)
    requires index < |rs| && rs[index].cpos <= split.cpos && split.End() <= rs[index].End()
  {
    rs[..index] + SplitParts(rs[index], split) + rs[index+1..]
  }

  lemma SplitListMeaning(rs: seq<Rec>, split: Rec, index: nat)
    requires Stored(rs)
    requires index < |rs| && rs[index].cpos <= split.cpos && split.End() <= rs[index].End()
    ensures Stored(SplitList(rs, split, index))
    ensures forall c: nat :: CountAt(SplitList(rs, split, index), c)
                          == if split.Covers(c) then split.refcount else CountAt(rs, c)
    ensures rs[index].refcount != 0 ==> SameZeros(rs, SplitList(rs, split, index))
    ensures split.refcount != 0 ==>
              var k := if split.cpos != rs[index].cpos then index + 1 else index;
              k < |SplitList(rs, split, index)| && SplitList(rs, split, index)[k] == split
  {
    var parts := SplitParts(rs[index], split);
    SplitPartsWellFormed(rs[index], split);
    if rs[index].refcount != 0 {
      ReplaceZeros(rs, index, parts);
    }
    ReplaceStored(rs, index, parts);
    forall c: nat
      ensures CountAt(SplitList(rs, split, index), c) == if split.Covers(c) then split.refcount else CountAt(rs, c)
    {
      ReplaceMeaning(rs, index, parts, c);
      SplitPartsMeaning(rs[index], split, c);
      if split.Covers(c) {
        CountAtCovered(rs, index, c);
      }
    }
  }

  /** Splits record `index`, then merges a nonzero new part with its neighbours. */
  function SplitRec(rs: seq<Rec>, split: Rec, index: nat): (r: seq<Rec>)
    requires index < |rs| && rs[index].cpos <= split.cpos && split.End() <= rs[index].End()
  {
    var t := SplitList(rs, split, index);
    if split.refcount == 0 then t
    else Merge(t, if split.cpos != rs[index].cpos then index + 1 else index)
  }

  lemma SplitRecMeaning(rs: seq<Rec>, split: Rec, index: nat)
    requires Stored(rs)
    requires index < |rs| && rs[index].cpos <= split.cpos && split.End() <= rs[index].End()
    ensures Stored(SplitRec(rs, split, index))
    ensures forall c: nat :: CountAt(SplitRec(rs, split, index), c)
                          == if split.Covers(c) then split.refcount else CountAt(rs, c)
    ensures rs[index].refcount != 0 ==> SameZeros(rs, SplitRec(rs, split, index))
  {
    SplitListMeaning(rs, split, index);
    if split.refcount != 0 {
      MergeMeaning(SplitList(rs, split, index), if split.cpos != rs[index].cpos then index + 1 else index);
    }
  }

  // ---- records with a count of zero ---------------------------------------------------------

  /**
   Where a record with a count of zero is found, raising the count inserts that record a second time,
   and the list is no longer in order; where the answer is made up, it stays in order.
   */
  lemma RaisingZeroRecord(rs: seq<Rec>, cpos: nat, len: nat, rec: Rec, index: nat, value: nat)
    requires Stored(rs) && value > 0 && rec.refcount == 0 && rec.End() < UINT32_RANGE
    requires Real(rs, cpos, rec, index) || Faked(rs, cpos, len, rec, index)
    ensures WellFormed(InsertRec(rs, rec.(refcount := value), index)) <==> !Real(rs, cpos, rec, index)
  {
    var raised := rec.(refcount := value);
    if Real(rs, cpos, rec, index) {
      var t := rs[..index] + [raised] + rs[index..];
      var m := Merge(t, index);
      assert t[index] == raised && t[index+1] == rec && Low(t);
      if index > 0 && Adjacent(t, index - 1) {
        JoinedLow(t, index - 1);
      }
      var at := if index > 0 && Adjacent(t, index - 1) then index - 1 else index;
      assert m[at].End() == rec.End() && m[at+1] == rec;
      assert !Before(m[at], m[at+1]);
    } else {
      InsertRecMeaning(rs, raised, index);
    }
  }

  // ---- every run of edits -------------------------------------------------------------------

  ghost predicate Changed(rs: seq<Rec>, rs': seq<Rec>, index: nat, change: int) {
    index < |rs| && rs[index].refcount != 0 && rs[index].refcount + change >= 0 && rs' == ChangeRec(rs, index, change)
  }

  ghost predicate Inserted(rs: seq<Rec>, rs': seq<Rec>, index: nat, rec: Rec) {
    index <= |rs| && rec.refcount != 0 && rs' == InsertRec(rs, rec, index)
  }

  ghost predicate Split(rs: seq<Rec>, rs': seq<Rec>, index: nat, split: Rec) {
    && index < |rs| && rs[index].refcount != 0 && rs[index].cpos <= split.cpos && split.End() <= rs[index].End()
    && rs' == SplitRec(rs, split, index)
  }

  /** One edit, of a list that may be in any state. */
  ghost predicate Edited(rs: seq<Rec>, rs': seq<Rec>) {
    || (exists index: nat, change: int :: Changed(rs, rs', index, change))
    || (exists index: nat, rec: Rec :: Inserted(rs, rs', index, rec))
    || (exists index: nat, split: Rec :: Split(rs, rs', index, split))
  }

  /** No edit takes away a record that counts nothing, or adds one. */
  lemma EditKeepsZeros(rs: seq<Rec>, rs': seq<Rec>)
    requires Edited(rs, rs')
    ensures SameZeros(rs, rs')
  {
    if index: nat, change: int :| Changed(rs, rs', index, change) {
      ReplaceZeros(rs, index, ChangeParts(rs[index], change));
      if rs[index].refcount + change != 0 {
        MergeZeros(ChangeList(rs, index, change), index);
      }
    } else if index: nat, rec: Rec :| Inserted(rs, rs', index, rec) {
      var t := rs[..index] + [rec] + rs[index..];
      InsertZeros(rs, rec, index, t);
      MergeZeros(t, index);
    } else {
      var index: nat, split: Rec :| Split(rs, rs', index, split);
      SplitPartsWellFormed(rs[index], split);
      ReplaceZeros(rs, index, SplitParts(rs[index], split));
      if split.refcount != 0 {
        MergeZeros(SplitList(rs, split, index), if split.cpos != rs[index].cpos then index + 1 else index);
      }
    }
  }

  lemma InsertZeros(rs: seq<Rec>, rec: Rec, index: nat, t: seq<Rec>)
    requires index <= |rs| && rec.refcount != 0 && t == rs[..index] + [rec] + rs[index..]
    ensures SameZeros(rs, t)
  {
    assert rs == rs[..index] + rs[index..];
  }

  /** A run: each list is the one before it, or comes from it by an edit. */
  ghost predicate IsRun(lists: seq<seq<Rec>>) {
    lists != [] && forall i | 0 <= i < |lists| - 1 :: lists[i+1] == lists[i] || Edited(lists[i], lists[i+1])
  }

  lemma {:induction false} RunKeepsZeros(lists: seq<seq<Rec>>)
    requires IsRun(lists)
    ensures SameZeros(lists[0], lists[|lists|-1])
  {
    var n := |lists| - 1;
    if n > 0 {
      RunKeepsZeros(lists[..n]);
      assert lists[..n][n-1] == lists[n-1] && lists[n-1+1] == lists[n];
      if lists[n] != lists[n-1] {
        EditKeepsZeros(lists[n-1], lists[n]);
      }
    }
  }

  /**
   Whatever edits are made, a cluster that a record with a count of zero covers does not get a count in a list
   that is in order.
   */
  lemma ZeroRecordStays(lists: seq<seq<Rec>>, r: Rec, c: nat)
    requires IsRun(lists) && r in lists[0] && r.refcount == 0 && r.Covers(c) && WellFormed(lists[|lists|-1])
    ensures CountAt(lists[|lists|-1], c) == 0
  {
    RunKeepsZeros(lists);
    var last := lists[|lists|-1];
    var i :| 0 <= i < |last| && last[i] == r;
    CountAtCovered(last, i, c);
  }
}
