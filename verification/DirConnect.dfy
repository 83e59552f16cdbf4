/**
 Directory connectivity, pass 3 (fsck.ocfs2/pass3.c).  Every directory knows the directory that has an
 entry for it.  The pass walks up from each directory and moves what hangs in the air to lost+found.
 */
module DirConnect {
  import opened Common

  /** The parent of each directory; 0 when no entry for it was found. */
  type Parents = map<nat, nat>

  // ---- walking up ---------------------------------------------------------------------------

  /** The parent, unless the directory is the root or the system directory or has none. */
  function Next(p: Parents, base: set<nat>, d: nat): Option<nat> {
    if d in base || d !in p || p[d] == 0 then None else Some(p[d])
  }

  /** The directory `n` steps up. */
  function Up(p: Parents, base: set<nat>, d: nat, n: nat): Option<nat> {
    if n == 0 then Some(d)
    else match Up(p, base, d, n - 1)
      case None => None
      case Some(x) => Next(p, base, x)
  }

  ghost predicate UpIs(p: Parents, base: set<nat>, d: nat, n: nat, x: nat) { Up(p, base, d, n) == Some(x) }

  ghost predicate Leads(p: Parents, base: set<nat>, d: nat, x: nat) { exists n: nat :: UpIs(p, base, d, n, x) }

  ghost predicate Reaches(p: Parents, base: set<nat>, d: nat) { exists x | x in base :: Leads(p, base, d, x) }

  ghost predicate OnCycle(p: Parents, base: set<nat>, d: nat) {
    Next(p, base, d).Some? && Leads(p, base, Next(p, base, d).value, d)
  }

  lemma {:induction false} UpAdd(p: Parents, base: set<nat>, d: nat, m: nat, x: nat, n: nat)
    requires UpIs(p, base, d, m, x)
    ensures Up(p, base, d, m + n) == Up(p, base, x, n)
    decreases n
  {
    if n > 0 {
      UpAdd(p, base, d, m, x, n - 1);
    }
  }

  lemma LeadsSelf(p: Parents, base: set<nat>, d: nat)
    ensures Leads(p, base, d, d)
  {
    assert UpIs(p, base, d, 0, d);
  }

  lemma LeadsOn(p: Parents, base: set<nat>, d: nat, x: nat, y: nat)
    requires Leads(p, base, d, x) && Leads(p, base, x, y)
    ensures Leads(p, base, d, y)
  {
    var m: nat :| UpIs(p, base, d, m, x);
    var n: nat :| UpIs(p, base, x, n, y);
    UpAdd(p, base, d, m, x, n);
    assert UpIs(p, base, d, m + n, y);
  }

  lemma LeadsNext(p: Parents, base: set<nat>, d: nat)
    requires Next(p, base, d).Some?
    ensures Leads(p, base, d, Next(p, base, d).value)
  {
    assert Up(p, base, d, 0) == Some(d);
    assert UpIs(p, base, d, 1, Next(p, base, d).value);
  }

  /** Whatever a directory on a cycle leads to leads back to it. */
  lemma {:induction false} CycleBack(p: Parents, base: set<nat>, d: nat, n: nat, x: nat)
    requires OnCycle(p, base, d) && UpIs(p, base, d, n, x)
    ensures Next(p, base, x).Some? && Leads(p, base, Next(p, base, x).value, d)
    decreases n
  {
    if n > 0 {
      var w := Up(p, base, d, n - 1).value;
      CycleBack(p, base, d, n - 1, w);
      if x == d {
      } else {
        var m: nat :| UpIs(p, base, x, m, d);
        assert m > 0;
        assert UpIs(p, base, x, 1, Next(p, base, x).value) by {
          UpSome(p, base, x, 1, m);
          assert Up(p, base, x, 0) == Some(x);
        }
        UpAdd(p, base, x, 1, Next(p, base, x).value, m - 1);
        assert UpIs(p, base, Next(p, base, x).value, m - 1, d);
      }
    }
  }

  lemma {:induction false} UpSome(p: Parents, base: set<nat>, d: nat, m: nat, n: nat)
    requires m <= n && Up(p, base, d, n).Some?
    ensures Up(p, base, d, m).Some?
    decreases n
  {
    if m < n {
      UpSome(p, base, d, m, n - 1);
    }
  }

  /** A set that is closed under the parent relation keeps all that its members lead to. */
  ghost predicate Closed(p: Parents, base: set<nat>, k: set<nat>) {
    forall d: nat :: ClosedAt(p, base, k, d)
  }

  ghost predicate ClosedAt(p: Parents, base: set<nat>, k: set<nat>, d: nat) {
    d in k && Next(p, base, d).Some? ==> Next(p, base, d).value in k
  }

  lemma {:induction false} ClosedLeads(p: Parents, base: set<nat>, k: set<nat>, d: nat, n: nat)
    requires Closed(p, base, k) && d in k
    ensures Up(p, base, d, n).Some? ==> Up(p, base, d, n).value in k
  {
    if n > 0 {
      ClosedLeads(p, base, k, d, n - 1);
      if Up(p, base, d, n - 1).Some? {
        assert ClosedAt(p, base, k, Up(p, base, d, n - 1).value);
      }
    }
  }

  lemma ClosedKeeps(p: Parents, base: set<nat>, k: set<nat>, d: nat, x: nat)
    requires Closed(p, base, k) && d in k && Leads(p, base, d, x)
    ensures x in k
  {
    var n: nat :| UpIs(p, base, d, n, x);
    ClosedLeads(p, base, k, d, n);
  }

  /** Two graphs that agree on such a set lead to the same places from it. */
  lemma {:induction false} UpSame(p: Parents, q: Parents, base: set<nat>, k: set<nat>, d: nat, n: nat)
    requires Closed(p, base, k) && d in k && forall x | x in k :: Next(q, base, x) == Next(p, base, x)
    ensures Up(q, base, d, n) == Up(p, base, d, n)
  {
    if n > 0 {
      UpSame(p, q, base, k, d, n - 1);
      ClosedLeads(p, base, k, d, n - 1);
    }
  }

  // ---- one walk -----------------------------------------------------------------------------

  /** How a walk ended: at a directory connected before, back at its start, or with a move. */
  datatype End = Joined | Looped | Moved

  ghost predicate LinkAt(p: Parents, base: set<nat>, path: seq<nat>, i: nat) {
    i + 1 < |path| ==> Next(p, base, path[i]) == Some(path[i+1])
  }

  /** Directories that were not connected before, each the parent of the one before it. */
  ghost predicate IsPath(p: Parents, base: set<nat>, k: set<nat>, path: seq<nat>) {
    && (forall i: nat :: FreshAt(p, k, path, i))
    && (forall i: nat :: LinkAt(p, base, path, i))
    && (forall i: nat, j: nat :: DistinctAt(path, i, j))
  }

  ghost predicate FreshAt(p: Parents, k: set<nat>, path: seq<nat>, i: nat) {
    i < |path| ==> path[i] in p && path[i] !in k
  }

  ghost predicate DistinctAt(path: seq<nat>, i: nat, j: nat) { i < j < |path| ==> path[i] != path[j] }

  ghost function PathSet(path: seq<nat>): set<nat> { set i | 0 <= i < |path| :: path[i] }

  /** The directory `x` has been stamped in the present walk. */
  ghost predicate StampedAt(loopOf: map<nat, nat>, loopNo: nat, path: seq<nat>, dp: nat, x: nat) {
    x in loopOf ==> (loopOf[x] == loopNo <==> path != [] && (x in path[1..] || x == dp))
  }

  ghost predicate WalkAt(p: Parents, base: set<nat>, k: set<nat>, dir: nat, path: seq<nat>, dp: nat,
                         connected: set<nat>, loopOf: map<nat, nat>, loopNo: nat) {
    && dp in p && base <= k && IsPath(p, base, k, path)
    && connected == k + PathSet(path)
    && (path == [] ==> dp == dir)
    && (path != [] ==> path[0] == dir && Next(p, base, path[|path|-1]) == Some(dp) && dp !in path[1..])
    && loopOf.Keys == p.Keys
    && forall x: nat :: StampedAt(loopOf, loopNo, path, dp, x)
  }

  /** What a walk over `path` from `dir` did. */
  ghost predicate Walked(p: Parents, base: set<nat>, k: set<nat>, lf: nat, dir: nat, path: seq<nat>, end: End,
                         p': Parents, k': set<nat>) {
    && IsPath(p, base, k, path) && k' == k + PathSet(path)
    && (path == [] ==> dir in k && p' == p)
    && (path != [] ==>
          && path[0] == dir
          && var last := path[|path|-1];
             match end
             case Joined => p' == p && Next(p, base, last).Some? && Next(p, base, last).value in k
             case Looped => p' == p && Next(p, base, last) == Some(dir)
             case Moved =>
               && p' == p[last := lf]
               && (Next(p, base, last).Some? ==> Next(p, base, last).value in path[1..]))
  }

  class DirTable {
    var parent: Parents
    var dotDot: Parents
    var connected: set<nat>
    var loopOf: map<nat, nat>
    var loopNo: nat
    const root: nat
    const sysdir: nat
    const lostFound: nat

    constructor (parent: Parents, dotDot: Parents, root: nat, sysdir: nat, lostFound: nat)
      ensures this.parent == parent && this.dotDot == dotDot && connected == {} && loopNo == 0
      ensures loopOf == map d | d in parent :: 0
      ensures this.root == root && this.sysdir == sysdir && this.lostFound == lostFound
    {
      this.parent, this.dotDot, this.connected, this.loopNo := parent, dotDot, {}, 0;
      this.loopOf := map d | d in parent :: 0;
      this.root, this.sysdir, this.lostFound := root, sysdir, lostFound;
    }

    ghost function Base(): set<nat> { {root, sysdir} }

    ghost predicate Stamps()
      reads this
    {
      loopOf.Keys == parent.Keys && forall d | d in loopOf :: loopOf[d] <= loopNo
    }

    /** Walks up from a directory until it meets one that is connected, or moves one to lost+found. */
    method ConnectDirectory(dir: nat) returns (ok: bool, ghost path: seq<nat>, ghost end: End)
      requires dir in parent && Base() <= connected <= parent.Keys && Stamps()
      modifies this`parent, this`connected, this`loopOf, this`loopNo
      ensures parent.Keys == old(parent).Keys && Base() <= connected <= parent.Keys && Stamps()
      ensures ok ==> Walked(old(parent), Base(), old(connected), lostFound, dir, path, end, parent, connected)
      ensures !ok ==> MissingParent(old(parent))
    {
      var dp, moved := dir, false;
      ok, path, end := true, [], Joined;
      loopNo := loopNo + 1;
      ghost var p, base, k := parent, Base(), connected;
      while !moved && dp !in connected
        invariant loopOf.Keys == p.Keys && forall d | d in loopOf :: loopOf[d] <= loopNo
        invariant base <= connected <= p.Keys && parent.Keys == p.Keys
        invariant !moved ==> parent == p && WalkAt(p, base, k, dir, path, dp, connected, loopOf, loopNo)
        invariant moved ==> end == Moved && Walked(p, base, k, lostFound, dir, path, end, parent, connected)
        decreases p.Keys - connected
      {
        ghost var path0, connected0 := path, connected;
        connected := connected + {dp};
        path := path + [dp];
        PathGrows(p, base, k, dir, path0, dp, connected0, loopOf, loopNo);
        var d := parent[dp];
        if d != 0 {
          if d !in parent {
            return false, path, end;
          }
          if loopOf[d] != loopNo {
            StampNext(p, base, k, dir, path0, dp, d, connected0, loopOf, loopNo);
            loopOf := loopOf[d := loopNo];
            dp := d;
            continue;
          }
        }
        end := Moved;
        MoveHere(p, base, k, lostFound, dir, path0, dp, connected0, loopOf, loopNo);
        parent := parent[dp := lostFound];
        moved := true;
      }
      if !moved {
        end := if path == [] || dp in k then Joined else Looped;
        WalkStops(p, base, k, lostFound, dir, path, dp, connected, loopOf, loopNo);
      }
    }

    /**
     Connects all directories, in ascending order, and makes every ".." agree with the parent.  A directory
     ends up below the root or the system directory unless it hangs on a cycle that stays: one of which a
     directory has the smallest number of all that lead there.
     */
    method Pass3(order: seq<nat>) returns (ok: bool)
      requires IsOrder(order, parent) && dotDot.Keys == parent.Keys && connected == {} && Stamps()
      requires root != 0 && sysdir != 0
      requires lostFound in parent && lostFound !in {0, root, sysdir} && parent[lostFound] == root
      modifies this
      ensures parent.Keys == old(parent).Keys
      ensures !ok ==> root !in parent || sysdir !in parent || MissingParent(old(parent))
      ensures ok ==> connected == parent.Keys
      ensures ok ==> PassResult(old(parent), parent, Base(), lostFound)
      ensures ok ==> dotDot == parent
    {
      ghost var p0, base := parent, Base();
      ok := root in parent && sysdir in parent;
      if !ok {
        return;
      }
      connected := {root, sysdir};
      var i := 0;
      NothingConnected(p0, base, lostFound);
      while i < |order|
        invariant i <= |order| && Stamps()
        invariant PassAt(p0, parent, dotDot, base, lostFound, connected, Bound(order, i))
      {
        OrderStep(order, p0, i, Bound(order, i), Bound(order, i + 1));
        ok := ConnectNext(order[i], p0, Bound(order, i), Bound(order, i + 1));
        if !ok {
          return;
        }
        i := i + 1;
      }
      PassDone(p0, parent, dotDot, base, lostFound, connected, order);
    }

    /** Connects one directory and corrects its "..". */
    method ConnectNext(dir: nat, ghost p0: Parents, ghost bound: nat, ghost bound': nat) returns (ok: bool)
      requires PassAt(p0, parent, dotDot, Base(), lostFound, connected, bound) && Stamps()
      requires dir in p0 && bound <= dir < bound' && forall d | d in p0 && d < bound' :: d < bound || d == dir
      modifies this
      ensures parent.Keys == p0.Keys && Stamps()
      ensures ok ==> PassAt(p0, parent, dotDot, Base(), lostFound, connected, bound')
      ensures !ok ==> MissingParent(p0)
    {
      ghost var p, k, dotDot0 := parent, connected, dotDot;
      ghost var path, end;
      ok, path, end := ConnectDirectory(dir);
      if !ok {
        StillMissing(p0, p, Base(), lostFound, k);
        return;
      }
      PassStep(p0, p, dotDot0, Base(), lostFound, k, dir, path, end, parent, connected, bound, bound');
      if parent[dir] != dotDot[dir] {
        dotDot := dotDot[dir := parent[dir]];
      }
      assert dotDot == dotDot0[dir := parent[dir]];
    }
  }

  lemma PathGrows(p: Parents, base: set<nat>, k: set<nat>, dir: nat, path: seq<nat>, dp: nat, connected: set<nat>,
                  loopOf: map<nat, nat>, loopNo: nat)
    requires WalkAt(p, base, k, dir, path, dp, connected, loopOf, loopNo) && dp !in connected
    ensures IsPath(p, base, k, path + [dp]) && (path + [dp])[0] == dir
    ensures connected + {dp} == k + PathSet(path + [dp])
  {
    var path' := path + [dp];
    forall i: nat
      ensures LinkAt(p, base, path', i) && FreshAt(p, k, path', i)
    {
      assert LinkAt(p, base, path, i) && FreshAt(p, k, path, i);
    }
    forall i: nat, j: nat
      ensures DistinctAt(path', i, j)
    {
      assert DistinctAt(path, i, j);
      assert i < |path| ==> path[i] in PathSet(path);
    }
    forall x: nat
      ensures x in PathSet(path') <==> x in PathSet(path) || x == dp
    {
      if x in PathSet(path) {
        var i :| 0 <= i < |path| && path[i] == x;
        assert path'[i] == x;
      }
      assert path'[|path|] == dp;
    }
  }

  lemma StampNext(p: Parents, base: set<nat>, k: set<nat>, dir: nat, path: seq<nat>, dp: nat, d: nat,
                  connected: set<nat>, loopOf: map<nat, nat>, loopNo: nat)
    requires WalkAt(p, base, k, dir, path, dp, connected, loopOf, loopNo) && dp !in connected
    requires p[dp] == d && d != 0 && d in p && loopOf[d] != loopNo
    ensures WalkAt(p, base, k, dir, path + [dp], d, connected + {dp}, loopOf[d := loopNo], loopNo)
  {
    var path' := path + [dp];
    PathGrows(p, base, k, dir, path, dp, connected, loopOf, loopNo);
    assert path'[|path'|-1] == dp;
    TailGrows(path, dp);
    assert StampedAt(loopOf, loopNo, path, dp, d);
    var loopOf' := loopOf[d := loopNo];
    forall x: nat
      ensures StampedAt(loopOf', loopNo, path', d, x)
    {
      assert StampedAt(loopOf, loopNo, path, dp, x);
    }
  }

  lemma TailGrows(path: seq<nat>, dp: nat)
    ensures path == [] ==> (path + [dp])[1..] == []
    ensures path != [] ==> (path + [dp])[1..] == path[1..] + [dp]
  {
  }

  lemma MoveHere(p: Parents, base: set<nat>, k: set<nat>, lf: nat, dir: nat, path: seq<nat>, dp: nat,
                 connected: set<nat>, loopOf: map<nat, nat>, loopNo: nat)
    requires WalkAt(p, base, k, dir, path, dp, connected, loopOf, loopNo) && dp !in connected
    requires p[dp] == 0 || (p[dp] in p && loopOf[p[dp]] == loopNo)
    ensures Walked(p, base, k, lf, dir, path + [dp], Moved, p[dp := lf], connected + {dp})
  {
    PathGrows(p, base, k, dir, path, dp, connected, loopOf, loopNo);
    TailGrows(path, dp);
    assert (path + [dp])[|path + [dp]|-1] == dp;
    assert p[dp] in p ==> StampedAt(loopOf, loopNo, path, dp, p[dp]);
  }

  lemma WalkStops(p: Parents, base: set<nat>, k: set<nat>, lf: nat, dir: nat, path: seq<nat>, dp: nat,
                  connected: set<nat>, loopOf: map<nat, nat>, loopNo: nat)
    requires WalkAt(p, base, k, dir, path, dp, connected, loopOf, loopNo) && dp in connected
    ensures Walked(p, base, k, lf, dir, path, if path == [] || dp in k then Joined else Looped, p, connected)
  {
    if path != [] && dp !in k {
      var i :| 0 <= i < |path| && path[i] == dp;
    }
  }

  // ---- the whole pass -----------------------------------------------------------------------

  /** The directories in ascending order. */
  ghost predicate IsOrder(order: seq<nat>, p: Parents) {
    && (forall d: nat :: InOrderAt(order, p, d))
    && (forall i: nat, j: nat :: AscendingAt(order, i, j))
  }

  ghost predicate InOrderAt(order: seq<nat>, p: Parents, d: nat) { d in order <==> d in p }

  ghost predicate AscendingAt(order: seq<nat>, i: nat, j: nat) { i < j < |order| ==> order[i] < order[j] }

  /** All directories below the bound come before index `i`. */
  ghost function Bound(order: seq<nat>, i: nat): nat
    requires i <= |order|
  {
    if i == 0 then 0 else order[i-1] + 1
  }

  /** A directory keeps its parent, or is moved because it had none or was on a cycle. */
  ghost predicate EdgeOk(p0: Parents, p: Parents, base: set<nat>, lf: nat, d: nat)
    requires d in p0 && d in p
  {
    || (p0[d] != 0 && p[d] == p0[d])
    || (p[d] == lf && (p0[d] == 0 || OnCycle(p0, base, d)))
  }

  /** The link of a directory to its parent has been given up. */
  ghost predicate Cut(p0: Parents, p: Parents, base: set<nat>, d: nat)
    requires d in p0 && d in p
  {
    d !in base && p0[d] != 0 && p[d] != p0[d]
  }

  ghost predicate LedFromBelow(p: Parents, base: set<nat>, s: nat) {
    exists d | d in p && d < s :: Leads(p, base, d, s)
  }

  /** A directory on a cycle that is the first of all that lead there. */
  ghost predicate Bad(p: Parents, base: set<nat>, s: nat) {
    s in p && OnCycle(p, base, s) && !LedFromBelow(p, base, s)
  }

  ghost predicate StuckAt(p0: Parents, p: Parents, base: set<nat>, s: nat, n: nat) {
    Up(p, base, s, n) == Up(p0, base, s, n)
  }

  ghost predicate Stuck(p0: Parents, p: Parents, base: set<nat>, s: nat) { forall n: nat :: StuckAt(p0, p, base, s, n) }

  ghost predicate StartedAt(p0: Parents, base: set<nat>, bound: nat, x: nat) {
    exists d | d in p0 && d < bound :: Leads(p0, base, d, x)
  }

  /** The shape of the graph while the directories in `k` are connected. */
  ghost predicate Shape(p0: Parents, p: Parents, base: set<nat>, lf: nat, k: set<nat>) {
    && p.Keys == p0.Keys && base <= k <= p.Keys && Closed(p0, base, k)
    && lf in p && lf != 0 && Next(p0, base, lf).Some? && Next(p0, base, lf).value in base && 0 !in base
    && (forall d: nat :: EdgeAt(p0, p, base, lf, k, d))
  }

  ghost predicate EdgeAt(p0: Parents, p: Parents, base: set<nat>, lf: nat, k: set<nat>, d: nat) {
    d in p && d in p0 ==> if d in k && d !in base then EdgeOk(p0, p, base, lf, d) else p[d] == p0[d]
  }

  ghost predicate OneCut(p0: Parents, p: Parents, base: set<nat>, k: set<nat>)
    requires k <= p0.Keys && k <= p.Keys
  {
    forall x: nat, y: nat :: OneCutAt(p0, p, base, k, x, y)
  }

  ghost predicate OneCutAt(p0: Parents, p: Parents, base: set<nat>, k: set<nat>, x: nat, y: nat)
    requires k <= p0.Keys && k <= p.Keys
  {
    x in k && y in k && Cut(p0, p, base, x) && Cut(p0, p, base, y) && Leads(p0, base, x, y) ==> x == y
  }

  /** The directory hangs on a cycle whose first directory is on the cycle itself. */
  ghost predicate LedToBad(p0: Parents, base: set<nat>, d: nat) { exists s: nat :: BadFor(p0, base, d, s) }

  ghost predicate BadFor(p0: Parents, base: set<nat>, d: nat, s: nat) { Bad(p0, base, s) && Leads(p0, base, d, s) }

  ghost predicate ReachAt(p0: Parents, p: Parents, base: set<nat>, k: set<nat>, d: nat) {
    d in k ==> Reaches(p, base, d) || LedToBad(p0, base, d)
  }

  ghost predicate ReachOrBad(p0: Parents, p: Parents, base: set<nat>, k: set<nat>) {
    forall d: nat :: ReachAt(p0, p, base, k, d)
  }

  /** What holds when all directories below the bound have been walked. */
  ghost predicate Connected(p0: Parents, p: Parents, base: set<nat>, lf: nat, k: set<nat>, bound: nat) {
    && Shape(p0, p, base, lf, k) && OneCut(p0, p, base, k)
    && (forall d: nat :: ProgressAt(p0, p, base, k, bound, d))
    && ReachOrBad(p0, p, base, k)
  }

  /** The connected directories are the ones that those below the bound lead to; a bad cycle stays. */
  ghost predicate ProgressAt(p0: Parents, p: Parents, base: set<nat>, k: set<nat>, bound: nat, d: nat) {
    && (d in k && d !in base ==> StartedAt(p0, base, bound, d))
    && (d in p0 && d < bound ==> d in k)
    && (d < bound && Bad(p0, base, d) ==> Stuck(p0, p, base, d))
  }

  ghost predicate MissingParent(p: Parents) { exists d | d in p :: p[d] != 0 && p[d] !in p }

  lemma StillMissing(p0: Parents, p: Parents, base: set<nat>, lf: nat, k: set<nat>)
    requires Shape(p0, p, base, lf, k) && MissingParent(p)
    ensures MissingParent(p0)
  {
    var d :| d in p && p[d] != 0 && p[d] !in p;
    assert EdgeAt(p0, p, base, lf, k, d);
  }

  lemma NothingConnected(p: Parents, base: set<nat>, lf: nat)
    requires Shape(p, p, base, lf, base)
    ensures Connected(p, p, base, lf, base, 0)
  {
    forall d: nat
      ensures ReachAt(p, p, base, base, d)
    {
      LeadsSelf(p, base, d);
    }
  }

  /** On directories that are not connected yet the graph is as it was. */
  lemma SameNext(p0: Parents, p: Parents, base: set<nat>, lf: nat, k: set<nat>, path: seq<nat>)
    requires Shape(p0, p, base, lf, k) && IsPath(p, base, k, path)
    ensures IsPath(p0, base, k, path)
    ensures forall i | 0 <= i < |path| :: Next(p0, base, path[i]) == Next(p, base, path[i])
  {
    forall i: nat
      ensures LinkAt(p0, base, path, i) && FreshAt(p0, k, path, i)
      ensures i < |path| ==> Next(p0, base, path[i]) == Next(p, base, path[i])
    {
      assert LinkAt(p, base, path, i) && FreshAt(p, k, path, i);
      assert i < |path| ==> EdgeAt(p0, p, base, lf, k, path[i]);
    }
  }

  lemma {:induction false} PathLeads(p: Parents, base: set<nat>, k: set<nat>, path: seq<nat>, i: nat, j: nat)
    requires IsPath(p, base, k, path) && i <= j < |path|
    ensures Leads(p, base, path[i], path[j])
    decreases j
  {
    if i == j {
      LeadsSelf(p, base, path[i]);
    } else {
      PathLeads(p, base, k, path, i, j - 1);
      assert LinkAt(p, base, path, j - 1);
      LeadsNext(p, base, path[j-1]);
      LeadsOn(p, base, path[i], path[j-1], path[j]);
    }
  }

  lemma TailIndex(path: seq<nat>, x: nat) returns (j: nat)
    requires path != [] && x in path[1..]
    ensures 0 < j < |path| && path[j] == x
  {
    var i :| 0 <= i < |path[1..]| && path[1..][i] == x;
    j := i + 1;
  }

  /** Every directory on the path has its parent among the connected ones. */
  lemma PathClosed(p0: Parents, base: set<nat>, k: set<nat>, lf: nat, dir: nat, path: seq<nat>, end: End, p': Parents,
                   k': set<nat>)
    requires Closed(p0, base, k) && Walked(p0, base, k, lf, dir, path, end, p', k')
    ensures Closed(p0, base, k')
  {
    forall d: nat
      ensures ClosedAt(p0, base, k', d)
    {
      assert ClosedAt(p0, base, k, d);
      if d in k' && d !in k && Next(p0, base, d).Some? {
        var i :| 0 <= i < |path| && path[i] == d;
        if i + 1 < |path| {
          assert LinkAt(p0, base, path, i);
          assert path[i+1] in PathSet(path);
        } else if end == Looped {
          assert path[0] in PathSet(path);
        } else if end == Moved {
          var j := TailIndex(path, Next(p0, base, d).value);
          assert path[j] in PathSet(path);
        }
      }
    }
  }

  /** A directory that is moved had no parent or was on a cycle. */
  lemma MovedOnCycle(p0: Parents, base: set<nat>, k: set<nat>, lf: nat, dir: nat, path: seq<nat>, p': Parents,
                     k': set<nat>)
    requires path != [] && Walked(p0, base, k, lf, dir, path, Moved, p', k')
    ensures var last := path[|path|-1]; Next(p0, base, last).None? || OnCycle(p0, base, last)
  {
    var last := path[|path|-1];
    if Next(p0, base, last).Some? {
      var j := TailIndex(path, Next(p0, base, last).value);
      PathLeads(p0, base, k, path, j, |path| - 1);
    }
  }

  /** The walk in terms of the graph before the pass. */
  lemma WalkedBefore(p0: Parents, p: Parents, base: set<nat>, lf: nat, k: set<nat>, dir: nat, path: seq<nat>, end: End,
                     p': Parents, k': set<nat>)
    requires Shape(p0, p, base, lf, k) && Walked(p, base, k, lf, dir, path, end, p', k')
    ensures exists q :: Walked(p0, base, k, lf, dir, path, end, q, k')
  {
    SameNext(p0, p, base, lf, k, path);
    var q := if path != [] && end == Moved then p0[path[|path|-1] := lf] else p0;
    assert Walked(p0, base, k, lf, dir, path, end, q, k');
  }

  lemma ShapeStep(p0: Parents, p: Parents, base: set<nat>, lf: nat, k: set<nat>, dir: nat, path: seq<nat>, end: End,
                  p': Parents, k': set<nat>)
    requires Shape(p0, p, base, lf, k) && Walked(p, base, k, lf, dir, path, end, p', k')
    ensures Shape(p0, p', base, lf, k')
    ensures forall d | d in k :: p'[d] == p[d]
  {
    WalkedBefore(p0, p, base, lf, k, dir, path, end, p', k');
    var q :| Walked(p0, base, k, lf, dir, path, end, q, k');
    SameNext(p0, p, base, lf, k, path);
    PathClosed(p0, base, k, lf, dir, path, end, q, k');
    forall d | d in k'
      ensures d in p
    {
      if d !in k {
        var i :| 0 <= i < |path| && path[i] == d;
        assert FreshAt(p, k, path, i);
      }
    }
    if path != [] && end == Moved {
      MovedOnCycle(p0, base, k, lf, dir, path, q, k');
      assert path[|path|-1] in PathSet(path);
    }
    forall d: nat
      ensures EdgeAt(p0, p', base, lf, k', d)
      ensures d in k ==> p'[d] == p[d]
    {
      assert EdgeAt(p0, p, base, lf, k, d);
      assert path != [] ==> FreshAt(p, k, path, |path| - 1);
      if d in k' && d !in k {
        var i :| 0 <= i < |path| && path[i] == d;
        assert LinkAt(p0, base, path, i) && DistinctAt(path, i, |path| - 1);
      }
    }
  }

  /** Of all the links of a cycle at most one is given up. */
  lemma OneCutStep(p0: Parents, p: Parents, base: set<nat>, lf: nat, k: set<nat>, dir: nat, path: seq<nat>, end: End,
                   p': Parents, k': set<nat>)
    requires Shape(p0, p, base, lf, k) && Shape(p0, p', base, lf, k') && OneCut(p0, p, base, k)
    requires Walked(p, base, k, lf, dir, path, end, p', k') && forall d | d in k :: p'[d] == p[d]
    ensures OneCut(p0, p', base, k')
  {
    forall x: nat, y: nat
      ensures OneCutAt(p0, p', base, k', x, y)
    {
      if x in k' && y in k' && Cut(p0, p', base, x) && Cut(p0, p', base, y) && Leads(p0, base, x, y) {
        if x in k {
          ClosedKeeps(p0, base, k, x, y);
          assert OneCutAt(p0, p, base, k, x, y);
        } else if y in k {
          assert EdgeAt(p0, p', base, lf, k', x);
          CycleLeadsBack(p0, base, x, y);
          ClosedKeeps(p0, base, k, y, x);
        } else {
          CutIsLast(p0, p, base, lf, k, dir, path, end, p', k', x);
          CutIsLast(p0, p, base, lf, k, dir, path, end, p', k', y);
        }
      }
    }
  }

  lemma CutIsLast(p0: Parents, p: Parents, base: set<nat>, lf: nat, k: set<nat>, dir: nat, path: seq<nat>, end: End,
                  p': Parents, k': set<nat>, x: nat)
    requires Shape(p0, p, base, lf, k) && Shape(p0, p', base, lf, k') && Walked(p, base, k, lf, dir, path, end, p', k')
    requires x in k' && x !in k && Cut(p0, p', base, x)
    ensures path != [] && x == path[|path|-1]
  {
    assert EdgeAt(p0, p, base, lf, k, x);
  }

  lemma CycleLeadsBack(p: Parents, base: set<nat>, x: nat, y: nat)
    requires OnCycle(p, base, x) && Leads(p, base, x, y)
    ensures Leads(p, base, y, x)
  {
    var n: nat :| UpIs(p, base, x, n, y);
    CycleBack(p, base, x, n, y);
    LeadsNext(p, base, y);
    LeadsOn(p, base, y, Next(p, base, y).value, x);
  }

  lemma StartedStep(p0: Parents, p: Parents, base: set<nat>, lf: nat, k: set<nat>, dir: nat, path: seq<nat>, end: End,
                    p': Parents, k': set<nat>, bound: nat, bound': nat, x: nat)
    requires Shape(p0, p, base, lf, k) && Walked(p, base, k, lf, dir, path, end, p', k') && dir in p0
    requires bound <= bound' && dir < bound'
    requires x in k' && x !in base && (x in k ==> StartedAt(p0, base, bound, x))
    ensures StartedAt(p0, base, bound', x)
  {
    if x !in k {
      var i :| 0 <= i < |path| && path[i] == x;
      SameNext(p0, p, base, lf, k, path);
      PathLeads(p0, base, k, path, 0, i);
    }
  }

  // ---- reaching the root --------------------------------------------------------------------

  /** Connected directories and lost+found lead nowhere else. */
  lemma NearClosed(p0: Parents, p: Parents, base: set<nat>, lf: nat, k: set<nat>)
    requires Shape(p0, p, base, lf, k) && Next(p, base, lf) == Next(p0, base, lf)
    ensures Closed(p, base, k + {lf})
  {
    var near := k + {lf};
    forall d: nat
      ensures ClosedAt(p, base, near, d)
    {
      assert EdgeAt(p0, p, base, lf, k, d) && ClosedAt(p0, base, k, d);
    }
  }

  /** Lost+found is never moved. */
  lemma LostFoundStays(p0: Parents, p: Parents, base: set<nat>, lf: nat, k: set<nat>)
    requires Shape(p0, p, base, lf, k)
    ensures Next(p, base, lf) == Next(p0, base, lf)
  {
    assert EdgeAt(p0, p, base, lf, k, lf);
    if lf in k {
      var r := Next(p0, base, lf).value;
      if OnCycle(p0, base, lf) {
        var n: nat :| UpIs(p0, base, r, n, lf);
        BaseStays(p0, base, r, n);
      }
    }
  }

  lemma {:induction false} BaseStays(p: Parents, base: set<nat>, r: nat, n: nat)
    requires r in base
    ensures n > 0 ==> Up(p, base, r, n) == None
  {
    if n > 1 {
      BaseStays(p, base, r, n - 1);
    } else if n == 1 {
      assert Up(p, base, r, 0) == Some(r);
    }
  }

  lemma LeadsReaches(p: Parents, base: set<nat>, d: nat, x: nat)
    requires Leads(p, base, d, x) && Reaches(p, base, x)
    ensures Reaches(p, base, d)
  {
    var r :| r in base && Leads(p, base, x, r);
    LeadsOn(p, base, d, x, r);
  }

  /** What reached the root before a move still does. */
  lemma StillReaches(p0: Parents, p: Parents, base: set<nat>, lf: nat, k: set<nat>, p': Parents, d: nat)
    requires Shape(p0, p, base, lf, k) && d in k && Reaches(p, base, d)
    requires p'.Keys == p.Keys && (forall x | x in k :: p'[x] == p[x]) && Next(p', base, lf) == Next(p, base, lf)
    ensures Reaches(p', base, d)
  {
    LostFoundStays(p0, p, base, lf, k);
    NearClosed(p0, p, base, lf, k);
    var r :| r in base && Leads(p, base, d, r);
    var n: nat :| UpIs(p, base, d, n, r);
    UpSame(p, p', base, k + {lf}, d, n);
    assert UpIs(p', base, d, n, r);
    assert Leads(p', base, d, r);
  }

  lemma LostFoundReaches(p0: Parents, p: Parents, base: set<nat>, lf: nat, k: set<nat>)
    requires Shape(p0, p, base, lf, k)
    ensures Reaches(p, base, lf)
  {
    LostFoundStays(p0, p, base, lf, k);
    LeadsNext(p, base, lf);
  }

  /** All directories of a walk reach the root, or hang on a cycle that stays. */
  lemma PathReaches(p0: Parents, p: Parents, base: set<nat>, lf: nat, k: set<nat>, dir: nat, path: seq<nat>, end: End,
                    p': Parents, k': set<nat>, i: nat)
    requires Shape(p0, p, base, lf, k) && Shape(p0, p', base, lf, k') && ReachOrBad(p0, p, base, k)
    requires Walked(p, base, k, lf, dir, path, end, p', k') && i < |path| && (end == Looped ==> Bad(p0, base, dir))
    ensures Reaches(p', base, path[i]) || LedToBad(p0, base, path[i])
  {
    var m := |path| - 1;
    var last := path[m];
    assert FreshAt(p, k, path, m);
    if end == Moved {
      assert last !in base;
      assert Next(p', base, last) == Some(lf);
      LeadsNext(p', base, last);
      LostFoundReaches(p0, p', base, lf, k');
      LeadsReaches(p', base, last, lf);
      MovedPath(p, base, k, lf, path, p');
      PathLeads(p', base, k, path, i, m);
      LeadsReaches(p', base, path[i], last);
    } else {
      PathJoins(p0, p, base, lf, k, path, i, Next(p, base, last).value);
    }
  }

  /** What a walk leads to decides for all of its directories. */
  lemma PathJoins(p0: Parents, p: Parents, base: set<nat>, lf: nat, k: set<nat>, path: seq<nat>, i: nat, y: nat)
    requires Shape(p0, p, base, lf, k) && IsPath(p, base, k, path) && i < |path|
    requires Next(p, base, path[|path|-1]) == Some(y)
    requires (y in k && ReachAt(p0, p, base, k, y)) || Bad(p0, base, y)
    ensures Reaches(p, base, path[i]) || LedToBad(p0, base, path[i])
  {
    var m := |path| - 1;
    SameNext(p0, p, base, lf, k, path);
    PathLeads(p, base, k, path, i, m);
    PathLeads(p0, base, k, path, i, m);
    LeadsNext(p, base, path[m]);
    LeadsNext(p0, base, path[m]);
    LeadsOn(p, base, path[i], path[m], y);
    LeadsOn(p0, base, path[i], path[m], y);
    if Reaches(p, base, y) {
      LeadsReaches(p, base, path[i], y);
    } else if Bad(p0, base, y) {
      assert BadFor(p0, base, path[i], y);
    } else {
      var s: nat :| BadFor(p0, base, y, s);
      LeadsOn(p0, base, path[i], y, s);
      assert BadFor(p0, base, path[i], s);
    }
  }

  lemma MovedPath(p: Parents, base: set<nat>, k: set<nat>, lf: nat, path: seq<nat>, p': Parents)
    requires path != [] && IsPath(p, base, k, path) && p' == p[path[|path|-1] := lf]
    ensures IsPath(p', base, k, path)
  {
    forall i: nat
      ensures LinkAt(p', base, path, i) && FreshAt(p', k, path, i)
    {
      assert LinkAt(p, base, path, i) && FreshAt(p, k, path, i) && DistinctAt(path, i, |path| - 1);
    }
  }

  lemma ReachStep(p0: Parents, p: Parents, base: set<nat>, lf: nat, k: set<nat>, dir: nat, path: seq<nat>, end: End,
                  p': Parents, k': set<nat>)
    requires Shape(p0, p, base, lf, k) && Shape(p0, p', base, lf, k') && ReachOrBad(p0, p, base, k)
    requires Walked(p, base, k, lf, dir, path, end, p', k') && (path != [] && end == Looped ==> Bad(p0, base, dir))
    requires forall d | d in k :: p'[d] == p[d]
    ensures ReachOrBad(p0, p', base, k')
  {
    LostFoundStays(p0, p, base, lf, k);
    LostFoundStays(p0, p', base, lf, k');
    forall d: nat
      ensures ReachAt(p0, p', base, k', d)
    {
      if d in k {
        assert ReachAt(p0, p, base, k, d);
        if Reaches(p, base, d) {
          StillReaches(p0, p, base, lf, k, p', d);
        }
      } else if d in k' {
        var i :| 0 <= i < |path| && path[i] == d;
        PathReaches(p0, p, base, lf, k, dir, path, end, p', k', i);
      }
    }
  }

  // ---- cycles that stay ---------------------------------------------------------------------

  /** A walk that comes back to its start has found the first directory that leads to a cycle. */
  lemma LoopedIsBad(p0: Parents, p: Parents, base: set<nat>, lf: nat, k: set<nat>, dir: nat, path: seq<nat>,
                    p': Parents, k': set<nat>)
    requires Shape(p0, p, base, lf, k) && path != [] && Walked(p, base, k, lf, dir, path, Looped, p', k')
    requires forall d | d in p0 && d < dir :: d in k
    ensures Bad(p0, base, dir)
  {
    SameNext(p0, p, base, lf, k, path);
    if |path| == 1 {
      LeadsSelf(p0, base, dir);
    } else {
      assert LinkAt(p0, base, path, 0);
      PathLeads(p0, base, k, path, 1, |path| - 1);
      LeadsNext(p0, base, path[|path|-1]);
      LeadsOn(p0, base, path[1], path[|path|-1], dir);
    }
    assert FreshAt(p, k, path, 0);
    forall d | d in p0 && d < dir
      ensures !Leads(p0, base, d, dir)
    {
      if Leads(p0, base, d, dir) {
        ClosedKeeps(p0, base, k, d, dir);
      }
    }
  }

  /** The walk from such a directory goes once around the cycle and changes nothing. */
  lemma BadLoops(p0: Parents, p: Parents, base: set<nat>, lf: nat, k: set<nat>, dir: nat, path: seq<nat>, end: End,
                 p': Parents, k': set<nat>)
    requires Shape(p0, p, base, lf, k) && Walked(p, base, k, lf, dir, path, end, p', k') && Bad(p0, base, dir)
    requires dir !in base ==> (dir in k ==> StartedAt(p0, base, dir, dir))
    ensures path != [] && end == Looped
  {
    assert dir !in k;
    assert FreshAt(p, k, path, 0);
    SameNext(p0, p, base, lf, k, path);
    var last := path[|path|-1];
    PathLeads(p0, base, k, path, 0, |path| - 1);
    CycleLeadsBack(p0, base, dir, last);
    if end == Joined {
      var y := Next(p0, base, last).value;
      LeadsNext(p0, base, last);
      LeadsOn(p0, base, dir, last, y);
      CycleLeadsBack(p0, base, dir, y);
      ClosedKeeps(p0, base, k, y, dir);
    } else if end == Moved {
      TailNeverStarts(p0, base, k, dir, path);
    }
  }

  /** From the end of a path that runs into its own tail there is no way back to the start. */
  lemma TailNeverStarts(p: Parents, base: set<nat>, k: set<nat>, dir: nat, path: seq<nat>)
    requires path != [] && path[0] == dir && IsPath(p, base, k, path)
    requires var last := path[|path|-1]; Next(p, base, last).Some? ==> Next(p, base, last).value in path[1..]
    ensures !OnCycle(p, base, dir)
  {
    if OnCycle(p, base, dir) {
      var last := path[|path|-1];
      PathLeads(p, base, k, path, 0, |path| - 1);
      var n: nat :| UpIs(p, base, dir, n, last);
      CycleBack(p, base, dir, n, last);
      var y := Next(p, base, last).value;
      var tail := PathSet(path[1..]);
      var j := TailIndex(path, y);
      assert path[1..][j-1] == y;
      TailClosed(p, base, k, path, tail);
      StartNotInTail(p, base, k, path);
      ClosedKeeps(p, base, tail, y, dir);
    }
  }

  lemma StartNotInTail(p: Parents, base: set<nat>, k: set<nat>, path: seq<nat>)
    requires path != [] && IsPath(p, base, k, path)
    ensures path[0] !in PathSet(path[1..])
  {
    forall i | 0 <= i < |path[1..]|
      ensures path[1..][i] != path[0]
    {
      assert DistinctAt(path, 0, i + 1);
    }
  }

  lemma TailClosed(p: Parents, base: set<nat>, k: set<nat>, path: seq<nat>, tail: set<nat>)
    requires path != [] && IsPath(p, base, k, path) && tail == PathSet(path[1..])
    requires var last := path[|path|-1]; Next(p, base, last).Some? ==> Next(p, base, last).value in path[1..]
    ensures Closed(p, base, tail)
  {
    forall d: nat
      ensures ClosedAt(p, base, tail, d)
    {
      if d in tail && Next(p, base, d).Some? {
        var i :| 0 <= i < |path[1..]| && path[1..][i] == d;
        assert d == path[i+1];
        if i + 2 < |path| {
          assert LinkAt(p, base, path, i + 1);
          assert path[1..][i+1] == path[i+2];
        } else {
          var x := Next(p, base, d).value;
          var m :| 0 <= m < |path[1..]| && path[1..][m] == x;
        }
      }
    }
  }

  /** From a connected directory of a cycle that stays, nothing that changes later is met. */
  lemma StuckStep(p0: Parents, p: Parents, base: set<nat>, lf: nat, k: set<nat>, p': Parents, s: nat)
    requires Shape(p0, p, base, lf, k) && s in k && Stuck(p0, p, base, s)
    requires p'.Keys == p.Keys && forall x | x in k :: p'[x] == p[x]
    ensures Stuck(p0, p', base, s)
  {
    forall n: nat
      ensures StuckAt(p0, p', base, s, n)
    {
      StuckUp(p0, p, base, lf, k, p', s, n);
    }
  }

  lemma {:induction false} StuckUp(p0: Parents, p: Parents, base: set<nat>, lf: nat, k: set<nat>, p': Parents, s: nat,
                                   n: nat)
    requires Shape(p0, p, base, lf, k) && s in k && Stuck(p0, p, base, s)
    requires p'.Keys == p.Keys && forall x | x in k :: p'[x] == p[x]
    ensures StuckAt(p0, p', base, s, n)
  {
    if n > 0 {
      StuckUp(p0, p, base, lf, k, p', s, n - 1);
      ClosedLeads(p0, base, k, s, n - 1);
      assert StuckAt(p0, p, base, s, n) && StuckAt(p0, p, base, s, n - 1);
    }
  }

  lemma NewlyStuck(p0: Parents, p: Parents, base: set<nat>, lf: nat, k: set<nat>, dir: nat, path: seq<nat>,
                   p': Parents, k': set<nat>)
    requires Shape(p0, p, base, lf, k) && path != [] && Walked(p, base, k, lf, dir, path, Looped, p', k')
    ensures Stuck(p0, p', base, dir)
  {
    SameNext(p0, p, base, lf, k, path);
    var ring := PathSet(path);
    assert Closed(p0, base, ring) by {
      forall d: nat
        ensures ClosedAt(p0, base, ring, d)
      {
        if d in ring && Next(p0, base, d).Some? {
          var i :| 0 <= i < |path| && path[i] == d;
          if i + 1 < |path| {
            assert LinkAt(p0, base, path, i);
            assert path[i+1] in ring;
          } else {
            assert path[0] in ring;
          }
        }
      }
    }
    assert path[0] in ring;
    forall n: nat
      ensures StuckAt(p0, p', base, dir, n)
    {
      UpSame(p0, p', base, ring, dir, n);
    }
  }

  /** A cycle that stays does not reach the root. */
  lemma StuckNeverReaches(p0: Parents, p: Parents, base: set<nat>, s: nat)
    requires OnCycle(p0, base, s) && Stuck(p0, p, base, s)
    ensures !Reaches(p, base, s)
  {
    if Reaches(p, base, s) {
      var r :| r in base && Leads(p, base, s, r);
      var n: nat :| UpIs(p, base, s, n, r);
      assert StuckAt(p0, p, base, s, n);
      CycleBack(p0, base, s, n, r);
    }
  }

  // ---- putting it together ------------------------------------------------------------------

  /** One walk keeps what holds between walks. */
  lemma WalkStep(p0: Parents, p: Parents, base: set<nat>, lf: nat, k: set<nat>, dir: nat, path: seq<nat>, end: End,
                 p': Parents, k': set<nat>, bound: nat, bound': nat)
    requires Connected(p0, p, base, lf, k, bound) && Walked(p, base, k, lf, dir, path, end, p', k') && dir in p0
    requires bound <= dir < bound' && forall d | d in p0 && d < bound' :: d < bound || d == dir
    ensures Connected(p0, p', base, lf, k', bound')
    ensures forall d | d in k :: p'[d] == p[d]
  {
    ShapeStep(p0, p, base, lf, k, dir, path, end, p', k');
    OneCutStep(p0, p, base, lf, k, dir, path, end, p', k');
    ReachNext(p0, p, base, lf, k, dir, path, end, p', k', bound, bound');
    forall d: nat
      ensures ProgressAt(p0, p', base, k', bound', d)
    {
      ProgressStep(p0, p, base, lf, k, dir, path, end, p', k', bound, bound', d);
    }
  }

  lemma ProgressStep(p0: Parents, p: Parents, base: set<nat>, lf: nat, k: set<nat>, dir: nat, path: seq<nat>, end: End,
                     p': Parents, k': set<nat>, bound: nat, bound': nat, d: nat)
    requires Connected(p0, p, base, lf, k, bound) && Walked(p, base, k, lf, dir, path, end, p', k') && dir in p0
    requires bound <= dir < bound' && forall d | d in p0 && d < bound' :: d < bound || d == dir
    requires Shape(p0, p', base, lf, k') && forall d | d in k :: p'[d] == p[d]
    ensures ProgressAt(p0, p', base, k', bound', d)
  {
    assert ProgressAt(p0, p, base, k, bound, d);
    if d in k' && d !in base {
      StartedStep(p0, p, base, lf, k, dir, path, end, p', k', bound, bound', d);
    }
    assert path != [] ==> path[0] in PathSet(path);
    if d < bound' && Bad(p0, base, d) {
      BadStaysStuck(p0, p, base, lf, k, dir, path, end, p', k', bound, bound', d);
    }
  }

  lemma ReachNext(p0: Parents, p: Parents, base: set<nat>, lf: nat, k: set<nat>, dir: nat, path: seq<nat>, end: End,
                  p': Parents, k': set<nat>, bound: nat, bound': nat)
    requires Connected(p0, p, base, lf, k, bound) && Walked(p, base, k, lf, dir, path, end, p', k') && dir in p0
    requires bound <= dir < bound' && forall d | d in p0 && d < bound' :: d < bound || d == dir
    requires Shape(p0, p', base, lf, k') && forall d | d in k :: p'[d] == p[d]
    ensures ReachOrBad(p0, p', base, k')
  {
    if path != [] && end == Looped {
      forall d | d in p0 && d < dir
        ensures d in k
      {
        assert ProgressAt(p0, p, base, k, bound, d);
      }
      LoopedIsBad(p0, p, base, lf, k, dir, path, p', k');
    }
    ReachStep(p0, p, base, lf, k, dir, path, end, p', k');
  }

  lemma BadStaysStuck(p0: Parents, p: Parents, base: set<nat>, lf: nat, k: set<nat>, dir: nat, path: seq<nat>, end: End,
                      p': Parents, k': set<nat>, bound: nat, bound': nat, s: nat)
    requires Connected(p0, p, base, lf, k, bound) && Walked(p, base, k, lf, dir, path, end, p', k') && dir in p0
    requires bound <= dir < bound' && forall d | d in p0 && d < bound' :: d < bound || d == dir
    requires Shape(p0, p', base, lf, k') && forall d | d in k :: p'[d] == p[d]
    requires s < bound' && Bad(p0, base, s)
    ensures Stuck(p0, p', base, s)
  {
    assert ProgressAt(p0, p, base, k, bound, s);
    if s < bound {
      StuckStep(p0, p, base, lf, k, p', s);
    } else {
      BelowStarted(p0, base, bound, dir);
      BadLoops(p0, p, base, lf, k, dir, path, end, p', k');
      NewlyStuck(p0, p, base, lf, k, dir, path, p', k');
    }
  }

  lemma BelowStarted(p0: Parents, base: set<nat>, bound: nat, dir: nat)
    requires bound <= dir
    ensures StartedAt(p0, base, bound, dir) ==> StartedAt(p0, base, dir, dir)
  {
  }

  lemma OrderStep(order: seq<nat>, p: Parents, i: nat, bound: nat, bound': nat)
    requires i < |order| && IsOrder(order, p) && bound == Bound(order, i) && bound' == Bound(order, i + 1)
    ensures order[i] in p && bound <= order[i] < bound'
    ensures forall d | d in p && d < bound' :: d < bound || d == order[i]
  {
    assert InOrderAt(order, p, order[i]);
    assert i > 0 ==> AscendingAt(order, i - 1, i);
    forall d | d in p && d < bound'
      ensures d < bound || d == order[i]
    {
      assert InOrderAt(order, p, d);
      var j :| 0 <= j < |order| && order[j] == d;
      assert AscendingAt(order, i, j) && (i > 0 ==> AscendingAt(order, j, i - 1));
    }
  }

  lemma OrderEnd(order: seq<nat>, p: Parents)
    requires IsOrder(order, p)
    ensures forall d | d in p :: d < Bound(order, |order|)
  {
    forall d | d in p
      ensures d < Bound(order, |order|)
    {
      assert InOrderAt(order, p, d);
      var j :| 0 <= j < |order| && order[j] == d;
      assert AscendingAt(order, j, |order| - 1);
    }
  }

  ghost predicate DotDotAt(dotDot: Parents, p: Parents, bound: nat, d: nat) {
    d < bound && d in p && d in dotDot ==> dotDot[d] == p[d]
  }

  /** The first `i` directories of the order are connected and their ".." is right. */
  ghost predicate PassAt(p0: Parents, p: Parents, dotDot: Parents, base: set<nat>, lf: nat, k: set<nat>, bound: nat) {
    && p.Keys == p0.Keys == dotDot.Keys
    && Connected(p0, p, base, lf, k, bound)
    && forall d: nat :: DotDotAt(dotDot, p, bound, d)
  }

  lemma PassStep(p0: Parents, p: Parents, dotDot: Parents, base: set<nat>, lf: nat, k: set<nat>, dir: nat,
                 path: seq<nat>, end: End, p': Parents, k': set<nat>, bound: nat, bound': nat)
    requires PassAt(p0, p, dotDot, base, lf, k, bound) && Walked(p, base, k, lf, dir, path, end, p', k')
    requires dir in p0 && dir in p'
    requires bound <= dir < bound' && forall d | d in p0 && d < bound' :: d < bound || d == dir
    ensures PassAt(p0, p', dotDot[dir := p'[dir]], base, lf, k', bound')
  {
    WalkStep(p0, p, base, lf, k, dir, path, end, p', k', bound, bound');
    var dotDot' := dotDot[dir := p'[dir]];
    forall d: nat
      ensures DotDotAt(dotDot', p', bound', d)
    {
      assert DotDotAt(dotDot, p, bound, d) && ProgressAt(p0, p, base, k, bound, d);
    }
  }

  ghost predicate EdgesOk(p0: Parents, p: Parents, base: set<nat>, lf: nat) {
    p.Keys == p0.Keys && forall d | d in p && d !in base :: EdgeOk(p0, p, base, lf, d)
  }

  /** The way to a cycle that stays is not changed. */
  lemma {:induction false} StillLedToStuck(p0: Parents, p: Parents, base: set<nat>, lf: nat, d: nat, m: nat, s: nat)
    requires EdgesOk(p0, p, base, lf) && OnCycle(p0, base, s) && Stuck(p0, p, base, s) && UpIs(p0, base, d, m, s)
    ensures UpIs(p, base, d, m, s)
    decreases m
  {
    if m > 0 {
      UpSome(p0, base, d, 1, m);
      var y := Next(p0, base, d).value;
      assert Up(p0, base, d, 0) == Some(d) && Up(p, base, d, 0) == Some(d);
      assert UpIs(p0, base, d, 1, y);
      UpAdd(p0, base, d, 1, y, m - 1);
      assert UpIs(p0, base, y, m - 1, s);
      StillLedToStuck(p0, p, base, lf, y, m - 1, s);
      LinkStays(p0, p, base, lf, d, m, s);
      assert UpIs(p, base, d, 1, y);
      UpAdd(p, base, d, 1, y, m - 1);
    }
  }

  lemma LinkStays(p0: Parents, p: Parents, base: set<nat>, lf: nat, d: nat, m: nat, s: nat)
    requires EdgesOk(p0, p, base, lf) && OnCycle(p0, base, s) && Stuck(p0, p, base, s) && UpIs(p0, base, d, m, s)
    requires Next(p0, base, d).Some?
    ensures Next(p, base, d) == Next(p0, base, d)
  {
    assert EdgeOk(p0, p, base, lf, d);
    if OnCycle(p0, base, d) {
      assert Leads(p0, base, d, s);
      CycleLeadsBack(p0, base, d, s);
      var n: nat :| UpIs(p0, base, s, n, d);
      assert StuckAt(p0, p, base, s, n) && StuckAt(p0, p, base, s, n + 1);
    }
  }

  /** What hangs on a cycle that stays does not reach the root. */
  lemma HangingNeverReaches(p0: Parents, p: Parents, base: set<nat>, lf: nat, d: nat, s: nat)
    requires EdgesOk(p0, p, base, lf) && BadFor(p0, base, d, s) && Stuck(p0, p, base, s)
    ensures !Reaches(p, base, d)
  {
    var m: nat :| UpIs(p0, base, d, m, s);
    StillLedToStuck(p0, p, base, lf, d, m, s);
    StuckNeverReaches(p0, p, base, s);
    if Reaches(p, base, d) {
      var r :| r in base && Leads(p, base, d, r);
      var n: nat :| UpIs(p, base, d, n, r);
      if n < m {
        UpSome(p, base, d, n + 1, m);
        assert false;
      } else {
        UpAdd(p, base, d, m, s, n - m);
        assert UpIs(p, base, s, n - m, r);
        assert Leads(p, base, s, r);
        assert false;
      }
    }
  }

  /** At the end a directory reaches the root exactly when it does not hang on a cycle that stays. */
  lemma AllConnected(p0: Parents, p: Parents, base: set<nat>, lf: nat, k: set<nat>, bound: nat)
    requires Connected(p0, p, base, lf, k, bound) && forall d | d in p0 :: d < bound
    ensures k == p.Keys && PassResult(p0, p, base, lf)
  {
    forall d: nat
      ensures d in p0 ==> d in k && EdgeAt(p0, p, base, lf, k, d)
    {
      assert ProgressAt(p0, p, base, k, bound, d);
    }
    forall d | d in p
      ensures Reaches(p, base, d) <==> !LedToBad(p0, base, d)
    {
      assert ReachAt(p0, p, base, k, d);
      if s: nat :| BadFor(p0, base, d, s) {
        assert ProgressAt(p0, p, base, k, bound, s);
        HangingNeverReaches(p0, p, base, lf, d, s);
      }
    }
    forall x, y | x in p && y in p && Cut(p0, p, base, x) && Cut(p0, p, base, y) && Leads(p0, base, x, y)
      ensures x == y
    {
      assert OneCutAt(p0, p, base, k, x, y);
    }
  }

  /**
   What the pass comes to: nothing is moved without need, of every cycle at most one link is given up,
   and a directory reaches the root exactly when it does not hang on a cycle that is entered at itself first.
   */
  ghost predicate PassResult(p0: Parents, p: Parents, base: set<nat>, lf: nat) {
    && EdgesOk(p0, p, base, lf)
    && (forall x, y | x in p && y in p && Cut(p0, p, base, x) && Cut(p0, p, base, y) && Leads(p0, base, x, y) :: x == y)
    && (forall d | d in p :: Reaches(p, base, d) <==> !LedToBad(p0, base, d))
  }

  /** All directories reach the root if and only if every directory on a cycle is led to from below. */
  lemma AllReachIff(p0: Parents, p: Parents, base: set<nat>, lf: nat)
    requires PassResult(p0, p, base, lf)
    ensures (forall d | d in p :: Reaches(p, base, d)) <==>
            (forall s | s in p0 && OnCycle(p0, base, s) :: LedFromBelow(p0, base, s))
  {
    if s :| s in p0 && OnCycle(p0, base, s) && !LedFromBelow(p0, base, s) {
      LeadsSelf(p0, base, s);
      assert BadFor(p0, base, s, s);
    } else {
      forall d | d in p
        ensures Reaches(p, base, d)
      {
        if s: nat :| BadFor(p0, base, d, s) {
          assert false;
        }
      }
    }
  }

  /** Of a cycle that reaches the root afterwards exactly one link has been given up. */
  lemma CycleIsCutOnce(p0: Parents, p: Parents, base: set<nat>, lf: nat, d: nat)
    requires PassResult(p0, p, base, lf) && OnCycle(p0, base, d) && d in p && Reaches(p, base, d)
    ensures exists x | x in p && CutOf(p0, p, base, d, x) :: forall y | y in p && CutOf(p0, p, base, d, y) :: y == x
  {
    if forall x | x in p :: !CutOf(p0, p, base, d, x) {
      forall n: nat
        ensures StuckAt(p0, p, base, d, n)
      {
        UncutUp(p0, p, base, lf, d, n);
      }
      StuckNeverReaches(p0, p, base, d);
      assert false;
    } else {
      var x :| x in p && CutOf(p0, p, base, d, x);
      forall y | y in p && CutOf(p0, p, base, d, y)
        ensures y == x
      {
        CycleLeadsBack(p0, base, d, x);
        LeadsOn(p0, base, x, d, y);
      }
    }
  }

  /** A link of the cycle that `d` is on has been given up at `x`. */
  ghost predicate CutOf(p0: Parents, p: Parents, base: set<nat>, d: nat, x: nat)
    requires x in p
  {
    x in p0 && Leads(p0, base, d, x) && Cut(p0, p, base, x)
  }

  lemma {:induction false} UncutUp(p0: Parents, p: Parents, base: set<nat>, lf: nat, d: nat, n: nat)
    requires EdgesOk(p0, p, base, lf) && OnCycle(p0, base, d) && forall x | x in p :: !CutOf(p0, p, base, d, x)
    ensures StuckAt(p0, p, base, d, n)
  {
    if n > 0 {
      UncutUp(p0, p, base, lf, d, n - 1);
      var x := Up(p0, base, d, n - 1);
      if x.Some? {
        assert UpIs(p0, base, d, n - 1, x.value);
        CycleBack(p0, base, d, n - 1, x.value);
        assert x.value in p ==> !CutOf(p0, p, base, d, x.value);
      }
    }
  }

  lemma PassDone(p0: Parents, p: Parents, dotDot: Parents, base: set<nat>, lf: nat, k: set<nat>, order: seq<nat>)
    requires IsOrder(order, p0) && PassAt(p0, p, dotDot, base, lf, k, Bound(order, |order|))
    ensures k == p.Keys && PassResult(p0, p, base, lf) && dotDot == p
  {
    OrderEnd(order, p0);
    AllConnected(p0, p, base, lf, k, Bound(order, |order|));
    forall d: nat | d in p
      ensures dotDot[d] == p[d]
    {
      assert DotDotAt(dotDot, p, Bound(order, |order|), d);
    }
  }

  /** A directory that is its own parent and has the smallest number is left hanging. */
  lemma SelfParentSurvives(p: Parents, base: set<nat>, lf: nat)
    requires PassResult(map[5 := 5, 10 := 10, 11 := 11, 12 := 10], p, base, lf) && base == {10, 11}
    ensures 5 in p && !Reaches(p, base, 5)
  {
    var p0 := map[5 := 5, 10 := 10, 11 := 11, 12 := 10];
    LeadsSelf(p0, base, 5);
    assert Next(p0, base, 5) == Some(5);
    assert OnCycle(p0, base, 5) && !LedFromBelow(p0, base, 5);
    assert BadFor(p0, base, 5, 5);
  }
}
