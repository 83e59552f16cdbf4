/**
 Reconciling clusters that several inodes claim (fsck.ocfs2/pass1b.c).  Pass 1B lists the claims;
 pass 1D clones or deletes owners and gives clusters back while it truncates what they leave behind.
 */
module DupClusters {

  datatype Kind = Plain | System | Chain

  /** An inode that claims such clusters, and what has been done to it. */
  datatype DupInode = DupInode(kind: Kind, cloned: bool, removed: bool)

  predicate Handled(di: DupInode) { di.cloned || di.removed }

  /** The operator's choice for one inode. */
  datatype Choice = Clone | Delete | Leave

  type Owners = map<nat, seq<nat>>

  type Inodes = map<nat, DupInode>

  type Mapped = map<nat, seq<nat>>

  // ---- the claims ---------------------------------------------------------------------------

  ghost predicate ListedAt(owners: Owners, inodes: Inodes, c: nat) {
    c in owners ==>
      && owners[c] != []
      && (forall i | 0 <= i < |owners[c]| :: owners[c][i] in inodes)
      && (forall i, j | 0 <= i < j < |owners[c]| :: owners[c][i] != owners[c][j])
  }

  /** Every listed cluster has owners, each once, and every owner has an entry. */
  ghost predicate Listed(owners: Owners, inodes: Inodes) { forall c: nat :: ListedAt(owners, inodes, c) }

  ghost predicate Claims(owners: Owners, c: nat, ino: nat) { c in owners && ino in owners[c] }

  class DupContext {
    var owners: Owners
    var inodes: Inodes

    constructor ()
      ensures owners == map[] && inodes == map[]
    {
      owners, inodes := map[], map[];
    }

    /** Records that an inode claims a cluster. */
    method DupInsert(cluster: nat, ino: nat, kind: Kind)
      requires Listed(owners, inodes)
      modifies this
      ensures Listed(owners, inodes)
      ensures forall c: nat, o: nat :: Claims(owners, c, o) <==> Claims(old(owners), c, o) || (c == cluster && o == ino)
      ensures inodes.Keys == old(inodes).Keys + {ino} && forall o | o in old(inodes) :: inodes[o] == old(inodes)[o]
      ensures ino !in old(inodes) ==> inodes[ino] == DupInode(kind, false, false)
    {
      assert ListedAt(owners, inodes, cluster);
      var list := if cluster in owners then owners[cluster] else [];
      if ino !in inodes {
        inodes := inodes[ino := DupInode(kind, false, false)];
      }
      var found := false;
      for i := 0 to |list|
        invariant !found ==> forall j | 0 <= j < i :: list[j] != ino
        invariant found ==> ino in list
      {
        if list[i] == ino {
          found := true;
          break;
        }
      }
      if !found {
        list := list + [ino];
      }
      owners := owners[cluster := list];
      forall c: nat
        ensures ListedAt(owners, inodes, c)
      {
        assert ListedAt(old(owners), old(inodes), c);
      }
    }
  }

  /** The owners among the first `n` that have not been handled. */
  function Unhandled(inodes: Inodes, list: seq<nat>, n: nat): nat
    requires n <= |list|
  {
    if n == 0 then 0
    else Unhandled(inodes, list, n - 1) + if list[n-1] in inodes && !Handled(inodes[list[n-1]]) then 1 else 0
  }

  /** Walks the owners of a cluster and counts those that have not been handled. */
  method CountUnhandled(inodes: Inodes, list: seq<nat>) returns (count: nat)
    requires list != [] && forall i | 0 <= i < |list| :: list[i] in inodes
    ensures count == Unhandled(inodes, list, |list|)
  {
    count := 0;
    for i := 0 to |list|
      invariant count == Unhandled(inodes, list, i)
    {
      var di := inodes[list[i]];
      if !Handled(di) {
        count := count + 1;
      }
    }
  }

  ghost predicate IsUnhandled(inodes: Inodes, ino: nat) { ino in inodes && !Handled(inodes[ino]) }

  /** `ino` is the one owner in the list that has not been handled. */
  ghost predicate SoleUnhandled(inodes: Inodes, list: seq<nat>, ino: nat) {
    IsUnhandled(inodes, ino) && ino in list && forall o | o in list :: IsUnhandled(inodes, o) ==> o == ino
  }

  lemma {:induction false} UnhandledCounts(inodes: Inodes, list: seq<nat>, n: nat, k: nat)
    requires n <= |list| && k < n && IsUnhandled(inodes, list[k])
    ensures Unhandled(inodes, list, n) >= 1
    ensures (exists j | 0 <= j < n && j != k :: IsUnhandled(inodes, list[j])) <==> Unhandled(inodes, list, n) >= 2
    decreases n
  {
    if n - 1 == k {
      NoneUnhandled(inodes, list, n - 1);
    } else {
      UnhandledCounts(inodes, list, n - 1, k);
    }
  }

  lemma {:induction false} NoneUnhandled(inodes: Inodes, list: seq<nat>, n: nat)
    requires n <= |list|
    ensures (exists j | 0 <= j < n :: IsUnhandled(inodes, list[j])) <==> Unhandled(inodes, list, n) >= 1
  {
    if n > 0 {
      NoneUnhandled(inodes, list, n - 1);
    }
  }

  /** For an unhandled owner the count is never 0, and it is 1 exactly when the owner is the only one. */
  lemma CountMeansSole(inodes: Inodes, list: seq<nat>, ino: nat)
    requires ino in list && IsUnhandled(inodes, ino)
    requires forall i, j | 0 <= i < j < |list| :: list[i] != list[j]
    ensures Unhandled(inodes, list, |list|) >= 1
    ensures Unhandled(inodes, list, |list|) == 1 <==> SoleUnhandled(inodes, list, ino)
  {
    var k :| 0 <= k < |list| && list[k] == ino;
    UnhandledCounts(inodes, list, |list|, k);
  }

  // ---- what is mapped and what has been freed -----------------------------------------------

  /** How often a cluster occurs in a list. */
  function Occ(s: seq<nat>, c: nat): nat {
    if s == [] then 0 else Occ(s[..|s|-1], c) + if s[|s|-1] == c then 1 else 0
  }

  lemma {:induction false} OccConcat(a: seq<nat>, b: seq<nat>, c: nat)
    ensures Occ(a + b, c) == Occ(a, c) + Occ(b, c)
  {
    if b == [] {
      assert a + b == a;
    } else {
      OccConcat(a, b[..|b|-1], c);
      assert (a + b)[..|a+b|-1] == a + b[..|b|-1];
    }
  }

  lemma OccLast(a: seq<nat>, x: nat, c: nat)
    ensures Occ(a + [x], c) == Occ(a, c) + if x == c then 1 else 0
  {
    assert (a + [x])[..|a|] == a;
  }

  lemma {:induction false} OccNone(s: seq<nat>, c: nat)
    ensures c in s <==> Occ(s, c) > 0
  {
    if s != [] {
      OccNone(s[..|s|-1], c);
    }
  }

  ghost predicate HasUnhandled(inodes: Inodes, list: seq<nat>) { exists o | o in list :: IsUnhandled(inodes, o) }

  ghost predicate MappedAt(owners: Owners, inodes: Inodes, mapped: Mapped, c: nat, ino: nat) {
    c in owners && ino in mapped ==>
      Occ(mapped[ino], c) == if ino in owners[c] && IsUnhandled(inodes, ino) then 1 else 0
  }

  ghost predicate FreedAt(owners: Owners, inodes: Inodes, freed: seq<nat>, c: nat) {
    c in owners ==> Occ(freed, c) == if HasUnhandled(inodes, owners[c]) then 0 else 1
  }

  /**
   A multiply-claimed cluster is mapped, once, by exactly those owners that have not been handled; and
   it has been freed, once, exactly when all of them have been handled.
   */
  ghost predicate Balanced(owners: Owners, inodes: Inodes, mapped: Mapped, freed: seq<nat>) {
    && Listed(owners, inodes) && inodes.Keys <= mapped.Keys
    && (forall c: nat, ino: nat :: MappedAt(owners, inodes, mapped, c, ino))
    && (forall c: nat :: FreedAt(owners, inodes, freed, c))
  }

  /** At the outset nothing has been handled and nothing freed. */
  lemma BalancedAtFirst(owners: Owners, inodes: Inodes, mapped: Mapped)
    requires Listed(owners, inodes) && inodes.Keys <= mapped.Keys && forall o | o in inodes :: !Handled(inodes[o])
    requires forall c, ino | c in owners && ino in mapped :: Occ(mapped[ino], c) == if ino in owners[c] then 1 else 0
    ensures Balanced(owners, inodes, mapped, [])
  {
    forall c: nat, ino: nat
      ensures MappedAt(owners, inodes, mapped, c, ino)
    {
      assert ListedAt(owners, inodes, c);
    }
    forall c: nat
      ensures FreedAt(owners, inodes, [], c)
    {
      assert ListedAt(owners, inodes, c);
      if c in owners {
        assert IsUnhandled(inodes, owners[c][0]);
      }
    }
  }

  /** Truncating what `ino` mapped gives a cluster back: it is not shared, or no other owner is left. */
  ghost predicate Freeable(owners: Owners, inodes: Inodes, ino: nat, c: nat) {
    c in owners ==> SoleUnhandled(inodes, owners[c], ino)
  }

  /** The clusters among the first `n` that are given back. */
  ghost function FreedOf(owners: Owners, inodes: Inodes, ino: nat, list: seq<nat>, n: nat): seq<nat>
    requires n <= |list|
  {
    if n == 0 then []
    else
      FreedOf(owners, inodes, ino, list, n - 1) +
      if Freeable(owners, inodes, ino, list[n-1]) then [list[n-1]] else []
  }

  lemma {:induction false} FreedOcc(owners: Owners, inodes: Inodes, ino: nat, list: seq<nat>, n: nat, c: nat)
    requires n <= |list|
    ensures Occ(FreedOf(owners, inodes, ino, list, n), c)
         == if Freeable(owners, inodes, ino, c) then Occ(list[..n], c) else 0
  {
    if n > 0 {
      var before, last := FreedOf(owners, inodes, ino, list, n - 1), list[n-1];
      FreedOcc(owners, inodes, ino, list, n - 1, c);
      assert list[..n][..n-1] == list[..n-1];
      OccLast(before, last, c);
      assert before + [] == before;
    }
  }

  /** The inode's claims are all on record and it has not been handled. */
  ghost predicate ClaimsKnown(owners: Owners, inodes: Inodes, ino: nat, list: seq<nat>) {
    forall c | c in list && c in owners :: ino in owners[c] && IsUnhandled(inodes, ino)
  }

  class Reconciler {
    const owners: Owners
    var inodes: Inodes
    var mapped: Mapped
    var freed: seq<nat>
    /** Who was offered what, in order; the operator's answer to the next offer is `answer(|offers|)`. */
    var offers: seq<Offer>
    var clones: nat
    const answer: nat -> Choice
    const share: nat -> bool
    const unused: nat -> seq<nat>

    constructor (owners: Owners, inodes: Inodes, mapped: Mapped, answer: nat -> Choice, share: nat -> bool,
                 unused: nat -> seq<nat>)
      ensures this.owners == owners && this.inodes == inodes && this.mapped == mapped && freed == []
      ensures this.answer == answer && this.share == share && this.unused == unused && offers == [] && clones == 0
    {
      this.owners, this.inodes, this.mapped, this.freed := owners, inodes, mapped, [];
      this.answer, this.share, this.unused, this.offers, this.clones := answer, share, unused, [], 0;
    }

    /** No clone is given a multiply-claimed cluster. */
    ghost predicate FreshIsFresh() { forall k: nat, c: nat :: c in owners ==> Occ(unused(k), c) == 0 }

    /** May a multiply-claimed cluster of the inode being truncated be given back? */
    method CanFree(c: nat, ghost ino: nat) returns (r: bool)
      requires c in owners && Listed(owners, inodes) && ino in owners[c] && IsUnhandled(inodes, ino)
      ensures r <==> SoleUnhandled(inodes, owners[c], ino)
    {
      assert ListedAt(owners, inodes, c);
      var unhandled := CountUnhandled(inodes, owners[c]);
      CountMeansSole(inodes, owners[c], ino);
      if unhandled == 0 {
        assert false;
      }
      r := unhandled <= 1;
    }

    /** Frees clusters that the inode leaves behind, except those that others still claim. */
    method FreeClusters(list: seq<nat>, ghost ino: nat)
      requires Listed(owners, inodes) && ClaimsKnown(owners, inodes, ino, list)
      modifies this`freed
      ensures freed == old(freed) + FreedOf(owners, inodes, ino, list, |list|)
    {
      for i := 0 to |list|
        invariant freed == old(freed) + FreedOf(owners, inodes, ino, list, i)
      {
        var c := list[i];
        var free := true;
        if c in owners {
          free := CanFree(c, ino);
        }
        if free {
          freed := freed + [c];
        }
      }
    }

    /** Truncates an inode and removes it. */
    method DeleteOneInode(ino: nat)
      requires Balanced(owners, inodes, mapped, freed) && ino in inodes
      modifies this`freed, this`mapped, this`inodes
      ensures Balanced(owners, inodes, mapped, freed)
      ensures inodes == old(inodes)[ino := old(inodes)[ino].(removed := true)]
      ensures mapped == old(mapped)[ino := []]
      ensures freed == old(freed) + FreedOf(owners, old(inodes), ino, old(mapped)[ino], |old(mapped)[ino]|)
    {
      ghost var i0, m0, f0 := inodes, mapped, freed;
      ClaimsAreKnown(owners, inodes, mapped, freed, ino);
      FreeClusters(mapped[ino], ino);
      mapped := mapped[ino := []];
      inodes := inodes[ino := inodes[ino].(removed := true)];
      HandledStep(owners, i0, inodes, m0, mapped, f0, freed, ino, []);
    }

    /** Gives the inode a copy of its data in fresh clusters, and truncates the clone that is left with the old ones. */
    method CloneOneInode(ino: nat)
      requires Balanced(owners, inodes, mapped, freed) && ino in inodes && FreshIsFresh()
      modifies this`freed, this`mapped, this`inodes, this`clones
      ensures Balanced(owners, inodes, mapped, freed) && inodes == old(inodes)[ino := old(inodes)[ino].(cloned := true)]
      ensures mapped == old(mapped)[ino := unused(old(clones))] && clones == old(clones) + 1
      ensures freed == old(freed) + FreedOf(owners, old(inodes), ino, old(mapped)[ino], |old(mapped)[ino]|)
    {
      ghost var i0, m0, f0 := inodes, mapped, freed;
      ClaimsAreKnown(owners, inodes, mapped, freed, ino);
      var copy := unused(clones);
      clones := clones + 1;
      var clone := mapped[ino];
      mapped := mapped[ino := copy];
      FreeClusters(clone, ino);
      inodes := inodes[ino := inodes[ino].(cloned := true)];
      HandledStep(owners, i0, inodes, m0, mapped, f0, freed, ino, copy);
    }

    ghost predicate Ready()
      reads this
    {
      Balanced(owners, inodes, mapped, freed) && FreshIsFresh()
    }

    ghost function Now(): State
      reads this
    {
      State(inodes, mapped, freed, clones)
    }

    /** Offers to clone or delete one owner of a cluster. */
    method FixDup(ino: nat)
      requires Balanced(owners, inodes, mapped, freed) && ino in inodes && FreshIsFresh()
      modifies this
      ensures Balanced(owners, inodes, mapped, freed) && FreshIsFresh()
      ensures var di, choice := old(inodes)[ino], answer(|old(offers)|);
              && offers == (if di.kind.Chain? then old(offers) else old(offers) + [Offer(ino, choice)])
              && if di.kind.Chain? || choice.Leave? || (choice.Delete? && di.kind.System?)
                 then inodes == old(inodes) && mapped == old(mapped) && freed == old(freed) && clones == old(clones)
                 else && inodes == old(inodes)[ino := if choice.Clone? then di.(cloned := true)
                                                      else di.(removed := true)]
                      && mapped == old(mapped)[ino := if choice.Clone? then unused(old(clones)) else []]
                      && freed == old(freed) + FreedOf(owners, old(inodes), ino, old(mapped)[ino], |old(mapped)[ino]|)
                      && clones == old(clones) + if choice.Clone? then 1 else 0
    {
      if inodes[ino].kind.Chain? {
        return;
      }
      var choice := answer(|offers|);
      offers := offers + [Offer(ino, choice)];
      if choice.Clone? {
        CloneOneInode(ino);
      } else if choice.Delete? && inodes[ino].kind.Plain? {
        DeleteOneInode(ino);
      }
    }

    /** Every owner of a cluster gets its turn, allocators excepted. */
    method FixOwners(list: seq<nat>)
      requires Balanced(owners, inodes, mapped, freed) && FreshIsFresh() && forall o | o in list :: o in inodes
      modifies this
      ensures Balanced(owners, inodes, mapped, freed) && FreshIsFresh()
      ensures var more := OfferAll(old(inodes), list, |list|, answer, |old(offers)|);
              offers == old(offers) + more && Now() == After(owners, unused, old(Now()), more)
    {
      ghost var s0, base, before := Now(), |offers|, offers;
      for j := 0 to |list|
        invariant Balanced(owners, inodes, mapped, freed) && FreshIsFresh() && forall o | o in list :: o in inodes
        invariant offers == before + OfferAll(s0.inodes, list, j, answer, base)
        invariant Now() == After(owners, unused, s0, OfferAll(s0.inodes, list, j, answer, base))
        invariant SameKinds(s0.inodes, inodes)
      {
        FixNext(list, j, s0, base, before);
      }
    }

    /** One owner gets its turn. */
    method FixNext(list: seq<nat>, j: nat, ghost s0: State, ghost base: nat, ghost before: seq<Offer>)
      requires Ready() && j < |list| && list[j] in inodes
      requires base == |before| && offers == before + OfferAll(s0.inodes, list, j, answer, base)
      requires Now() == After(owners, unused, s0, OfferAll(s0.inodes, list, j, answer, base))
      requires SameKinds(s0.inodes, inodes)
      modifies this
      ensures Ready() && SameKinds(s0.inodes, inodes)
      ensures inodes.Keys == old(inodes.Keys)
      ensures offers == before + OfferAll(s0.inodes, list, j + 1, answer, base)
      ensures Now() == After(owners, unused, s0, OfferAll(s0.inodes, list, j + 1, answer, base))
    {
      ghost var s, more := Now(), OfferAll(s0.inodes, list, j, answer, base);
      assert SameKindAt(s0.inodes, inodes, list[j]);
      FixDup(list[j]);
      OneMoreOffer(owners, unused, s0, s, Now(), more, list[j], answer(base + |more|));
    }

    /** The operator agrees to every clone and to nothing else. */
    ghost predicate AlwaysClone() { (forall k: nat :: answer(k) == Clone) && forall i: nat :: !share(i) }

    /** The operator never leaves an inode alone. */
    ghost predicate NeverLeaves() { forall k: nat :: !answer(k).Leave? }

    /**
     Goes over the multiply-claimed clusters.  Whatever is answered, no such cluster is freed twice or
     while an owner still maps it, and none is lost: it is freed once all its owners have been handled.
     Who is offered what, and the state that the answers lead to, are stated for all answers; an operator who
     never leaves an inode alone ends with all owners handled, but for allocators and system files that they
     asked to delete.
     */
    method Pass1D(order: seq<nat>)
      requires Balanced(owners, inodes, mapped, freed) && FreshIsFresh() && forall c | c in order :: c in owners
      modifies this
      ensures Balanced(owners, inodes, mapped, freed)
      ensures var st := RunsFrom(owners, unused, old(Now()));
              var more := PassOffers(owners, st, order, |order|, answer, share, |old(offers)|);
              offers == old(offers) + more && Now() == st(more)
      ensures NeverLeaves() ==>
                forall i: nat :: TurnSettled(owners, inodes, offers[|old(offers)|..], order, share, i)
      ensures AlwaysClone() ==> forall c | c in order :: Reconciled(inodes, owners[c])
    {
      ghost var s0, base, before := Now(), |offers|, offers;
      ghost var st := RunsFrom(owners, unused, s0);
      AllTurns(order, s0, st, before);
      ghost var more := PassOffers(owners, st, order, |order|, answer, share, base);
      assert offers[base..] == more;
      if NeverLeaves() {
        PassSettles(owners, unused, s0, st, order, answer, share, base, more);
      }
      if AlwaysClone() {
        PassReconciles(owners, st, inodes, order, answer, share, base, more);
      }
    }

    /** All clusters of the pass, one after the other. */
    method AllTurns(order: seq<nat>, ghost s0: State, ghost st: Runs, ghost before: seq<Offer>)
      requires Ready() && forall c | c in order :: c in owners
      requires AreRuns(owners, unused, s0, st) && s0 == Now() && before == offers
      modifies this
      ensures Ready()
      ensures offers == before + PassOffers(owners, st, order, |order|, answer, share, |before|)
      ensures Now() == st(PassOffers(owners, st, order, |order|, answer, share, |before|))
    {
      assert IsRunAt(owners, unused, s0, st, []);
      ghost var so := [];
      for i := 0 to |order|
        invariant Ready() && so == PassOffers(owners, st, order, i, answer, share, |before|)
        invariant offers == before + so && Now() == st(so)
      {
        so := NextTurn(order, i, s0, st, before, so);
      }
    }

    method NextTurn(order: seq<nat>, i: nat, ghost s0: State, ghost st: Runs, ghost before: seq<Offer>,
                    ghost so: seq<Offer>)
      returns (ghost so': seq<Offer>)
      requires Ready() && i < |order| && order[i] in owners
      requires AreRuns(owners, unused, s0, st) && offers == before + so && Now() == st(so)
      requires so == PassOffers(owners, st, order, i, answer, share, |before|)
      modifies this
      ensures Ready() && so' == PassOffers(owners, st, order, i + 1, answer, share, |before|)
      ensures offers == before + so' && Now() == st(so')
    {
      ghost var more := TurnOffers(owners, inodes, order, i, answer, share, |offers|);
      TakeTurn(order, i);
      RunOn(owners, unused, s0, st, so, more);
      so' := so + more;
    }

    /** One cluster of the pass. */
    method TakeTurn(order: seq<nat>, i: nat)
      requires Balanced(owners, inodes, mapped, freed) && FreshIsFresh() && i < |order| && order[i] in owners
      modifies this
      ensures Balanced(owners, inodes, mapped, freed) && FreshIsFresh()
      ensures var more := TurnOffers(owners, old(inodes), order, i, answer, share, |old(offers)|);
              offers == old(offers) + more && Now() == After(owners, unused, old(Now()), more)
    {
      var list := owners[order[i]];
      assert ListedAt(owners, inodes, order[i]);
      var dups := CountUnhandled(inodes, list);
      if dups >= 2 && !share(i) {
        FixOwners(list);
      } else {
        assert offers == offers + [];
      }
    }
  }

  // ---- who is offered what ------------------------------------------------------------------

  /** An inode is offered to be cloned or deleted, and the operator's choice. */
  datatype Offer = Offer(ino: nat, choice: Choice)

  datatype State = State(inodes: Inodes, mapped: Mapped, freed: seq<nat>, clones: nat)

  type Answers = nat -> Choice

  /** The offers to the first `n` owners, of which the first is number `base`. */
  ghost function OfferAll(inodes: Inodes, list: seq<nat>, n: nat, answer: Answers, base: nat): seq<Offer>
    requires n <= |list|
  {
    if n == 0 then []
    else
      var more := OfferAll(inodes, list, n - 1, answer, base);
      if list[n-1] in inodes && !inodes[list[n-1]].kind.Chain?
      then more + [Offer(list[n-1], answer(base + |more|))] else more
  }

  /** The offers of one turn: a cluster is passed over if it is shared or fewer than two owners are left. */
  ghost function TurnOffers(owners: Owners, inodes: Inodes, order: seq<nat>, k: nat, answer: Answers,
                            share: nat -> bool, base: nat): seq<Offer>
    requires k < |order|
  {
    if order[k] !in owners || share(k) || Unhandled(inodes, owners[order[k]], |owners[order[k]]|) < 2 then []
    else OfferAll(inodes, owners[order[k]], |owners[order[k]]|, answer, base)
  }

  /** The state that offers lead to. */
  type Runs = seq<Offer> -> State

  ghost predicate IsRunAt(owners: Owners, unused: nat -> seq<nat>, s0: State, st: Runs, so: seq<Offer>) {
    st(so) == After(owners, unused, s0, so)
  }

  ghost predicate AreRuns(owners: Owners, unused: nat -> seq<nat>, s0: State, st: Runs) {
    forall so: seq<Offer> :: IsRunAt(owners, unused, s0, st, so)
  }

  ghost function RunsFrom(owners: Owners, unused: nat -> seq<nat>, s0: State): (st: Runs)
    ensures AreRuns(owners, unused, s0, st)
  {
    so => After(owners, unused, s0, so)
  }

  /** The offers of the first `n` turns. */
  ghost function PassOffers(owners: Owners, st: Runs, order: seq<nat>, n: nat, answer: Answers, share: nat -> bool,
                            base: nat): seq<Offer>
    requires n <= |order|
  {
    if n == 0 then []
    else
      var so := PassOffers(owners, st, order, n - 1, answer, share, base);
      so + TurnOffers(owners, st(so).inodes, order, n - 1, answer, share, base + |so|)
  }

  /** What one choice does. */
  ghost function Step(owners: Owners, unused: nat -> seq<nat>, s: State, o: Offer): State {
    if o.ino !in s.inodes || o.ino !in s.mapped then s
    else
      var di := s.inodes[o.ino];
      if di.kind.Chain? || o.choice.Leave? || (o.choice.Delete? && di.kind.System?) then s
      else
        State(s.inodes[o.ino := if o.choice.Clone? then di.(cloned := true) else di.(removed := true)],
              s.mapped[o.ino := if o.choice.Clone? then unused(s.clones) else []],
              s.freed + FreedOf(owners, s.inodes, o.ino, s.mapped[o.ino], |s.mapped[o.ino]|),
              s.clones + if o.choice.Clone? then 1 else 0)
  }

  ghost function After(owners: Owners, unused: nat -> seq<nat>, s: State, so: seq<Offer>): State {
    if so == [] then s else Step(owners, unused, After(owners, unused, s, so[..|so|-1]), so[|so|-1])
  }

  lemma {:induction false} AfterConcat(owners: Owners, unused: nat -> seq<nat>, s: State, a: seq<Offer>, b: seq<Offer>)
    ensures After(owners, unused, s, a + b) == After(owners, unused, After(owners, unused, s, a), b)
  {
    if b == [] {
      assert a + b == a;
    } else {
      AfterConcat(owners, unused, s, a, b[..|b|-1]);
      assert (a + b)[..|a+b|-1] == a + b[..|b|-1];
    }
  }

  lemma RunOn(owners: Owners, unused: nat -> seq<nat>, s0: State, st: Runs, a: seq<Offer>, b: seq<Offer>)
    requires AreRuns(owners, unused, s0, st)
    ensures st(a + b) == After(owners, unused, st(a), b)
  {
    assert IsRunAt(owners, unused, s0, st, a) && IsRunAt(owners, unused, s0, st, a + b);
    AfterConcat(owners, unused, s0, a, b);
  }

  lemma OneMoreOffer(owners: Owners, unused: nat -> seq<nat>, s0: State, s: State, s': State, more: seq<Offer>,
                     ino: nat, choice: Choice)
    requires s == After(owners, unused, s0, more) && ino in s.inodes && ino in s.mapped
    requires s' == if s.inodes[ino].kind.Chain? then s else Step(owners, unused, s, Offer(ino, choice))
    requires SameKinds(s0.inodes, s.inodes)
    ensures SameKinds(s0.inodes, s'.inodes)
    ensures s' == After(owners, unused, s0, if s.inodes[ino].kind.Chain? then more else more + [Offer(ino, choice)])
  {
    assert (more + [Offer(ino, choice)])[..|more|] == more;
    forall o: nat
      ensures SameKindAt(s0.inodes, s'.inodes, o)
    {
      assert SameKindAt(s0.inodes, s.inodes, o);
    }
  }

  ghost predicate SameKindAt(i0: Inodes, i: Inodes, o: nat) {
    (o in i <==> o in i0) && (o in i && o in i0 ==> i[o].kind == i0[o].kind)
  }

  ghost predicate SameKinds(i0: Inodes, i: Inodes) { forall o: nat :: SameKindAt(i0, i, o) }

  // ---- what the offers come to --------------------------------------------------------------

  /** The inode has been offered to be cloned, and the operator agreed. */
  ghost predicate Agreed(so: seq<Offer>, ino: nat, choice: Choice) { Offer(ino, choice) in so }

  /**
   An inode is cloned exactly if a clone was agreed to and it is no allocator, and removed exactly if a deletion
   was agreed to and it is a plain file.
   */
  ghost predicate HandledAt(i0: Inodes, i: Inodes, so: seq<Offer>, o: nat) {
    && SameKindAt(i0, i, o)
    && (o in i0 && o in i ==>
          && (i[o].cloned <==> i0[o].cloned || (Agreed(so, o, Clone) && !i0[o].kind.Chain?))
          && (i[o].removed <==> i0[o].removed || (Agreed(so, o, Delete) && i0[o].kind.Plain?)))
  }

  lemma {:induction false} HandledIff(owners: Owners, unused: nat -> seq<nat>, s: State, so: seq<Offer>, o: nat)
    requires s.inodes.Keys <= s.mapped.Keys
    ensures HandledAt(s.inodes, After(owners, unused, s, so).inodes, so, o)
    ensures o in s.inodes ==> o in After(owners, unused, s, so).mapped
  {
    if so != [] {
      var n := |so| - 1;
      HandledIff(owners, unused, s, so[..n], o);
      StepHandles(owners, unused, s.inodes, After(owners, unused, s, so[..n]), so[..n], so[n], o);
      assert so == so[..n] + [so[n]];
    }
  }

  lemma StepHandles(owners: Owners, unused: nat -> seq<nat>, i0: Inodes, s: State, so: seq<Offer>, next: Offer, o: nat)
    requires HandledAt(i0, s.inodes, so, o) && (o in i0 ==> o in s.mapped)
    ensures HandledAt(i0, Step(owners, unused, s, next).inodes, so + [next], o)
    ensures o in i0 ==> o in Step(owners, unused, s, next).mapped
  {
    assert forall c :: Agreed(so, o, c) || next == Offer(o, c) <==> Agreed(so + [next], o, c);
  }

  lemma RunHandled(owners: Owners, unused: nat -> seq<nat>, s0: State, st: Runs, so: seq<Offer>, o: nat)
    requires AreRuns(owners, unused, s0, st) && s0.inodes.Keys <= s0.mapped.Keys
    ensures HandledAt(s0.inodes, st(so).inodes, so, o)
  {
    assert IsRunAt(owners, unused, s0, st, so);
    HandledIff(owners, unused, s0, so, o);
  }

  ghost predicate MoreHandledAt(i: Inodes, i': Inodes, o: nat) {
    SameKindAt(i, i', o) && (o in i && o in i' && Handled(i[o]) ==> Handled(i'[o]))
  }

  /** Kinds stay, and being handled is for good. */
  ghost predicate MoreHandled(i: Inodes, i': Inodes) { forall o: nat :: MoreHandledAt(i, i', o) }

  /** Later offers do not take back what has been handled. */
  lemma RunHandlesMore(owners: Owners, unused: nat -> seq<nat>, s0: State, st: Runs, a: seq<Offer>, b: seq<Offer>)
    requires AreRuns(owners, unused, s0, st) && s0.inodes.Keys <= s0.mapped.Keys
    ensures MoreHandled(st(a).inodes, st(a + b).inodes) && SameKinds(s0.inodes, st(a).inodes)
  {
    forall o: nat
      ensures MoreHandledAt(st(a).inodes, st(a + b).inodes, o) && SameKindAt(s0.inodes, st(a).inodes, o)
    {
      RunHandled(owners, unused, s0, st, a, o);
      RunHandled(owners, unused, s0, st, a + b, o);
      assert Agreed(a, o, Clone) ==> Agreed(a + b, o, Clone);
      assert Agreed(a, o, Delete) ==> Agreed(a + b, o, Delete);
    }
  }

  lemma {:induction false} UnhandledFalls(i: Inodes, i': Inodes, list: seq<nat>, n: nat)
    requires MoreHandled(i, i') && n <= |list|
    ensures Unhandled(i', list, n) <= Unhandled(i, list, n)
  {
    if n > 0 {
      UnhandledFalls(i, i', list, n - 1);
      assert MoreHandledAt(i, i', list[n-1]);
    }
  }

  lemma {:induction false} OfferedAll(inodes: Inodes, list: seq<nat>, n: nat, answer: Answers, base: nat, k: nat)
    requires k < n <= |list| && list[k] in inodes && !inodes[list[k]].kind.Chain?
    ensures exists c :: Agreed(OfferAll(inodes, list, n, answer, base), list[k], c)
    decreases n
  {
    var all, more := OfferAll(inodes, list, n, answer, base), OfferAll(inodes, list, n - 1, answer, base);
    if k == n - 1 {
      assert all[|more|] == Offer(list[k], answer(base + |more|));
      assert Agreed(all, list[k], answer(base + |more|));
    } else {
      OfferedAll(inodes, list, n - 1, answer, base, k);
      var c :| Agreed(more, list[k], c);
      assert Agreed(all, list[k], c);
    }
  }

  /** The choices are the operator's answers, one after the other. */
  ghost predicate AnsweredAt(so: seq<Offer>, answer: Answers, base: nat, k: nat) {
    k < |so| ==> so[k].choice == answer(base + k)
  }

  lemma {:induction false} OffersAnswered(inodes: Inodes, list: seq<nat>, n: nat, answer: Answers, base: nat, k: nat)
    requires n <= |list|
    ensures AnsweredAt(OfferAll(inodes, list, n, answer, base), answer, base, k)
  {
    if n > 0 {
      OffersAnswered(inodes, list, n - 1, answer, base, k);
    }
  }

  lemma TurnAnswered(owners: Owners, inodes: Inodes, order: seq<nat>, n: nat, answer: Answers, share: nat -> bool,
                     base: nat, k: nat)
    requires n < |order|
    ensures AnsweredAt(TurnOffers(owners, inodes, order, n, answer, share, base), answer, base, k)
  {
    if order[n] in owners {
      OffersAnswered(inodes, owners[order[n]], |owners[order[n]]|, answer, base, k);
    }
  }

  lemma {:induction false} PassAnswered(owners: Owners, st: Runs, order: seq<nat>, n: nat, answer: Answers,
                                        share: nat -> bool, base: nat, k: nat)
    requires n <= |order|
    ensures AnsweredAt(PassOffers(owners, st, order, n, answer, share, base), answer, base, k)
  {
    if n > 0 {
      PassAnswered(owners, st, order, n - 1, answer, share, base, k);
      var so := PassOffers(owners, st, order, n - 1, answer, share, base);
      if k >= |so| {
        TurnAnswered(owners, st(so).inodes, order, n - 1, answer, share, base + |so|, k - |so|);
      }
    }
  }

  /**
   The turn of a cluster is settled: it was shared, fewer than two owners are left, or every owner that is no
   allocator was offered.
   */
  ghost predicate TurnOffered(owners: Owners, i0: Inodes, i: Inodes, so: seq<Offer>, order: seq<nat>,
                              share: nat -> bool, k: nat) {
    k < |order| && order[k] in owners && !share(k) ==>
      || Unhandled(i, owners[order[k]], |owners[order[k]]|) < 2
      || forall o | o in owners[order[k]] && o in i0 :: i0[o].kind.Chain? || exists c :: Agreed(so, o, c)
  }

  lemma {:induction false} PassOffered(owners: Owners, unused: nat -> seq<nat>, s0: State, st: Runs, order: seq<nat>,
                                       n: nat, answer: Answers, share: nat -> bool, base: nat, so': seq<Offer>, k: nat)
    requires AreRuns(owners, unused, s0, st) && k < n <= |order| && s0.inodes.Keys <= s0.mapped.Keys
    requires so' == PassOffers(owners, st, order, n, answer, share, base)
    ensures TurnOffered(owners, s0.inodes, st(so').inodes, so', order, share, k)
    decreases n
  {
    var so := PassOffers(owners, st, order, n - 1, answer, share, base);
    var more := TurnOffers(owners, st(so).inodes, order, n - 1, answer, share, base + |so|);
    RunHandlesMore(owners, unused, s0, st, so, more);
    if k < n - 1 {
      PassOffered(owners, unused, s0, st, order, n - 1, answer, share, base, so, k);
      StillOffered(owners, s0.inodes, st(so).inodes, st(so').inodes, so, so', order, share, k);
    } else {
      TurnMakesOffers(owners, s0.inodes, st(so).inodes, so, more, order, k, answer, share, base + |so|);
      StillOffered(owners, s0.inodes, st(so).inodes, st(so').inodes, so', so', order, share, k);
    }
  }

  /** After its turn, with the offers of that turn counted in. */
  lemma TurnMakesOffers(owners: Owners, i0: Inodes, i: Inodes, so: seq<Offer>, more: seq<Offer>, order: seq<nat>,
                        k: nat, answer: Answers, share: nat -> bool, base: nat)
    requires k < |order| && SameKinds(i0, i) && more == TurnOffers(owners, i, order, k, answer, share, base)
    ensures TurnOffered(owners, i0, i, so + more, order, share, k)
  {
    if order[k] in owners && !share(k) && Unhandled(i, owners[order[k]], |owners[order[k]]|) >= 2 {
      var list := owners[order[k]];
      forall o | o in list && o in i0
        ensures i0[o].kind.Chain? || exists c :: Agreed(so + more, o, c)
      {
        assert SameKindAt(i0, i, o);
        var j :| 0 <= j < |list| && list[j] == o;
        if !i0[o].kind.Chain? {
          OfferedAll(i, list, |list|, answer, base, j);
          var c :| Agreed(more, o, c);
          assert Agreed(so + more, o, c);
        }
      }
    }
  }

  lemma StillOffered(owners: Owners, i0: Inodes, i: Inodes, i': Inodes, so: seq<Offer>, so': seq<Offer>,
                     order: seq<nat>, share: nat -> bool, k: nat)
    requires MoreHandled(i, i') && so <= so' && TurnOffered(owners, i0, i, so, order, share, k)
    ensures TurnOffered(owners, i0, i', so', order, share, k)
  {
    if k < |order| && order[k] in owners {
      var list := owners[order[k]];
      UnhandledFalls(i, i', list, |list|);
      forall o, c | Agreed(so, o, c)
        ensures Agreed(so', o, c)
      {
      }
    }
  }

  /**
   The turn of a cluster that is not shared: fewer than two owners are left, or every owner is handled, an
   allocator, or a system file that the operator asked to delete.
   */
  ghost predicate TurnSettled(owners: Owners, i: Inodes, so: seq<Offer>, order: seq<nat>, share: nat -> bool, k: nat) {
    k < |order| && order[k] in owners && !share(k) ==>
      || Unhandled(i, owners[order[k]], |owners[order[k]]|) < 2
      || forall o | o in owners[order[k]] && o in i :: OwnerSettled(i, so, o)
  }

  ghost predicate OwnerSettled(i: Inodes, so: seq<Offer>, o: nat)
    requires o in i
  {
    Handled(i[o]) || i[o].kind.Chain? || (i[o].kind.System? && Agreed(so, o, Delete))
  }

  /** Over all answers of an operator who leaves nothing alone. */
  lemma PassSettles(owners: Owners, unused: nat -> seq<nat>, s0: State, st: Runs, order: seq<nat>, answer: Answers,
                    share: nat -> bool, base: nat, so: seq<Offer>)
    requires AreRuns(owners, unused, s0, st) && s0.inodes.Keys <= s0.mapped.Keys && forall k: nat :: !answer(k).Leave?
    requires so == PassOffers(owners, st, order, |order|, answer, share, base)
    ensures forall k: nat :: TurnSettled(owners, st(so).inodes, so, order, share, k)
  {
    var i := st(so).inodes;
    forall o | o in i && (o in s0.inodes ==> s0.inodes[o].kind.Chain? || exists c :: Agreed(so, o, c))
      ensures OwnerSettled(i, so, o)
    {
      RunHandled(owners, unused, s0, st, so, o);
      if c :| Agreed(so, o, c) {
        var m :| 0 <= m < |so| && so[m] == Offer(o, c);
        PassAnswered(owners, st, order, |order|, answer, share, base, m);
      }
    }
    forall k: nat
      ensures TurnSettled(owners, i, so, order, share, k)
    {
      if k < |order| {
        PassOffered(owners, unused, s0, st, order, |order|, answer, share, base, so, k);
      }
    }
  }

  /** With every clone agreed to there are no deletions. */
  lemma PassReconciles(owners: Owners, st: Runs, i: Inodes, order: seq<nat>, answer: Answers, share: nat -> bool,
                       base: nat, so: seq<Offer>)
    requires (forall k: nat :: answer(k) == Clone) && forall k: nat :: !share(k)
    requires forall k: nat :: TurnSettled(owners, i, so, order, share, k)
    requires so == PassOffers(owners, st, order, |order|, answer, share, base)
    ensures forall c | c in order && c in owners :: Reconciled(i, owners[c])
  {
    forall o, c | Agreed(so, o, c)
      ensures c == Clone
    {
      var m :| 0 <= m < |so| && so[m] == Offer(o, c);
      PassAnswered(owners, st, order, |order|, answer, share, base, m);
    }
    forall c | c in order && c in owners
      ensures Reconciled(i, owners[c])
    {
      var k :| 0 <= k < |order| && order[k] == c;
      assert TurnSettled(owners, i, so, order, share, k);
    }
  }

  /** Nobody is offered without need: at that turn the cluster was not shared and two owners were left. */
  ghost predicate NeededAt(owners: Owners, st: Runs, i0: Inodes, so: seq<Offer>, order: seq<nat>, share: nat -> bool,
                           k: nat, turn: nat, from: nat) {
    && k < |so| && from <= k && turn < |order|
    && Needed(owners, i0, st(so[..from]).inodes, so[k].ino, order[turn], share(turn))
  }

  ghost predicate Needed(owners: Owners, i0: Inodes, i: Inodes, o: nat, c: nat, shared: bool) {
    && !shared && c in owners && o in owners[c] && o in i0 && !i0[o].kind.Chain?
    && Unhandled(i, owners[c], |owners[c]|) >= 2
  }

  lemma {:induction false} OnlyNeeded(owners: Owners, unused: nat -> seq<nat>, s0: State, st: Runs, order: seq<nat>,
                                      n: nat, answer: Answers, share: nat -> bool, base: nat, so: seq<Offer>, k: nat)
    returns (turn: nat, from: nat)
    requires AreRuns(owners, unused, s0, st) && n <= |order| && s0.inodes.Keys <= s0.mapped.Keys
    requires so == PassOffers(owners, st, order, n, answer, share, base) && k < |so|
    ensures turn < n && NeededAt(owners, st, s0.inodes, so, order, share, k, turn, from)
    decreases n
  {
    var before := PassOffers(owners, st, order, n - 1, answer, share, base);
    assert so[..|before|] == before;
    if k < |before| {
      turn, from := OnlyNeeded(owners, unused, s0, st, order, n - 1, answer, share, base, before, k);
      assert so[..from] == before[..from];
    } else {
      turn, from := n - 1, |before|;
      RunHandlesMore(owners, unused, s0, st, before, []);
      TurnNeeded(owners, s0.inodes, st(before).inodes, order, turn, answer, share, base + |before|, k - |before|);
    }
  }

  lemma TurnNeeded(owners: Owners, i0: Inodes, i: Inodes, order: seq<nat>, turn: nat, answer: Answers,
                   share: nat -> bool, base: nat, k: nat)
    requires turn < |order| && SameKinds(i0, i) && k < |TurnOffers(owners, i, order, turn, answer, share, base)|
    ensures var offered := TurnOffers(owners, i, order, turn, answer, share, base);
            Needed(owners, i0, i, offered[k].ino, order[turn], share(turn))
  {
    var list := owners[order[turn]];
    OfferedOne(i, list, |list|, answer, base, k);
    assert SameKindAt(i0, i, OfferAll(i, list, |list|, answer, base)[k].ino);
  }

  lemma {:induction false} OfferedOne(inodes: Inodes, list: seq<nat>, n: nat, answer: Answers, base: nat, k: nat)
    requires n <= |list| && k < |OfferAll(inodes, list, n, answer, base)|
    ensures var o := OfferAll(inodes, list, n, answer, base)[k].ino; o in list && o in inodes && !inodes[o].kind.Chain?
    decreases n
  {
    if k < |OfferAll(inodes, list, n - 1, answer, base)| {
      OfferedOne(inodes, list, n - 1, answer, base, k);
    }
  }

  /** What truncating gives back: all that is not shared, and what no other owner still claims. */
  lemma FreedExactly(owners: Owners, inodes: Inodes, ino: nat, list: seq<nat>, c: nat)
    requires IsUnhandled(inodes, ino) && (c in owners ==> ino in owners[c])
    ensures Occ(FreedOf(owners, inodes, ino, list, |list|), c)
         == if c in owners && exists o | o in owners[c] :: o != ino && IsUnhandled(inodes, o) then 0 else Occ(list, c)
  {
    FreedOcc(owners, inodes, ino, list, |list|, c);
    assert list[..|list|] == list;
  }

  /** At most one owner is left, or all that are left are allocators. */
  ghost predicate Reconciled(inodes: Inodes, list: seq<nat>) {
    || Unhandled(inodes, list, |list|) < 2
    || forall o | o in list && o in inodes :: inodes[o].kind.Chain? || Handled(inodes[o])
  }

  lemma ClaimsAreKnown(owners: Owners, inodes: Inodes, mapped: Mapped, freed: seq<nat>, ino: nat)
    requires Balanced(owners, inodes, mapped, freed) && ino in mapped
    ensures ClaimsKnown(owners, inodes, ino, mapped[ino])
  {
    forall c | c in mapped[ino] && c in owners
      ensures ino in owners[c] && IsUnhandled(inodes, ino)
    {
      OccNone(mapped[ino], c);
      assert MappedAt(owners, inodes, mapped, c, ino);
    }
  }

  /** Handling one inode keeps the balance. */
  lemma HandledStep(owners: Owners, i0: Inodes, i: Inodes, m0: Mapped, m: Mapped, f0: seq<nat>, f: seq<nat>, ino: nat,
                    copy: seq<nat>)
    requires Balanced(owners, i0, m0, f0) && ino in i0 && ino in i && i == i0[ino := i[ino]] && Handled(i[ino])
    requires m == m0[ino := copy] && forall c: nat :: c in owners ==> Occ(copy, c) == 0
    requires f == f0 + FreedOf(owners, i0, ino, m0[ino], |m0[ino]|)
    ensures Balanced(owners, i, m, f)
  {
    forall c: nat
      ensures ListedAt(owners, i, c)
    {
      assert ListedAt(owners, i0, c);
    }
    forall c: nat, o: nat
      ensures MappedAt(owners, i, m, c, o)
    {
      assert MappedAt(owners, i0, m0, c, o);
    }
    forall c: nat
      ensures FreedAt(owners, i, f, c)
    {
      FreedStep(owners, i0, i, m0, f0, f, ino, c);
    }
  }

  lemma FreedStep(owners: Owners, i0: Inodes, i: Inodes, m0: Mapped, f0: seq<nat>, f: seq<nat>, ino: nat, c: nat)
    requires Balanced(owners, i0, m0, f0) && ino in i0 && ino in i && i == i0[ino := i[ino]] && Handled(i[ino])
    requires f == f0 + FreedOf(owners, i0, ino, m0[ino], |m0[ino]|)
    ensures FreedAt(owners, i, f, c)
  {
    if c in owners {
      var list := m0[ino];
      OccConcat(f0, FreedOf(owners, i0, ino, list, |list|), c);
      FreedOcc(owners, i0, ino, list, |list|, c);
      assert list[..|list|] == list;
      assert MappedAt(owners, i0, m0, c, ino) && FreedAt(owners, i0, f0, c) && ListedAt(owners, i0, c);
      HandledLeaves(i0, i, owners[c], ino);
    }
  }

  lemma HandledLeaves(i0: Inodes, i: Inodes, list: seq<nat>, ino: nat)
    requires ino in i0 && ino in i && i == i0[ino := i[ino]] && Handled(i[ino])
    ensures HasUnhandled(i, list) <==> HasUnhandled(i0, list) && !SoleUnhandled(i0, list, ino)
  {
    if o :| o in list && IsUnhandled(i, o) {
      assert o != ino && IsUnhandled(i0, o);
    }
    if HasUnhandled(i0, list) && !SoleUnhandled(i0, list, ino) {
      if o :| o in list && IsUnhandled(i0, o) && o != ino {
        assert IsUnhandled(i, o);
      }
    }
  }
}
