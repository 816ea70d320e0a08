/** An inform that finds the queue full keeps its packet: what becomes of the tree's root slot over any run of the
    pool, and exactly when deleting the kept packet is harmless. */
module KeptTree {
  import opened Bytes
  import opened Caps
  import opened Pool
  import opened Trap

  /** The slot of a kept root: still the tree's, taken back by a reset, granted to something else, or given back
      by a release. */
  datatype Fate = Own | Reclaimed | Taken | Vacant

  /** A reset in this state frees slot k. */
  predicate Sweeps(st: State, k: nat) { k >= (if st.frozen then st.perm else High(st.slots)) }

  function NextFate(f: Fate, st: State, op: Op, k: nat): Fate {
    match op
    case Alloc(size) => if Granted(st, size) == Some(k) then Taken else f
    case Release(i) => if i == k && (f.Own? || f.Taken?) then Vacant else f
    case Freeze => f
    case Reset => if Sweeps(st, k) && (f.Own? || f.Taken?) then Reclaimed else f
  }

  function FateOf(f: Fate, st: State, ops: seq<Op>, k: nat): Fate
    decreases ops
  {
    if ops == [] then f else FateOf(NextFate(f, st, ops[0], k), Step(st, ops[0]), ops[1..], k)
  }

  /** What the pool knows of it: the tenants look alike, and so do all releases. */
  predicate Shows(st: State, k: nat, f: Fate) {
    && k < |st.slots|
    && st.slots[k].occupied == (f.Own? || f.Taken?) && st.slots[k].bulkFreed == f.Reclaimed?
  }

  lemma StepShows(f: Fate, st: State, op: Op, k: nat)
    requires Shows(st, k, f)
    ensures Shows(Step(st, op), k, NextFate(f, st, op, k))
  {
    hide High;
  }

  lemma {:induction false} RunShows(f: Fate, st: State, ops: seq<Op>, k: nat)
    requires Shows(st, k, f)
    ensures Shows(Run(st, ops), k, FateOf(f, st, ops, k))
    decreases ops
  {
    hide Shows, Step, NextFate;
    if ops != [] {
      StepShows(f, st, ops[0], k);
      RunShows(NextFate(f, st, ops[0], k), Step(st, ops[0]), ops[1..], k);
    }
  }

  // ----------------------------------------------------------------- histories

  /** Operation i of the run is a reset that takes slot k from whoever has it. */
  predicate Reclaims(st: State, ops: seq<Op>, k: nat, i: nat)
    requires i < |ops|
  {
    var at := Run(st, ops[..i]);
    ops[i].Reset? && k < |at.slots| && at.slots[k].occupied && Sweeps(at, k)
  }

  /** The slot was never taken from its tree. */
  predicate Undisturbed(st: State, ops: seq<Op>, k: nat) {
    forall i :: 0 <= i < |ops| ==> ops[i] != Release(k) && !Reclaims(st, ops, k, i)
  }

  /** Some reset took the slot, and it has not been granted since. */
  predicate NotGrantedSince(st: State, ops: seq<Op>, k: nat) {
    exists i :: 0 <= i < |ops| && Reclaims(st, ops, k, i) && NeverGranted(Run(st, ops[..i + 1]), ops[i + 1..], k)
  }

  lemma ReclaimsRest(st: State, ops: seq<Op>, k: nat, i: nat)
    requires ops != [] && i < |ops| - 1
    ensures var next := Step(st, ops[0]);
            && Run(st, ops[..i + 1]) == Run(next, ops[1..][..i])
            && (Reclaims(st, ops, k, i + 1) <==> Reclaims(next, ops[1..], k, i))
            && Run(st, ops[..i + 2]) == Run(next, ops[1..][..i + 1]) && ops[i + 2..] == ops[1..][i + 1..]
  {
    hide Step;
    assert ops[..i + 1][1..] == ops[1..][..i];
    assert ops[..i + 2][1..] == ops[1..][..i + 1];
  }

  lemma ReclaimsFirst(st: State, ops: seq<Op>, k: nat)
    requires ops != []
    ensures Reclaims(st, ops, k, 0) <==> ops[0].Reset? && k < |st.slots| && st.slots[k].occupied && Sweeps(st, k)
    ensures Run(st, ops[..1]) == Step(st, ops[0])
  {
    assert ops[..0] == [] && ops[..1][1..] == [];
  }

  lemma {:induction false} OwnIff(f: Fate, st: State, ops: seq<Op>, k: nat)
    requires Shows(st, k, f)
    ensures FateOf(f, st, ops, k) == Own <==> f == Own && Undisturbed(st, ops, k)
    decreases ops
  {
    hide Step, Shows, Reclaims, High;
    if ops != [] {
      var next, g := Step(st, ops[0]), NextFate(f, st, ops[0], k);
      StepShows(f, st, ops[0], k);
      OwnIff(g, next, ops[1..], k);
      ReclaimsFirst(st, ops, k);
      TenantShown(f, st, k);
      if f == Own && ops[0].Alloc? { GrantedFree(st, ops[0].size); }
      forall i | 0 <= i < |ops| - 1
        ensures Reclaims(st, ops, k, i + 1) <==> Reclaims(next, ops[1..], k, i)
        ensures ops[i + 1] == ops[1..][i]
      {
        ReclaimsRest(st, ops, k, i);
      }
      UndisturbedSplit(st, ops, k);
    }
  }

  lemma UndisturbedSplit(st: State, ops: seq<Op>, k: nat)
    requires ops != []
    ensures Undisturbed(st, ops, k) <==>
            ops[0] != Release(k) && !Reclaims(st, ops, k, 0) && Undisturbed(Step(st, ops[0]), ops[1..], k)
  {
    hide Step, Reclaims;
    var next := Step(st, ops[0]);
    forall i | 0 <= i < |ops| - 1 ensures Reclaims(st, ops, k, i + 1) <==> Reclaims(next, ops[1..], k, i) {
      ReclaimsRest(st, ops, k, i);
    }
    if Undisturbed(st, ops, k) {
      forall i | 0 <= i < |ops| - 1 ensures ops[1..][i] != Release(k) && !Reclaims(next, ops[1..], k, i) {
        assert ops[i + 1] != Release(k) && !Reclaims(st, ops, k, i + 1);
      }
    } else {
      var i :| 0 <= i < |ops| && (ops[i] == Release(k) || Reclaims(st, ops, k, i));
      if i > 0 { assert ops[1..][i - 1] == ops[i] && Reclaims(st, ops, k, i) == Reclaims(next, ops[1..], k, i - 1); }
    }
  }

  lemma TenantShown(f: Fate, st: State, k: nat)
    requires Shows(st, k, f)
    ensures k < |st.slots| && st.slots[k].occupied == (f.Own? || f.Taken?)
  {}

  lemma GrantedFree(st: State, size: nat)
    ensures var g := Granted(st, size); g.Some? ==> g.value < |st.slots| && !st.slots[g.value].occupied
  {}

  lemma {:induction false} ReclaimedIff(f: Fate, st: State, ops: seq<Op>, k: nat)
    requires Shows(st, k, f)
    ensures FateOf(f, st, ops, k) == Reclaimed <==>
            (f == Reclaimed && NeverGranted(st, ops, k)) || NotGrantedSince(st, ops, k)
    decreases ops
  {
    hide Step, Shows, Reclaims, High, Granted, NotGrantedSince;
    if ops == [] {
      NoHistory(st, k);
    } else {
      var next, g := Step(st, ops[0]), NextFate(f, st, ops[0], k);
      StepShows(f, st, ops[0], k);
      ReclaimedIff(g, next, ops[1..], k);
      ReclaimsFirst(st, ops, k);
      TenantShown(f, st, k);
      SinceSplit(st, ops, k);
    }
  }

  lemma NoHistory(st: State, k: nat)
    ensures !NotGrantedSince(st, [], k)
  {}

  lemma SinceSplit(st: State, ops: seq<Op>, k: nat)
    requires ops != []
    ensures NotGrantedSince(st, ops, k) <==>
            (Reclaims(st, ops, k, 0) && NeverGranted(Step(st, ops[0]), ops[1..], k))
            || NotGrantedSince(Step(st, ops[0]), ops[1..], k)
  {
    hide Step, Reclaims, NeverGranted;
    var next := Step(st, ops[0]);
    ReclaimsFirst(st, ops, k);
    if NotGrantedSince(st, ops, k) {
      var i :| 0 <= i < |ops| && Reclaims(st, ops, k, i) && NeverGranted(Run(st, ops[..i + 1]), ops[i + 1..], k);
      if i > 0 { ReclaimsRest(st, ops, k, i - 1); }
    }
    if NotGrantedSince(next, ops[1..], k) {
      var i :| 0 <= i < |ops| - 1 && Reclaims(next, ops[1..], k, i)
               && NeverGranted(Run(next, ops[1..][..i + 1]), ops[1..][i + 1..], k);
      ReclaimsRest(st, ops, k, i);
      assert Reclaims(st, ops, k, i + 1);
    }
  }

  // -------------------------------------------------------------- the kept tree

  /** The slots that are still those of the tree o, which was kept in st, after the run. */
  function StillIts(st: State, ops: seq<Op>, o: Owner): (own: set<nat>)
    ensures forall k :: k in own <==> k in Flat(o) && Undisturbed(st, ops, k)
  {
    set k | k in Flat(o) && Undisturbed(st, ops, k)
  }

  /** What the destructors find: where a node of o still has its slot it has its children too, and anything at
      all may stand in another slot. */
  predicate StandsFor(own: set<nat>, o: Owner, s: Owner)
    decreases o
  {
    s.slot == o.slot && (o.slot in own ==> AllStandFor(own, o.kids, s.kids))
  }

  predicate AllStandFor(own: set<nat>, os: seq<Owner>, ss: seq<Owner>)
    decreases os
  {
    |os| == |ss| && (os == [] || (StandsFor(own, os[0], ss[0]) && AllStandFor(own, os[1..], ss[1..])))
  }

  /** Silent, and only slots in own are given back. */
  predicate Harmless(st: State, r: State, own: set<nat>) {
    && |r.slots| == |st.slots| && r.alarms == st.alarms
    && forall k :: 0 <= k < |st.slots| && st.slots[k].occupied && !r.slots[k].occupied ==> k in own
  }

  /** Every node the deletion gets to, which it does through nodes that still have their slots, still has its slot,
      or a reset took the slot and it was not granted since, or the slot is free and has been warned about. */
  predicate Passable(st: State, ops: seq<Op>, o: Owner)
    decreases o
  {
    if Undisturbed(st, ops, o.slot) then AllPassable(st, ops, o.kids)
    else NotGrantedSince(st, ops, o.slot) || FreeAndWarned(Run(st, ops), o.slot)
  }

  predicate AllPassable(st: State, ops: seq<Op>, os: seq<Owner>)
    decreases os
  {
    os == [] || (Passable(st, ops, os[0]) && AllPassable(st, ops, os[1..]))
  }

  predicate FreeAndWarned(st: State, k: nat) { k < |st.slots| && !st.slots[k].occupied && st.slots[k].warned }

  /** A live tree is kept in st; after any run of the pool its packet is deleted. That is silent and gives back only
      slots that are still the tree's if and only if every node it gets to is passable. */
  lemma HarmlessIff(st: State, ops: seq<Op>, o: Owner, stands: Owner)
    requires Inv(st) && NoDup(Flat(o)) && AllLive(st, Flat(o))
    requires StandsFor(StillIts(st, ops, o), o, stands)
    ensures var end := Run(st, ops);
            Harmless(end, Deleted(end, stands), StillIts(st, ops, o)) <==> Passable(st, ops, o)
  {
    hide Inv, NoDup, Deleted, Flat, Undisturbed, StandsFor, Harmless, Passable, Passes;
    var own, end := StillIts(st, ops, o), Run(st, ops);
    LiveShows(st, Flat(o));
    RunLength(st, ops);
    SlotsShow(st, ops, Flat(o), own);
    PassesIff(st, ops, own, o);
    DeletedPasses(end, end, own, o, stands);
  }

  lemma LiveShows(st: State, s: seq<nat>)
    requires Inv(st) && AllLive(st, s)
    ensures forall k :: k in s ==> Shows(st, k, Own)
  {}

  /** The flags of the slots after the run, by their histories. */
  predicate Told(st: State, ops: seq<Op>, s: seq<nat>, own: set<nat>) {
    var end := Run(st, ops);
    forall k :: k in s ==>
      && k < |end.slots| && (k in own <==> Undisturbed(st, ops, k)) && (k in own ==> end.slots[k].occupied)
      && (NotGrantedSince(st, ops, k) <==> !end.slots[k].occupied && end.slots[k].bulkFreed)
  }

  lemma SlotsShow(st: State, ops: seq<Op>, s: seq<nat>, own: set<nat>)
    requires forall k :: k in s ==> Shows(st, k, Own)
    requires forall k :: k in own <==> k in s && Undisturbed(st, ops, k)
    ensures Told(st, ops, s, own)
  {
    hide Undisturbed, NotGrantedSince, Run, NeverGranted;
    var end := Run(st, ops);
    forall k | k in s
      ensures k < |end.slots| && (k in own ==> end.slots[k].occupied)
      ensures NotGrantedSince(st, ops, k) <==> !end.slots[k].occupied && end.slots[k].bulkFreed
    {
      RunShows(Own, st, ops, k);
      OwnIff(Own, st, ops, k);
      ReclaimedIff(Own, st, ops, k);
    }
  }

  /** The same in the state the deletion finds. */
  predicate Passes(end: State, own: set<nat>, o: Owner)
    decreases o
  {
    if o.slot in own then AllPass(end, own, o.kids)
    else && o.slot < |end.slots| && !end.slots[o.slot].occupied
         && (end.slots[o.slot].bulkFreed || end.slots[o.slot].warned)
  }

  predicate AllPass(end: State, own: set<nat>, os: seq<Owner>)
    decreases os
  {
    os == [] || (Passes(end, own, os[0]) && AllPass(end, own, os[1..]))
  }

  lemma {:induction false} PassesIff(st: State, ops: seq<Op>, own: set<nat>, o: Owner)
    requires Told(st, ops, Flat(o), own)
    ensures Passes(Run(st, ops), own, o) <==> Passable(st, ops, o)
    decreases o
  {
    hide Undisturbed, NotGrantedSince, Run;
    assert o.slot in Flat(o) && forall k :: k in FlatAll(o.kids) ==> k in Flat(o);
    AllPassIff(st, ops, own, o.kids);
  }

  lemma {:induction false} AllPassIff(st: State, ops: seq<Op>, own: set<nat>, os: seq<Owner>)
    requires Told(st, ops, FlatAll(os), own)
    ensures AllPass(Run(st, ops), own, os) <==> AllPassable(st, ops, os)
    decreases os
  {
    hide Undisturbed, NotGrantedSince, Run, Passes, Passable, Flat;
    if os != [] {
      FirstKids(os);
      PassesIff(st, ops, own, os[0]);
      AllPassIff(st, ops, own, os[1..]);
    }
  }

  // ------------------------------------------------------------- the deletion

  /** From m to r a deletion has touched at most the slots in s: it was silent there and gave back slots in own
      only, or it was not, and there is no undoing it. */
  predicate Touched(m: State, r: State, own: set<nat>, s: seq<nat>, passes: bool) {
    && |r.slots| == |m.slots| && r.alarms >= m.alarms
    && (forall k :: 0 <= k < |m.slots| && r.slots[k].occupied ==> m.slots[k].occupied)
    && (passes ==> Harmless(m, r, own) && forall k :: 0 <= k < |m.slots| && k !in s ==> r.slots[k] == m.slots[k])
    && (!passes ==> !Harmless(m, r, own))
  }

  /** The slots in s are in m as they were at the end of the run. */
  predicate SameOn(end: State, m: State, s: seq<nat>) {
    |m.slots| == |end.slots| && forall k :: k in s ==> k < |end.slots| && m.slots[k] == end.slots[k]
  }

  lemma {:induction false} OnlyFrees(m: State, s: Owner)
    ensures var r := Deleted(m, s);
            && r.alarms >= m.alarms
            && (forall k :: 0 <= k < |m.slots| && r.slots[k].occupied ==> m.slots[k].occupied)
            && (s.slot < |m.slots| ==> !r.slots[s.slot].occupied)
    decreases s
  {
    AllOnlyFree(m, s.kids);
  }

  lemma {:induction false} AllOnlyFree(m: State, ss: seq<Owner>)
    ensures var r := DeletedAll(m, ss);
            && r.alarms >= m.alarms
            && (forall k :: 0 <= k < |m.slots| && r.slots[k].occupied ==> m.slots[k].occupied)
    decreases ss
  {
    hide Deleted;
    if ss != [] {
      OnlyFrees(m, ss[0]);
      AllOnlyFree(Deleted(m, ss[0]), ss[1..]);
    }
  }

  lemma {:induction false} DeletedPasses(end: State, m: State, own: set<nat>, o: Owner, s: Owner)
    requires NoDup(Flat(o)) && SameOn(end, m, Flat(o)) && StandsFor(own, o, s)
    requires forall k :: k in Flat(o) && k in own ==> end.slots[k].occupied
    ensures Touched(m, Deleted(m, s), own, Flat(o), Passes(end, own, o))
    decreases o
  {
    hide NoDup, DeletedAll, AllPass, AllStandFor, FlatAll, Step;
    NoDupParts([o.slot], FlatAll(o.kids));
    assert o.slot in Flat(o) && forall k :: k in FlatAll(o.kids) ==> k in Flat(o);
    OnlyFrees(m, s);
    if o.slot in own {
      AllDeletedPass(end, m, own, o.kids, s.kids);
      LastRelease(m, DeletedAll(m, s.kids), own, o.slot, FlatAll(o.kids), AllPass(end, own, o.kids));
    } else if !m.slots[o.slot].occupied {
      FreeRelease(m, own, o.slot, Flat(o));
    }
  }

  lemma LastRelease(m: State, r: State, own: set<nat>, k: nat, s: seq<nat>, passes: bool)
    requires Touched(m, r, own, s, passes) && k in own && k !in s && k < |m.slots| && m.slots[k].occupied
    ensures Touched(m, Step(r, Release(k)), own, [k] + s, passes)
  {
    if passes { assert r.slots[k] == m.slots[k]; }
  }

  lemma FreeRelease(m: State, own: set<nat>, k: nat, s: seq<nat>)
    requires k < |m.slots| && !m.slots[k].occupied
    ensures Touched(m, Step(m, Release(k)), own, s, m.slots[k].bulkFreed || m.slots[k].warned)
  {}

  lemma {:induction false} AllDeletedPass(end: State, m: State, own: set<nat>, os: seq<Owner>, ss: seq<Owner>)
    requires NoDup(FlatAll(os)) && SameOn(end, m, FlatAll(os)) && AllStandFor(own, os, ss)
    requires forall k :: k in FlatAll(os) && k in own ==> end.slots[k].occupied
    ensures Touched(m, DeletedAll(m, ss), own, FlatAll(os), AllPass(end, own, os))
    decreases os
  {
    hide NoDup, Deleted, Passes, StandsFor, Flat, Touched;
    if os == [] {
      NothingTouched(m, own);
    } else {
      FirstKids(os);
      NoDupParts(Flat(os[0]), FlatAll(os[1..]));
      var r := Deleted(m, ss[0]);
      DeletedPasses(end, m, own, os[0], ss[0]);
      AllOnlyFree(r, ss[1..]);
      if Passes(end, own, os[0]) {
        TouchedElsewhere(end, m, r, own, Flat(os[0]), FlatAll(os[1..]));
        AllDeletedPass(end, r, own, os[1..], ss[1..]);
        TouchedTwice(m, r, DeletedAll(r, ss[1..]), own, Flat(os[0]), FlatAll(os[1..]), AllPass(end, own, os[1..]));
      } else {
        TouchedForGood(m, r, DeletedAll(r, ss[1..]), own, Flat(os[0]), FlatAll(os));
      }
    }
  }

  lemma NothingTouched(m: State, own: set<nat>)
    ensures Touched(m, m, own, [], true)
  {}

  lemma TouchedElsewhere(end: State, m: State, r: State, own: set<nat>, a: seq<nat>, b: seq<nat>)
    requires Touched(m, r, own, a, true) && SameOn(end, m, b) && forall k :: k in b ==> k !in a
    ensures SameOn(end, r, b)
  {}

  lemma TouchedTwice(m: State, r: State, t: State, own: set<nat>, a: seq<nat>, b: seq<nat>, passes: bool)
    requires Touched(m, r, own, a, true) && Touched(r, t, own, b, passes)
    ensures Touched(m, t, own, a + b, passes)
  {
    if !passes && t.alarms == m.alarms {
      var k :| 0 <= k < |r.slots| && r.slots[k].occupied && !t.slots[k].occupied && k !in own;
      assert m.slots[k].occupied;
    }
  }

  lemma TouchedForGood(m: State, r: State, t: State, own: set<nat>, a: seq<nat>, b: seq<nat>)
    requires Touched(m, r, own, a, false) && |t.slots| == |r.slots| && t.alarms >= r.alarms
    requires forall k :: 0 <= k < |r.slots| && t.slots[k].occupied ==> r.slots[k].occupied
    ensures Touched(m, t, own, b, false)
  {
    if t.alarms == m.alarms {
      var k :| 0 <= k < |m.slots| && m.slots[k].occupied && !r.slots[k].occupied && k !in own;
      assert !t.slots[k].occupied;
    }
  }

  // ------------------------------------------- trees on one side of the baseline

  /** The baseline does not cut through s. */
  predicate OneSide(st: State, s: seq<nat>) {
    !st.frozen || (forall k :: k in s ==> k < st.perm) || (forall k :: k in s ==> k >= st.perm)
  }

  /** For a tree on one side of the baseline, of which nobody else releases a slot, the history of its root decides:
      while the root has its slot the whole tree is there, and deleting the packet gives back exactly that. */
  lemma RootDecides(st: State, ops: seq<Op>, o: Owner, stands: Owner)
    requires Inv(st) && NoDup(Flat(o)) && AllLive(st, Flat(o)) && OneSide(st, Flat(o))
    requires forall k :: k in Flat(o) ==> Release(k) !in ops
    requires StandsFor(StillIts(st, ops, o), o, stands)
    ensures var k, end := o.slot, Run(st, ops);
            && (Harmless(end, Deleted(end, stands), StillIts(st, ops, o)) <==>
                Undisturbed(st, ops, k) || NotGrantedSince(st, ops, k) || FreeAndWarned(end, k))
            && (Undisturbed(st, ops, k) ==>
                  AllLive(end, Flat(o)) && stands == o && Erased(end, Deleted(end, o), Flat(o)))
  {
    hide Inv, NoDup, Deleted, Flat, StandsFor, Harmless, NotGrantedSince, FreeAndWarned, Undisturbed, AllLive, Erased;
    HarmlessIff(st, ops, o, stands);
    RootIn(o);
    if Undisturbed(st, ops, o.slot) {
      WholeStays(st, ops, o.slot, Flat(o));
      AllAround(st, ops, o);
      LiveIsQuiet(Run(st, ops), Flat(o));
      DeletedIs(Run(st, ops), o);
      StandsWhole(StillIts(st, ops, o), o, stands);
    }
  }

  lemma RootIn(o: Owner)
    ensures o.slot in Flat(o)
  {}

  lemma LiveIsQuiet(st: State, s: seq<nat>)
    requires AllLive(st, s)
    ensures Quiet(st, s)
  {}

  lemma {:induction false} WholeStays(st: State, ops: seq<Op>, root: nat, s: seq<nat>)
    requires Inv(st) && AllLive(st, s) && OneSide(st, s) && root in s
    requires Undisturbed(st, ops, root) && forall k :: k in s ==> Release(k) !in ops
    ensures AllLive(Run(st, ops), s) && forall k :: k in s ==> Undisturbed(st, ops, k)
    decreases ops
  {
    hide Inv, Step, Undisturbed, AllLive, OneSide, Reclaims;
    if ops == [] {
      NothingDisturbs(st);
    } else {
      var next := Step(st, ops[0]);
      UndisturbedSplit(st, ops, root);
      StepInv(st, ops[0]);
      forall k | k in s ensures ops[0] != Release(k) { assert ops[0] in ops; }
      StepWhole(st, ops, root, s);
      forall k | k in s ensures Release(k) !in ops[1..] { assert Release(k) !in ops; }
      WholeStays(next, ops[1..], root, s);
      forall k | k in s ensures Undisturbed(st, ops, k) { UndisturbedSplit(st, ops, k); }
    }
  }

  lemma NothingDisturbs(st: State)
    ensures forall k :: Undisturbed(st, [], k)
  {}

  lemma StepWhole(st: State, ops: seq<Op>, root: nat, s: seq<nat>)
    requires Inv(st) && AllLive(st, s) && OneSide(st, s) && root in s && ops != []
    requires !Reclaims(st, ops, root, 0) && forall k :: k in s ==> ops[0] != Release(k)
    ensures var next := Step(st, ops[0]);
            AllLive(next, s) && OneSide(next, s) && forall k :: k in s ==> !Reclaims(st, ops, k, 0)
  {
    hide Inv, Occupied, Warned, High, Reclaims;
    CountBounds(st.slots);
    ReclaimsFirst(st, ops, root);
    forall k | k in s ensures Reclaims(st, ops, k, 0) <==> ops[0].Reset? && Sweeps(st, k) {
      ReclaimsFirst(st, ops, k);
    }
  }

  lemma {:induction false} AllAround(st: State, ops: seq<Op>, o: Owner)
    requires forall k :: k in Flat(o) ==> Undisturbed(st, ops, k)
    ensures Passable(st, ops, o)
    decreases o
  {
    hide Undisturbed, NotGrantedSince, FreeAndWarned;
    assert o.slot in Flat(o) && forall k :: k in FlatAll(o.kids) ==> k in Flat(o);
    AllKidsAround(st, ops, o.kids);
  }

  lemma {:induction false} AllKidsAround(st: State, ops: seq<Op>, os: seq<Owner>)
    requires forall k :: k in FlatAll(os) ==> Undisturbed(st, ops, k)
    ensures AllPassable(st, ops, os)
    decreases os
  {
    hide Undisturbed, Passable, Flat;
    if os != [] {
      FirstKids(os);
      AllAround(st, ops, os[0]);
      AllKidsAround(st, ops, os[1..]);
    }
  }

  lemma {:induction false} StandsWhole(own: set<nat>, o: Owner, s: Owner)
    requires StandsFor(own, o, s) && forall k :: k in Flat(o) ==> k in own
    ensures s == o
    decreases o
  {
    assert o.slot in Flat(o) && forall k :: k in FlatAll(o.kids) ==> k in Flat(o);
    AllStandWhole(own, o.kids, s.kids);
  }

  lemma {:induction false} AllStandWhole(own: set<nat>, os: seq<Owner>, ss: seq<Owner>)
    requires AllStandFor(own, os, ss) && forall k :: k in FlatAll(os) ==> k in own
    ensures ss == os
    decreases os
  {
    hide StandsFor, Flat;
    if os != [] {
      FirstKids(os);
      StandsWhole(own, os[0], ss[0]);
      AllStandWhole(own, os[1..], ss[1..]);
      assert os == [os[0]] + os[1..] && ss == [ss[0]] + ss[1..];
    }
  }

  /** Without the baseline on one side of it the root does not decide. A tree whose root fills a hole below the
      baseline has a child right above: the next reset takes the child alone. A value is granted its slot; while
      the value stands there deleting the packet gives it back, and when the value has gone, raises an alarm. */
  lemma Straddling(st: State, root: nat, size: nat, kids: seq<Owner>)
    requires Inv(st) && Settled(st) && root < st.perm < |st.slots| && size <= SLOT_SIZE
    requires st.slots[st.perm].occupied && !st.slots[st.perm].warned
    ensures var k, o := st.perm, Owner(root, [Owner(st.perm, kids)]);
            var granted, gone := [Reset, Alloc(size)], [Reset, Alloc(size), Release(k)];
            && Undisturbed(st, granted, root) && Undisturbed(st, gone, root)
            && (var end, value := Run(st, granted), Owner(root, [Owner(k, [])]);
                && Erased(end, Deleted(end, value), [root, k])
                && !Harmless(end, Deleted(end, value), StillIts(st, granted, o)))
            && Deleted(Run(st, gone), o).alarms == Run(st, gone).alarms + 1
  {
    hide Inv, Occupied, Warned, Deleted, Undisturbed;
    var k := st.perm;
    var a := Step(st, Reset);
    assert a.slots == Swept(st.slots, k);
    GrantedPerm(a, size, k);
    var b := Step(a, Alloc(size));
    var c := Step(b, Release(k));
    TwoSteps(st, Reset, Alloc(size));
    ThreeSteps(st, Reset, Alloc(size), Release(k));
    StraddlingHistory(st, root, size);
    OneKid(b, root, k, []);
    OneKid(c, root, k, kids);
    assert DeletedAll(b, []) == b;
  }

  /** A live root with one child. */
  lemma OneKid(st: State, root: nat, k: nat, kids: seq<Owner>)
    requires root < |st.slots| && st.slots[root].occupied && k < |st.slots| && k != root
    ensures var r := Deleted(st, Owner(root, [Owner(k, kids)]));
            var m := if st.slots[k].occupied then Step(DeletedAll(st, kids), Release(k)) else Step(st, Release(k));
            r == Step(m, Release(root))
  {
    var o := Owner(k, kids);
    assert [o][1..] == [];
    assert DeletedAll(st, [o]) == DeletedAll(Deleted(st, o), []) == Deleted(st, o);
  }

  lemma TwoSteps(st: State, a: Op, b: Op)
    ensures Run(st, [a, b]) == Step(Step(st, a), b)
  {
    hide Step;
    assert [a, b][1..] == [b] && [b][1..] == [];
    assert Run(Step(st, a), [b]) == Step(Step(st, a), b);
  }

  lemma StraddlingHistory(st: State, root: nat, size: nat)
    requires Settled(st) && root < st.perm < |st.slots| && st.slots[st.perm].occupied
    ensures var granted, gone := [Reset, Alloc(size)], [Reset, Alloc(size), Release(st.perm)];
            Undisturbed(st, granted, root) && Undisturbed(st, gone, root) && !Undisturbed(st, granted, st.perm)
  {
    hide Step, Run;
    var granted, gone := [Reset, Alloc(size)], [Reset, Alloc(size), Release(st.perm)];
    ReclaimsFirst(st, granted, root);
    ReclaimsFirst(st, gone, root);
    ReclaimsFirst(st, granted, st.perm);
    assert Reclaims(st, granted, st.perm, 0);
  }

  lemma {:induction false} RunLength(st: State, ops: seq<Op>)
    ensures |Run(st, ops).slots| == |st.slots|
    decreases ops
  {
    if ops != [] { RunLength(Step(st, ops[0]), ops[1..]); }
  }

  /** The failing run. A tree is kept right above the baseline; the next reset takes it, the first value of the next
      request gets its root slot and is given back. Deleting the kept packet now, after any further resets too,
      raises an alarm. */
  lemma RequestBetween(st: State, stands: Owner, size: nat, resets: nat)
    requires Inv(st) && Settled(st) && stands.slot == st.perm < |st.slots| && size <= SLOT_SIZE
    requires st.slots[st.perm].occupied && !st.slots[st.perm].warned
    ensures var end := Resets(Run(st, [Reset, Alloc(size), Release(st.perm)]), resets);
            end.alarms == st.alarms && Deleted(end, stands).alarms == st.alarms + 1
  {
    hide Inv, Occupied, Warned;
    var k := st.perm;
    var a := Step(st, Reset);
    assert a.slots == Swept(st.slots, k);
    GrantedPerm(a, size, k);
    var b := Step(a, Alloc(size));
    var c := Step(b, Release(k));
    ThreeSteps(st, Reset, Alloc(size), Release(k));
    StaysVacant(c, resets, k);
    DeleteOutcome(Resets(c, resets), stands);
  }

  lemma ThreeSteps(st: State, a: Op, b: Op, c: Op)
    ensures Run(st, [a, b, c]) == Step(Step(Step(st, a), b), c)
  {
    hide Step;
    assert [a, b, c][1..] == [b, c] && [b, c][1..] == [c] && [c][1..] == [];
    assert Run(Step(Step(st, a), b), [c]) == Step(Step(Step(st, a), b), c);
  }

  lemma GrantedPerm(st: State, size: nat, k: nat)
    requires k < |st.slots| && st.used == k && size <= SLOT_SIZE && !st.slots[k].occupied
    requires forall i :: 0 <= i < k ==> st.slots[i].occupied
    ensures Granted(st, size) == Some(k)
  {}

  function Resets(st: State, n: nat): State
    decreases n
  {
    if n == 0 then st else Resets(Step(st, Reset), n - 1)
  }

  lemma {:induction false} StaysVacant(st: State, n: nat, k: nat)
    requires Settled(st) && st.perm <= k < |st.slots| && Dangling(st, k) && !st.slots[k].warned
    ensures var r := Resets(st, n);
            |r.slots| == |st.slots| && Dangling(r, k) && !r.slots[k].warned && r.alarms == st.alarms
    decreases n
  {
    if n > 0 {
      assert Step(st, Reset).slots == Swept(st.slots, st.perm);
      StaysVacant(Step(st, Reset), n - 1, k);
    }
  }

  /** Two kept trees whose roots had the same slot: the first packet's delete gives back the second tree, and
      the second packet's own delete is then an alarm. */
  lemma TwoKept(st: State, m: State, second: Owner)
    requires Inv(m) && Grown(st, m, Flat(second)) && second.slot < |m.slots| && !m.slots[second.slot].warned
    ensures var once := Deleted(m, second);
            && Grown(st, once, [])
            && Deleted(once, second).alarms == once.alarms + 1
  {
    hide Inv, FlatAll, Deleted;
    assert Flat(second) + [] == Flat(second);
    Shrunk(st, m, second, []);
    RootVacant(st, m, second);
    DeleteOutcome(Deleted(m, second), second);
  }

  lemma RootVacant(st: State, m: State, o: Owner)
    requires Inv(m) && Grown(st, m, Flat(o))
    ensures |Deleted(m, o).slots| == |m.slots| && Dangling(Deleted(m, o), o.slot)
    ensures Deleted(m, o).slots[o.slot].warned == m.slots[o.slot].warned
  {
    hide FlatAll, Deleted, Occupied, Warned;
    RootFirst(o);
    DeletedIs(m, o);
  }
}
