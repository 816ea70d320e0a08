/** The ASN pool allocator: first-fit slots, a frozen permanent baseline, a bulk reset that leaves
    a grace flag for stale deletes, and a one-shot double-release latch. */
module Pool {
  import opened Bytes
  import opened Caps

  /** sizeof of the container types: each fits a slot. */
  type Sizes = f: byte -> nat | forall tag :: f(tag) <= SLOT_SIZE witness (tag => 0)

  const SIZE_OF: Sizes

  datatype Slot = Slot(occupied: bool, warned: bool, bulkFreed: bool)

  datatype State = State(slots: seq<Slot>, used: int, perm: nat, peak: int, alarms: nat, frozen: bool)

  datatype Op = Alloc(size: nat) | Release(slot: nat) | Freeze | Reset

  // -------------------------------------------------------- the state machine

  function Occupied(s: seq<Slot>): nat {
    if s == [] then 0 else Occupied(s[..|s| - 1]) + if s[|s| - 1].occupied then 1 else 0
  }

  function Warned(s: seq<Slot>): nat {
    if s == [] then 0 else Warned(s[..|s| - 1]) + if s[|s| - 1].warned then 1 else 0
  }

  /** One past the last occupied slot. */
  function High(s: seq<Slot>): (h: nat)
    ensures h <= |s|
  {
    if s == [] then 0 else if s[|s| - 1].occupied then |s| else High(s[..|s| - 1])
  }

  /** The lowest free slot, |s| if there is none. */
  function FirstFree(s: seq<Slot>, from: nat): (i: nat)
    requires from <= |s|
    ensures from <= i <= |s|
    ensures forall j :: from <= j < i ==> s[j].occupied
    ensures i < |s| ==> !s[i].occupied
    decreases |s| - from
  {
    if from == |s| then from else if !s[from].occupied then from else FirstFree(s, from + 1)
  }

  /** The slot rawAlloc hands out. */
  function Granted(st: State, size: nat): Option<nat> {
    if size > SLOT_SIZE || st.used >= |st.slots| then None
    else
      var i := FirstFree(st.slots, 0);
      if i < |st.slots| then Some(i) else None
  }

  function Frozen(st: State): State {
    var high := High(st.slots);
    st.(perm := high, used := if high < st.used then high else st.used, frozen := true)
  }

  function Swept(s: seq<Slot>, perm: nat): (r: seq<Slot>)
    ensures |r| == |s|
    ensures forall i :: 0 <= i < |s| ==>
              r[i] == if i < perm then s[i] else Slot(false, s[i].warned, s[i].occupied || s[i].bulkFreed)
  {
    seq(|s|, i requires 0 <= i < |s| =>
      if i < perm then s[i] else Slot(false, s[i].warned, s[i].occupied || s[i].bulkFreed))
  }

  function Step(st: State, op: Op): State {
    match op
    case Alloc(size) =>
      (match Granted(st, size)
       case None => st
       case Some(i) =>
         st.(slots := st.slots[i := st.slots[i].(occupied := true, bulkFreed := false)],
             used := st.used + 1, peak := Max(st.peak, st.used + 1)))
    case Release(i) =>
      if i >= |st.slots| then st
      else if st.slots[i].occupied then
        st.(slots := st.slots[i := st.slots[i].(occupied := false)], used := st.used - 1)
      else if st.slots[i].bulkFreed || st.slots[i].warned then st
      else st.(slots := st.slots[i := st.slots[i].(warned := true)], alarms := st.alarms + 1)
    case Freeze => Frozen(st)
    case Reset =>
      var f := if st.frozen then st else Frozen(st);
      f.(slots := Swept(f.slots, f.perm), used := f.perm)
  }

  function Run(st: State, ops: seq<Op>): State
    decreases ops
  {
    if ops == [] then st else Run(Step(st, ops[0]), ops[1..])
  }

  function Fresh(n: nat): State { State(seq(n, _ => Slot(false, false, false)), 0, 0, 0, 0, false) }

  predicate Inv(st: State) {
    && Occupied(st.slots) <= st.used <= |st.slots|
    && st.perm <= |st.slots|
    && st.alarms == Warned(st.slots)
    && forall i :: 0 <= i < |st.slots| ==> !(st.slots[i].occupied && st.slots[i].bulkFreed)
  }

  // ---------------------------------------------------------------- counting

  lemma {:induction false} CountUpdate(s: seq<Slot>, i: nat, x: Slot)
    requires i < |s|
    ensures Occupied(s[i := x]) == Occupied(s) + (if x.occupied then 1 else 0) - (if s[i].occupied then 1 else 0)
    ensures Warned(s[i := x]) == Warned(s) + (if x.warned then 1 else 0) - (if s[i].warned then 1 else 0)
  {
    var n := |s| - 1;
    if i == n {
      assert s[i := x][..n] == s[..n];
    } else {
      assert s[i := x][..n] == s[..n][i := x];
      CountUpdate(s[..n], i, x);
    }
  }

  lemma {:induction false} CountBounds(s: seq<Slot>)
    ensures Occupied(s) <= High(s) <= |s|
    ensures forall i :: High(s) <= i < |s| ==> !s[i].occupied
    ensures (forall i :: 0 <= i < |s| ==> s[i].occupied) ==> Occupied(s) == |s|
  {
    if s != [] {
      CountBounds(s[..|s| - 1]);
      if s[|s| - 1].occupied { AtMost(s[..|s| - 1]); }
    }
  }

  lemma {:induction false} AtMost(s: seq<Slot>)
    ensures Occupied(s) <= |s|
  {
    if s != [] { AtMost(s[..|s| - 1]); }
  }

  lemma {:induction false} SweptCounts(s: seq<Slot>, perm: nat)
    ensures Occupied(Swept(s, perm)) <= Occupied(s)
    ensures perm <= |s| ==> Occupied(Swept(s, perm)) <= perm
    ensures Warned(Swept(s, perm)) == Warned(s)
  {
    if s != [] {
      var n := |s| - 1;
      assert Swept(s, perm)[..n] == Swept(s[..n], perm);
      SweptCounts(s[..n], perm);
      if perm == |s| { AtMost(Swept(s[..n], perm)); }
    }
  }

  // --------------------------------------------------------------- invariants

  lemma {:induction false} FreshInv(n: nat)
    ensures Inv(Fresh(n))
  {
    if n > 0 {
      FreshInv(n - 1);
      assert Fresh(n).slots[..n - 1] == Fresh(n - 1).slots;
    }
  }

  /** Every operation keeps the invariant. */
  lemma StepInv(st: State, op: Op)
    requires Inv(st)
    ensures Inv(Step(st, op))
  {
    hide Inv, Step;
    match op
    case Alloc(size) => AllocInv(st, size);
    case Release(i) => ReleaseInv(st, i);
    case Freeze => FreezeInv(st);
    case Reset => ResetInv(st);
  }

  lemma AllocInv(st: State, size: nat)
    requires Inv(st)
    ensures Inv(Step(st, Alloc(size)))
  {
    hide Occupied, Warned, FirstFree;
    if Granted(st, size).Some? {
      var i := Granted(st, size).value;
      CountUpdate(st.slots, i, st.slots[i].(occupied := true, bulkFreed := false));
    }
  }

  lemma ReleaseInv(st: State, i: nat)
    requires Inv(st)
    ensures Inv(Step(st, Release(i)))
  {
    hide Occupied, Warned;
    if i < |st.slots| {
      CountUpdate(st.slots, i, st.slots[i].(occupied := false));
      CountUpdate(st.slots, i, st.slots[i].(warned := true));
    }
  }

  lemma FreezeInv(st: State)
    requires Inv(st)
    ensures Inv(Step(st, Freeze))
  {
    hide Occupied, Warned, High;
    CountBounds(st.slots);
  }

  lemma ResetInv(st: State)
    requires Inv(st)
    ensures Inv(Step(st, Reset))
  {
    hide Occupied, Warned, High;
    CountBounds(st.slots);
    var f := if st.frozen then st else Frozen(st);
    SweptCounts(f.slots, f.perm);
  }

  lemma PermWithin(st: State)
    requires Inv(st)
    ensures st.perm <= |st.slots| && Step(st, Freeze).perm <= |st.slots|
  {}

  /** Occupied slots <= usedCount <= capacity, no occupied slot is bulk-freed and the alarm count
      is the number of latched slots, after any run from the empty pool. */
  lemma RunInv(n: nat, ops: seq<Op>)
    ensures Inv(Run(Fresh(n), ops)) && |Run(Fresh(n), ops).slots| == n
  {
    FreshInv(n);
    RunInvFrom(Fresh(n), ops);
  }

  lemma {:induction false} RunInvFrom(st: State, ops: seq<Op>)
    requires Inv(st)
    ensures Inv(Run(st, ops)) && |Run(st, ops).slots| == |st.slots|
    decreases ops
  {
    if ops != [] {
      StepInv(st, ops[0]);
      RunInvFrom(Step(st, ops[0]), ops[1..]);
    }
  }

  /** A request succeeds exactly when it fits a slot and usedCount is below the capacity, and it gets the lowest
      free slot. */
  lemma AllocIff(st: State, size: nat)
    requires Inv(st)
    ensures Granted(st, size).Some? <==> size <= SLOT_SIZE && st.used < |st.slots|
    ensures Granted(st, size).Some? ==>
              var i := Granted(st, size).value;
              && i < |st.slots| && !st.slots[i].occupied
              && forall j :: 0 <= j < i ==> st.slots[j].occupied
  {
    CountBounds(st.slots);
  }

  /** A granted slot is occupied and out of grace; nothing else changes but the counts. */
  lemma GrantIs(st: State, size: nat)
    requires Inv(st)
    ensures var g, r := Granted(st, size), Step(st, Alloc(size));
            && (g.None? ==> r == st)
            && (g.Some? ==>
                  && OnlySlot(st, r, g.value) && r.slots[g.value].occupied && !r.slots[g.value].bulkFreed
                  && r.slots[g.value].warned == st.slots[g.value].warned && r.used == st.used + 1
                  && r.peak >= r.used && r.peak >= st.peak && (r.peak == r.used || r.peak == st.peak)
                  && r.alarms == st.alarms)
  {
    hide Occupied, Warned;
  }

  /** r is st but for slot k and the counts. */
  predicate OnlySlot(st: State, r: State, k: nat) {
    && k < |st.slots| == |r.slots| && r.perm == st.perm && r.frozen == st.frozen
    && forall i :: 0 <= i < |st.slots| && i != k ==> r.slots[i] == st.slots[i]
  }

  /** Releasing a live slot frees it, without grace, and is counted once. */
  lemma ReleaseIs(st: State, k: nat)
    requires Inv(st) && k < |st.slots| && st.slots[k].occupied
    ensures var r := Step(st, Release(k));
            && OnlySlot(st, r, k) && !r.slots[k].occupied && !r.slots[k].bulkFreed
            && r.slots[k].warned == st.slots[k].warned
            && r.used == st.used - 1 && r.peak == st.peak && r.alarms == st.alarms
  {
    hide Occupied, Warned;
  }

  /** The baseline ends with the last live slot, and the count is cut down to it; no slot changes. */
  lemma FreezeIs(st: State)
    requires Inv(st)
    ensures var r := Step(st, Freeze);
            && r.slots == st.slots && r.frozen && r.peak == st.peak && r.alarms == st.alarms
            && r.perm <= |st.slots| && (r.perm > 0 ==> st.slots[r.perm - 1].occupied)
            && (forall k :: r.perm <= k < |st.slots| ==> !st.slots[k].occupied)
            && r.used == if st.used <= r.perm then st.used else r.perm
  {
    hide Occupied, Warned;
    CountBounds(st.slots);
    HighEnds(st.slots);
  }

  lemma {:induction false} HighEnds(s: seq<Slot>)
    ensures High(s) > 0 ==> s[High(s) - 1].occupied
  {
    if s != [] { HighEnds(s[..|s| - 1]); }
  }

  // ------------------------------------------------------ permanence, grace

  predicate Pinned(st: State, i: nat) {
    i < |st.slots| && st.slots[i].occupied && st.frozen && i < st.perm
  }

  lemma StepPinned(st: State, op: Op, i: nat)
    requires Inv(st) && Pinned(st, i) && op != Release(i)
    ensures Pinned(Step(st, op), i)
  {
    CountBounds(st.slots);
  }

  /** A slot live when the baseline is first frozen (explicitly, or by the first reset) survives
      every later operation, resets and further freezes included, until it is itself released. */
  lemma {:induction false} Permanent(st: State, first: Op, ops: seq<Op>, i: nat)
    requires Inv(st) && !st.frozen && (first == Freeze || first == Reset)
    requires i < |st.slots| && st.slots[i].occupied && Release(i) !in ops
    ensures i < |Run(Step(st, first), ops).slots| && Run(Step(st, first), ops).slots[i].occupied
  {
    CountBounds(st.slots);
    StepInv(st, first);
    StaysPinned(Step(st, first), ops, i);
  }

  lemma {:induction false} StaysPinned(st: State, ops: seq<Op>, i: nat)
    requires Inv(st) && Pinned(st, i) && Release(i) !in ops
    ensures Pinned(Run(st, ops), i)
    decreases ops
  {
    if ops != [] {
      StepPinned(st, ops[0], i);
      StepInv(st, ops[0]);
      StaysPinned(Step(st, ops[0]), ops[1..], i);
    }
  }

  /** A reset frees everything at or above the baseline and nothing below it. */
  lemma ResetReclaims(st: State)
    requires Inv(st)
    ensures var r := Step(st, Reset);
            && r.used == r.perm == (if st.frozen then st.perm else Step(st, Freeze).perm) && r.frozen
            && r.alarms == st.alarms && r.peak == st.peak && |r.slots| == |st.slots|
            && forall i :: 0 <= i < |st.slots| ==>
                 && (i < r.perm ==> r.slots[i] == st.slots[i]) && r.slots[i].warned == st.slots[i].warned
                 && (i >= r.perm ==> r.slots[i].bulkFreed == (st.slots[i].occupied || st.slots[i].bulkFreed))
                 && r.slots[i].occupied == (i < r.perm && st.slots[i].occupied)
  {
    hide Occupied, Warned, High;
    assert |Step(st, Reset).slots| == |st.slots|;
  }

  /** The run never hands slot i out. */
  predicate NeverGranted(st: State, ops: seq<Op>, i: nat)
    decreases ops
  {
    ops == [] || ((ops[0].Alloc? ==> Granted(st, ops[0].size) != Some(i))
                  && NeverGranted(Step(st, ops[0]), ops[1..], i))
  }

  /** Deleting a pointer whose slot a reset took away changes nothing and raises no alarm, as long
      as the slot has not been handed out again. */
  lemma {:induction false} StaleDelete(st: State, ops: seq<Op>, i: nat)
    requires i < |st.slots| && !st.slots[i].occupied && st.slots[i].bulkFreed
    requires NeverGranted(st, ops, i)
    ensures Step(Run(st, ops), Release(i)) == Run(st, ops)
    decreases ops
  {
    if ops != [] {
      var next := Step(st, ops[0]);
      assert i < |next.slots| && !next.slots[i].occupied && next.slots[i].bulkFreed;
      StaleDelete(next, ops[1..], i);
    }
  }

  /** Releasing a slot twice in a row raises one alarm the first time, and never again for that slot. */
  lemma DoubleRelease(st: State, i: nat)
    requires Inv(st) && i < |st.slots| && st.slots[i].occupied
    ensures var once := Step(st, Release(i));
            var twice := Step(once, Release(i));
            && once.alarms == st.alarms && twice.used == once.used
            && twice.alarms == once.alarms + (if st.slots[i].warned then 0 else 1)
            && Step(twice, Release(i)) == twice
  {}

  // ---------------------------------------------------------------- the class

  /** A container tree by its slots: its own, then those of its children. */
  datatype Owner = Owner(slot: nat, kids: seq<Owner>)

  function Flat(o: Owner): seq<nat>
    decreases o
  {
    [o.slot] + FlatAll(o.kids)
  }

  function FlatAll(os: seq<Owner>): seq<nat>
    decreases os
  {
    if os == [] then [] else Flat(os[0]) + FlatAll(os[1..])
  }

  predicate NoDup(s: seq<nat>) { forall i, j :: 0 <= i < j < |s| ==> s[i] != s[j] }

  /** The slots of a tree are all different and all in a pool of n slots. */
  predicate IsTree(o: Owner, n: nat) { NoDup(Flat(o)) && forall k :: k in Flat(o) ==> k < n }

  function LiveSet(st: State): set<nat> { set k: nat | k < |st.slots| && st.slots[k].occupied }

  /** The slots in base, used counted, plus exactly those in owned. */
  predicate Holding(st: State, base: set<nat>, used: int, owned: seq<nat>) {
    && NoDup(owned) && st.used == used + |owned|
    && (forall k :: k in owned ==> k !in base && k < |st.slots|)
    && forall k :: 0 <= k < |st.slots| ==> (st.slots[k].occupied <==> k in base || k in owned)
  }

  // ------------------------------------------------------------ deleting trees

  /** asn_delete of what slot o.slot holds, where the tree o stands if the slot is occupied: its children are
      deleted first. Of a free slot no destructor runs. */
  function Deleted(st: State, o: Owner): (r: State)
    ensures |r.slots| == |st.slots|
    decreases o
  {
    if o.slot < |st.slots| && st.slots[o.slot].occupied then Step(DeletedAll(st, o.kids), Release(o.slot))
    else Step(st, Release(o.slot))
  }

  function DeletedAll(st: State, os: seq<Owner>): (r: State)
    ensures |r.slots| == |st.slots|
    decreases os
  {
    if os == [] then st else DeletedAll(Deleted(st, os[0]), os[1..])
  }

  lemma {:induction false} DeletedInv(st: State, o: Owner)
    requires Inv(st)
    ensures Inv(Deleted(st, o))
    decreases o
  {
    hide Inv, Step;
    DeletedAllInv(st, o.kids);
    StepInv(st, Release(o.slot));
    StepInv(DeletedAll(st, o.kids), Release(o.slot));
  }

  lemma {:induction false} DeletedAllInv(st: State, os: seq<Owner>)
    requires Inv(st)
    ensures Inv(DeletedAll(st, os))
    decreases os
  {
    hide Inv, Deleted;
    if os != [] {
      DeletedInv(st, os[0]);
      DeletedAllInv(Deleted(st, os[0]), os[1..]);
    }
  }

  /** Everything in s is live, or was taken by a reset. */
  predicate Quiet(st: State, s: seq<nat>) {
    forall k :: k in s ==> k < |st.slots| && (st.slots[k].occupied || st.slots[k].bulkFreed)
  }

  predicate AllLive(st: State, s: seq<nat>) { forall k :: k in s ==> k < |st.slots| && st.slots[k].occupied }

  /** From st to r nothing happened but that live slots of s were given back. */
  predicate Erased(st: State, r: State, s: seq<nat>) {
    && |r.slots| == |st.slots| && r == st.(slots := r.slots, used := r.used) && r.used <= st.used
    && (forall k :: 0 <= k < |st.slots| ==>
          || r.slots[k] == st.slots[k]
          || (k in s && st.slots[k].occupied && r.slots[k] == st.slots[k].(occupied := false)))
    && (AllLive(st, s) ==> r.used == st.used - |s| && forall k :: k in s ==> !r.slots[k].occupied)
  }

  lemma FirstKids(os: seq<Owner>)
    requires os != []
    ensures FlatAll(os) == Flat(os[0]) + FlatAll(os[1..])
    ensures forall k :: k in FlatAll(os) <==> k in Flat(os[0]) || k in FlatAll(os[1..])
  {
    hide Flat;
  }

  lemma ErasedTwice(st: State, m: State, r: State, a: seq<nat>, b: seq<nat>)
    requires Erased(st, m, a) && Erased(m, r, b) && NoDup(a + b)
    ensures Erased(st, r, a + b)
  {
    NoDupParts(a, b);
    if AllLive(st, a + b) {
      forall k | k in b ensures k < |m.slots| && m.slots[k].occupied { assert k in a + b; }
      assert forall k :: k in a ==> k in a + b;
    }
  }

  lemma NoDupParts(a: seq<nat>, b: seq<nat>)
    requires NoDup(a + b)
    ensures NoDup(a) && NoDup(b) && forall k :: k in b ==> k !in a
  {
    forall i, j | 0 <= i < j < |a| ensures a[i] != a[j] { assert (a + b)[i] != (a + b)[j]; }
    forall i, j | 0 <= i < j < |b| ensures b[i] != b[j] { assert (a + b)[|a| + i] != (a + b)[|a| + j]; }
    forall i, j | 0 <= i < |a| && 0 <= j < |b| ensures a[i] != b[j] { assert (a + b)[i] != (a + b)[|a| + j]; }
  }

  /** Deleting a tree that a reset has at most taken slots from is silent and touches no other slot; if it is
      all there, each of its slots is given back once. */
  lemma {:induction false} DeletedIs(st: State, o: Owner)
    requires NoDup(Flat(o)) && Quiet(st, Flat(o))
    ensures Erased(st, Deleted(st, o), Flat(o))
    decreases o
  {
    hide NoDup, Erased, DeletedAll, FlatAll;
    NoDupParts([o.slot], FlatAll(o.kids));
    assert o.slot in Flat(o) && forall k :: k in FlatAll(o.kids) ==> k in Flat(o);
    if st.slots[o.slot].occupied {
      DeletedAllAre(st, o.kids);
      ErasedLast(st, DeletedAll(st, o.kids), o.slot, FlatAll(o.kids));
    } else {
      ErasedNothing(st, Flat(o));
      assert !AllLive(st, Flat(o));
    }
  }

  lemma {:induction false} DeletedAllAre(st: State, os: seq<Owner>)
    requires NoDup(FlatAll(os)) && Quiet(st, FlatAll(os))
    ensures Erased(st, DeletedAll(st, os), FlatAll(os))
    decreases os
  {
    hide NoDup, Erased, Deleted, Flat;
    if os == [] {
      ErasedNothing(st, []);
    } else {
      var m := Deleted(st, os[0]);
      FirstKids(os);
      NoDupParts(Flat(os[0]), FlatAll(os[1..]));
      DeletedIs(st, os[0]);
      ErasedElsewhere(st, m, Flat(os[0]), FlatAll(os[1..]));
      DeletedAllAre(m, os[1..]);
      ErasedTwice(st, m, DeletedAll(m, os[1..]), Flat(os[0]), FlatAll(os[1..]));
    }
  }

  lemma ErasedNothing(st: State, s: seq<nat>)
    ensures s == [] || !AllLive(st, s) ==> Erased(st, st, s)
  {}

  lemma ErasedElsewhere(st: State, r: State, a: seq<nat>, b: seq<nat>)
    requires Erased(st, r, a) && Quiet(st, b) && forall k :: k in b ==> k !in a
    ensures Quiet(r, b)
  {}

  lemma ErasedLast(st: State, m: State, k: nat, s: seq<nat>)
    requires Erased(st, m, s) && k !in s && k < |st.slots| && st.slots[k].occupied
    ensures Erased(st, Step(m, Release(k)), [k] + s)
  {
    assert m.slots[k] == st.slots[k];
    if AllLive(st, [k] + s) {
      assert AllLive(st, s) by { assert forall j :: j in s ==> j in [k] + s; }
    }
  }

  class ASNPool {
    var slots: array<Slot>
    var usedCount: int
    var permCount: nat
    var usedCountPeak: int
    var doubleReleaseAlarms: nat
    var permFrozen: bool

    ghost function Abs(): State
      reads this, slots
    {
      State(slots[..], usedCount, permCount, usedCountPeak, doubleReleaseAlarms, permFrozen)
    }

    ghost predicate Valid()
      reads this, slots
    {
      Inv(Abs())
    }

    constructor (n: nat)
      ensures Valid() && fresh(slots) && Abs() == Fresh(n)
    {
      slots := new Slot[n](_ => Slot(false, false, false));
      usedCount, permCount, usedCountPeak, doubleReleaseAlarms, permFrozen := 0, 0, 0, 0, false;
      new;
      FreshInv(n);
      assert slots[..] == Fresh(n).slots;
    }

    method FreezePermCount()
      requires Valid()
      modifies this
      ensures Valid() && slots == old(slots) && Abs() == Step(old(Abs()), Freeze)
    {
      StepInv(Abs(), Freeze);
      var high := 0;
      var i := 0;
      while i < slots.Length
        invariant 0 <= i <= slots.Length && high == High(slots[..i])
      {
        assert slots[..i + 1][..i] == slots[..i];
        if slots[i].occupied { high := i + 1; }
        i := i + 1;
      }
      assert slots[..i] == slots[..];
      permCount := high;
      usedCount := if high < usedCount then high else usedCount;
      permFrozen := true;
    }

    method AutoFreezePermCountOnce()
      requires Valid()
      modifies this
      ensures Valid() && slots == old(slots)
      ensures Abs() == if old(permFrozen) then old(Abs()) else Step(old(Abs()), Freeze)
    {
      if permFrozen { return; }
      FreezePermCount();
    }

    method RawAlloc(sz: nat) returns (slot: Option<nat>)
      requires Valid()
      modifies this, slots
      ensures Valid() && slots == old(slots)
      ensures slot == Granted(old(Abs()), sz) && Abs() == Step(old(Abs()), Alloc(sz))
    {
      StepInv(Abs(), Alloc(sz));
      if sz > SLOT_SIZE { return None; }
      if usedCount >= slots.Length { return None; }
      ghost var st := Abs();
      var i := 0;
      while i < slots.Length
        invariant 0 <= i <= slots.Length && FirstFree(st.slots, 0) == FirstFree(st.slots, i) && Abs() == st
      {
        if !slots[i].occupied {
          slots[i] := slots[i].(occupied := true, bulkFreed := false);
          usedCount := usedCount + 1;
          if usedCount > usedCountPeak { usedCountPeak := usedCount; }
          assert slots[..] == st.slots[i := st.slots[i].(occupied := true, bulkFreed := false)];
          return Some(i);
        }
        i := i + 1;
      }
      return None;
    }

    /** asn_delete of the container stored in slot p, whose destructor has run. */
    method ReleaseSlot(p: nat)
      requires Valid() && p < slots.Length
      modifies this, slots
      ensures Valid() && slots == old(slots) && Abs() == Step(old(Abs()), Release(p))
    {
      StepInv(Abs(), Release(p));
      ghost var st := Abs();
      var i := 0;
      while i < slots.Length
        invariant i <= p && slots == old(slots) && Abs() == st
      {
        if i == p {
          if !slots[i].occupied {
            if slots[i].bulkFreed { return; }
            if !slots[i].warned {
              slots[i] := slots[i].(warned := true);
              doubleReleaseAlarms := doubleReleaseAlarms + 1;
              assert slots[..] == st.slots[i := st.slots[i].(warned := true)];
            }
            return;
          }
          slots[i] := slots[i].(occupied := false);
          usedCount := usedCount - 1;
          assert slots[..] == st.slots[i := st.slots[i].(occupied := false)];
          return;
        }
        i := i + 1;
      }
    }

    method ResetAll()
      requires Valid()
      modifies this, slots
      ensures Valid() && slots == old(slots) && Abs() == Step(old(Abs()), Reset)
    {
      hide Inv;
      StepInv(Abs(), Reset);
      PermWithin(Abs());
      AutoFreezePermCountOnce();
      SweepFrom(permCount);
      usedCount := permCount;
    }

    /** The reset loop. */
    method SweepFrom(perm: nat)
      requires perm <= slots.Length
      modifies slots
      ensures Abs() == old(Abs()).(slots := Swept(old(slots[..]), perm))
    {
      ghost var s := slots[..];
      var i := perm;
      while i < slots.Length
        invariant perm <= i <= slots.Length
        invariant forall j :: 0 <= j < slots.Length ==> slots[j] == if j < i then Swept(s, perm)[j] else s[j]
      {
        if slots[i].occupied { slots[i] := slots[i].(bulkFreed := true); }
        slots[i] := slots[i].(occupied := false);
        i := i + 1;
      }
      assert slots[..] == Swept(s, perm);
    }

    // ------------------------------------------------------------ ownership

    /** The pool as found (the slots in base, baseUsed in use) plus exactly the slots in owned. */
    ghost predicate Holds(base: set<nat>, baseUsed: nat, owned: seq<nat>)
      reads this, slots
    {
      Valid() && Holding(Abs(), base, baseUsed, owned)
    }

    ghost function Live(): set<nat>
      reads this, slots
    {
      LiveSet(Abs())
    }

    ghost predicate SameBaseline(count: nat, frozen: bool)
      reads this
    {
      permCount == count && permFrozen == frozen
    }

    /** asn_new of a container of the given type: it fits a slot. */
    method New(tag: byte, ghost base: set<nat>, ghost baseUsed: nat, ghost owned: seq<nat>) returns (slot: Option<nat>)
      requires Holds(base, baseUsed, owned)
      modifies this, slots
      ensures slots == old(slots) && doubleReleaseAlarms == old(doubleReleaseAlarms)
      ensures SameBaseline(old(permCount), old(permFrozen))
      ensures slot.Some? <==> baseUsed + |owned| < slots.Length
      ensures Holds(base, baseUsed, if slot.Some? then owned + [slot.value] else owned)
      ensures usedCountPeak == if slot.Some? then Max(old(usedCountPeak), baseUsed + |owned| + 1)
                               else old(usedCountPeak)
    {
      AllocIff(Abs(), SIZE_OF(tag));
      slot := RawAlloc(SIZE_OF(tag));
    }

    method Delete(k: nat, ghost base: set<nat>, ghost baseUsed: nat, ghost pre: seq<nat>, ghost post: seq<nat>)
      requires Holds(base, baseUsed, pre + [k] + post)
      modifies this, slots
      ensures slots == old(slots) && usedCountPeak == old(usedCountPeak)
      ensures doubleReleaseAlarms == old(doubleReleaseAlarms) && SameBaseline(old(permCount), old(permFrozen))
      ensures Holds(base, baseUsed, pre + post)
    {
      Middle(pre, k, post);
      ReleaseSlot(k);
    }

    /** asn_delete of what slot o.slot holds: of an occupied slot the destructor deletes the children in order,
        then the slot itself is released; of a free slot only the release is tried. */
    method AsnDelete(o: Owner)
      requires Valid() && IsTree(o, slots.Length)
      modifies this, slots
      ensures Valid() && slots == old(slots) && Abs() == Deleted(old(Abs()), o)
      decreases o
    {
      hide Inv, NoDup, FlatAll, Step;
      assert o.slot in Flat(o);
      if slots[o.slot].occupied {
        TreeKids(o, slots.Length);
        AsnDeleteAll(o.kids);
      }
      ReleaseSlot(o.slot);
    }

    method AsnDeleteAll(os: seq<Owner>)
      requires Valid() && NoDup(FlatAll(os)) && forall k :: k in FlatAll(os) ==> k < slots.Length
      modifies this, slots
      ensures Valid() && slots == old(slots) && Abs() == DeletedAll(old(Abs()), os)
      decreases os
    {
      hide Inv, NoDup, Flat, Deleted;
      if os == [] { return; }
      FirstKids(os);
      NoDupParts(Flat(os[0]), FlatAll(os[1..]));
      AsnDelete(os[0]);
      AsnDeleteAll(os[1..]);
    }

    /** asn_delete of a tree that is owned: every slot of it is released exactly once. */
    method DeleteTree(o: Owner, ghost base: set<nat>, ghost baseUsed: nat, ghost pre: seq<nat>, ghost post: seq<nat>)
      requires Holds(base, baseUsed, pre + Flat(o) + post)
      modifies this, slots
      ensures slots == old(slots) && usedCountPeak == old(usedCountPeak)
      ensures doubleReleaseAlarms == old(doubleReleaseAlarms) && SameBaseline(old(permCount), old(permFrozen))
      ensures Holds(base, baseUsed, pre + post)
    {
      hide Flat, Deleted, Holds, Valid;
      HoldsPart(this, base, baseUsed, pre, Flat(o), post);
      ghost var st := Abs();
      DeletedIs(st, o);
      AsnDelete(o);
      HoldsRest(this, st, base, baseUsed, pre, Flat(o), post);
    }

    method DeleteKids(os: seq<Owner>, ghost base: set<nat>, ghost baseUsed: nat, ghost pre: seq<nat>,
                      ghost post: seq<nat>)
      requires Holds(base, baseUsed, pre + FlatAll(os) + post)
      modifies this, slots
      ensures slots == old(slots) && usedCountPeak == old(usedCountPeak)
      ensures doubleReleaseAlarms == old(doubleReleaseAlarms) && SameBaseline(old(permCount), old(permFrozen))
      ensures Holds(base, baseUsed, pre + post)
    {
      hide FlatAll, DeletedAll, Holds, Valid;
      HoldsPart(this, base, baseUsed, pre, FlatAll(os), post);
      ghost var st := Abs();
      DeletedAllAre(st, os);
      AsnDeleteAll(os);
      HoldsRest(this, st, base, baseUsed, pre, FlatAll(os), post);
    }
  }

  lemma TreeKids(o: Owner, n: nat)
    requires IsTree(o, n)
    ensures NoDup(FlatAll(o.kids)) && forall k :: k in FlatAll(o.kids) ==> k < n
  {
    NoDupParts([o.slot], FlatAll(o.kids));
    assert forall k :: k in FlatAll(o.kids) ==> k in Flat(o);
  }

  /** What is held is live, in the pool and without repetition. */
  lemma HoldsPart(pool: ASNPool, base: set<nat>, used: nat, pre: seq<nat>, s: seq<nat>, post: seq<nat>)
    requires pool.Holds(base, used, pre + s + post)
    ensures pool.Valid() && NoDup(s) && AllLive(pool.Abs(), s) && Quiet(pool.Abs(), s)
    ensures Holding(pool.Abs(), base, used, pre + s + post) && forall k :: k in s ==> k < pool.slots.Length
  {
    hide NoDup;
    NoDupParts(pre + s, post);
    NoDupParts(pre, s);
    assert forall k :: k in s ==> k in pre + s + post;
  }

  /** The pool st held pre, s and post; with s given back it holds pre and post. */
  lemma HoldsRest(pool: ASNPool, st: State, base: set<nat>, used: nat, pre: seq<nat>, s: seq<nat>, post: seq<nat>)
    requires pool.Valid() && Erased(st, pool.Abs(), s) && AllLive(st, s) && Holding(st, base, used, pre + s + post)
    ensures pool.Holds(base, used, pre + post)
  {
    hide Inv;
    LeftOut(pre, s, post);
    var r := pool.Abs();
    assert forall k :: 0 <= k < pool.slots.Length ==> pool.slots[k] == r.slots[k];
  }

  lemma LeftOut(pre: seq<nat>, s: seq<nat>, post: seq<nat>)
    requires NoDup(pre + s + post)
    ensures NoDup(pre + post) && |pre + s + post| == |pre + post| + |s|
    ensures forall k :: k in pre + s + post <==> k in pre + post || k in s
    ensures forall k :: k in s ==> k !in pre + post
  {
    NoDupParts(pre + s, post);
    NoDupParts(pre, s);
    assert forall k :: k in s ==> k in pre + s;
    assert forall k :: k in pre ==> k in pre + s;
    forall i, j | 0 <= i < j < |pre + post| ensures (pre + post)[i] != (pre + post)[j] {
      if i < |pre| <= j { assert (pre + post)[i] in pre + s && (pre + post)[j] in post; }
    }
  }

  /** Any valid pool holds its own live slots and nothing else. */
  lemma NothingExtra(pool: ASNPool)
    requires pool.Valid()
    ensures 0 <= pool.usedCount <= pool.slots.Length && pool.Holds(pool.Live(), pool.usedCount, [])
  {}

  lemma NothingLeft(pool: ASNPool, base: set<nat>, used: nat)
    requires pool.Holds(base, used, [])
    ensures pool.Valid() && pool.usedCount == used
    ensures forall k :: 0 <= k < pool.slots.Length ==> (pool.slots[k].occupied <==> k in base)
  {}

  lemma Middle(pre: seq<nat>, k: nat, post: seq<nat>)
    requires NoDup(pre + [k] + post)
    ensures NoDup(pre + post) && k !in pre + post
    ensures forall x :: x in pre + [k] + post <==> x == k || x in pre + post
    ensures |pre + [k] + post| == |pre + post| + 1
  {
    var s := pre + [k] + post;
    assert s[|pre|] == k;
    forall i, j | 0 <= i < j < |pre + post| ensures (pre + post)[i] != (pre + post)[j] {
      var i', j' := if i < |pre| then i else i + 1, if j < |pre| then j else j + 1;
      assert s[i'] == (pre + post)[i] && s[j'] == (pre + post)[j];
    }
    forall i | 0 <= i < |pre + post| ensures (pre + post)[i] != k {
      var i' := if i < |pre| then i else i + 1;
      assert s[i'] == (pre + post)[i];
    }
  }
}
