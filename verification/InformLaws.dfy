/** What runs of the inform queue guarantee: how often an inform is sent, when it stops, and under
    which id its retries go out. */
module InformLaws {
  import opened Bytes
  import opened Inform

  /** How often inform k was handed to the network. */
  function Attempts(log: seq<Sent>, k: nat): nat {
    if log == [] then 0 else Attempts(log[..|log| - 1], k) + if log[|log| - 1].serial == Some(k) then 1 else 0
  }

  lemma {:induction false} AttemptsAppend(a: seq<Sent>, b: seq<Sent>, k: nat)
    ensures Attempts(a + b, k) == Attempts(a, k) + Attempts(b, k)
  {
    if b == [] {
      assert a + b == a;
    } else {
      assert (a + b)[..|a + b| - 1] == a + b[..|b| - 1];
      AttemptsAppend(a, b[..|b| - 1], k);
    }
  }

  lemma AttemptsOne(log: seq<Sent>, s: Sent, k: nat)
    ensures Attempts(log + [s], k) == Attempts(log, k) + if s.serial == Some(k) then 1 else 0
  {
    assert (log + [s])[..|log|] == log;
  }

  predicate Distinct(items: seq<Item>) { forall i, j :: 0 <= i < j < |items| ==> items[i].serial != items[j].serial }

  predicate HasSerial(items: seq<Item>, k: nat) { exists i :: 0 <= i < |items| && items[i].serial == k }

  /** A queued inform has used up exactly the part of its budget that is gone. */
  predicate Balanced(st: State, x: Item) {
    && x.serial < |st.budgets| && st.budgets[x.serial] == x.budget && !x.received
    && Attempts(st.log, x.serial) + x.retries == 1 + x.budget
    && (x.budget >= 0 ==> x.retries >= 0) && (x.budget < 0 ==> x.retries < 0)
  }

  predicate AllBalanced(st: State, items: seq<Item>) { forall x :: x in items ==> Balanced(st, x) }

  predicate WithinBudget(st: State) {
    forall k :: 0 <= k < |st.budgets| && st.budgets[k] >= 0 ==> Attempts(st.log, k) <= 1 + st.budgets[k]
  }

  ghost predicate Inv(st: State) {
    && Distinct(st.items) && AllBalanced(st, st.items) && WithinBudget(st)
    && forall k: nat :: k >= |st.budgets| ==> Attempts(st.log, k) == 0
  }

  // ------------------------------------------------------------- compaction

  /** Compaction keeps exactly the items that do not match, each once. */
  lemma {:induction false} WithoutIs(items: seq<Item>, m: Matcher)
    ensures forall x :: x in Without(items, m) <==> x in items && !m.Matches(x)
    ensures Distinct(items) ==> Distinct(Without(items, m))
  {
    if items != [] {
      WithoutIs(items[..|items| - 1], m);
      var kept, last := Without(items[..|items| - 1], m), items[|items| - 1];
      if Distinct(items) {
        forall i | 0 <= i < |kept| ensures kept[i].serial != last.serial {
          assert kept[i] in items[..|items| - 1];
          var j :| 0 <= j < |items| - 1 && items[j] == kept[i];
        }
      }
    }
  }

  /** And it keeps them in order: the survivors of a longer list extend those of a shorter one. */
  lemma {:induction false} WithoutInOrder(a: seq<Item>, b: seq<Item>, m: Matcher)
    ensures Without(a + b, m) == Without(a, m) + Without(b, m)
  {
    if b == [] {
      assert a + b == a;
    } else {
      assert (a + b)[..|a + b| - 1] == a + b[..|b| - 1];
      WithoutInOrder(a, b[..|b| - 1], m);
    }
  }

  // ------------------------------------------------------------ run invariant

  lemma WithoutInv(st: State, m: Matcher)
    requires Inv(st)
    ensures Inv(st.(items := Without(st.items, m)))
  {
    WithoutIs(st.items, m);
    var next := st.(items := Without(st.items, m));
    forall x | x in next.items ensures Balanced(next, x) {
      assert x in st.items && Balanced(st, x);
    }
  }

  /** A poll sends each inform that resends once and no other. */
  lemma {:induction false} ResentCount(items: seq<Item>, ids: map<nat, int>, now: int, k: nat)
    requires Distinct(items)
    ensures !HasSerial(items, k) ==> Attempts(Resent(items, ids, now), k) == 0
    ensures forall i :: 0 <= i < |items| && items[i].serial == k ==>
              Attempts(Resent(items, ids, now), k) == if Resends(items[i], now) then 1 else 0
  {
    hide Attempts, Resent, Resends;
    if items == [] {
      NothingResent(ids, now, k);
    } else {
      var n := |items| - 1;
      var rest, x := items[..n], items[n];
      ResentCount(rest, ids, now, k);
      LastResent(items, ids, now, k);
      if HasSerial(rest, k) {
        var i :| 0 <= i < |rest| && rest[i].serial == k;
        assert items[i].serial == k;
      }
      if x.serial == k { assert !HasSerial(rest, k); }
    }
  }

  lemma NothingResent(ids: map<nat, int>, now: int, k: nat)
    ensures Attempts(Resent([], ids, now), k) == 0
  {}

  lemma LastResent(items: seq<Item>, ids: map<nat, int>, now: int, k: nat)
    requires items != []
    ensures var x := items[|items| - 1];
            Attempts(Resent(items, ids, now), k) == Attempts(Resent(items[..|items| - 1], ids, now), k) +
            if Resends(x, now) && x.serial == k then 1 else 0
  {
    hide Attempts, Resends;
    var x := items[|items| - 1];
    var before := Resent(items[..|items| - 1], ids, now);
    assert before + [] == before;
    AttemptsOne(before, Sent(Some(x.serial), IdOf(ids, x.trap), x.requestID), k);
  }

  lemma PollInv(st: State, now: int)
    requires Inv(st)
    ensures Inv(st.(items := PolledAll(st.items, now), log := st.log + Resent(st.items, st.ids, now)))
  {
    hide Attempts, Resent;
    var next := st.(items := PolledAll(st.items, now), log := st.log + Resent(st.items, st.ids, now));
    forall k: nat ensures Attempts(next.log, k) == Attempts(st.log, k) + Attempts(Resent(st.items, st.ids, now), k) {
      AttemptsAppend(st.log, Resent(st.items, st.ids, now), k);
    }
    forall i | 0 <= i < |st.items| ensures Balanced(next, next.items[i]) {
      assert st.items[i] in st.items && Balanced(st, st.items[i]);
      ResentCount(st.items, st.ids, now, st.items[i].serial);
    }
    forall k | 0 <= k < |st.budgets| && st.budgets[k] >= 0 ensures Attempts(next.log, k) <= 1 + st.budgets[k] {
      ResentCount(st.items, st.ids, now, k);
      if HasSerial(st.items, k) {
        var i :| 0 <= i < |st.items| && st.items[i].serial == k;
        assert Balanced(next, next.items[i]);
      }
    }
    forall k: nat | k >= |st.budgets| ensures Attempts(next.log, k) == 0 {
      NoSuchSerial(st, k);
      ResentCount(st.items, st.ids, now, k);
    }
  }

  lemma NoSuchSerial(st: State, k: nat)
    requires Inv(st) && k >= |st.budgets|
    ensures !HasSerial(st.items, k)
  {
    forall i | 0 <= i < |st.items| ensures st.items[i].serial != k {
      assert st.items[i] in st.items && Balanced(st, st.items[i]);
    }
  }

  lemma EnqueueInv(st: State, x: Item, id: int)
    requires Inv(st)
    requires x.serial == |st.budgets| && x.retries == x.budget && !x.received
    ensures Inv(State(st.items + [x], st.ids, st.log + [Sent(Some(x.serial), id, id)], st.budgets + [x.budget]))
  {
    hide Attempts;
    var next := State(st.items + [x], st.ids, st.log + [Sent(Some(x.serial), id, id)], st.budgets + [x.budget]);
    forall k: nat ensures Attempts(next.log, k) == Attempts(st.log, k) + if k == x.serial then 1 else 0 {
      AttemptsOne(st.log, Sent(Some(x.serial), id, id), k);
    }
    forall y | y in next.items ensures Balanced(next, y) {
      if y in st.items { assert Balanced(st, y); }
    }
    forall i | 0 <= i < |st.items| ensures st.items[i].serial != x.serial {
      assert st.items[i] in st.items && Balanced(st, st.items[i]);
    }
  }

  lemma PlainInv(st: State, s: Sent)
    requires Inv(st) && s.serial.None?
    ensures Inv(st.(log := st.log + [s]))
  {
    hide Attempts;
    forall k: nat ensures Attempts(st.log + [s], k) == Attempts(st.log, k) { AttemptsOne(st.log, s, k); }
    var next := st.(log := st.log + [s]);
    forall x | x in next.items ensures Balanced(next, x) { assert Balanced(st, x); }
  }

  lemma IdsInv(st: State, ids: map<nat, int>)
    requires Inv(st)
    ensures Inv(st.(ids := ids))
  {
    forall x | x in st.items ensures Balanced(st.(ids := ids), x) { assert Balanced(st, x); }
  }

  lemma StepInv(st: State, e: Event)
    requires Inv(st)
    ensures Inv(Step(st, e))
  {
    hide Inv, Without, PolledAll, Resent;
    match e
    case Send(trap, inform, replace, retries, delay, now, newId, newerId, builds, memory) =>
      var st1 := st.(ids := st.ids[trap := newId]);
      IdsInv(st, st1.ids);
      if builds {
        var st2 := if replace then st1.(items := Without(st1.items, OfTrap(trap))) else st1;
        if replace { WithoutInv(st1, OfTrap(trap)); }
        if !inform {
          IdsInv(st2, st1.ids[trap := newerId]);
          PlainInv(st2.(ids := st1.ids[trap := newerId]), Sent(None, newerId, newerId));
        } else if |st2.items| < INFLIGHT && memory {
          EnqueueInv(st2, Queued(st, e), newId);
        }
      }
    case Ack(id) => WithoutInv(st, OfRequest(id));
    case Poll(now) =>
      PollInv(st, now);
      WithoutInv(st.(items := PolledAll(st.items, now), log := st.log + Resent(st.items, st.ids, now)), DoneOrOrphan);
    case Delete(trap) => WithoutInv(st, OfTrap(trap));
  }

  lemma {:induction false} RunInv(st: State, es: seq<Event>)
    requires Inv(st)
    ensures Inv(Run(st, es))
    decreases es
  {
    hide Inv, Step;
    if es != [] {
      StepInv(st, es[0]);
      RunInv(Step(st, es[0]), es[1..]);
    }
  }

  /** Over any run, an inform with a budget of r >= 0 retries is sent at most 1 + r times, and while it is
      queued the attempts and what is left of the budget add up. */
  lemma AtMostBudget(es: seq<Event>)
    ensures var st := Run(EMPTY, es);
            && WithinBudget(st)
            && forall x :: x in st.items ==>
                 x.serial < |st.budgets| && Attempts(st.log, x.serial) + x.retries == 1 + st.budgets[x.serial]
  {
    RunInv(EMPTY, es);
    var st := Run(EMPTY, es);
    forall x | x in st.items
      ensures x.serial < |st.budgets| && Attempts(st.log, x.serial) + x.retries == 1 + st.budgets[x.serial]
    {
      assert Balanced(st, x);
    }
  }

  /** An inform that a poll gives up on has been sent exactly 1 + r times. One with a negative budget is
      never given up. */
  lemma GivenUpExactly(st: State, now: int, x: Item)
    requires Inv(st) && x in st.items
    ensures var next := Step(st, Poll(now));
            && (!HasSerial(next.items, x.serial) ==> x.budget >= 0 && Attempts(next.log, x.serial) == 1 + x.budget)
            && (x.budget < 0 ==> HasSerial(next.items, x.serial))
  {
    hide Attempts, Resent, Without;
    assert Balanced(st, x);
    var i :| 0 <= i < |st.items| && st.items[i] == x;
    var mid := st.(items := PolledAll(st.items, now), log := st.log + Resent(st.items, st.ids, now));
    PollInv(st, now);
    WithoutIs(mid.items, DoneOrOrphan);
    var y := Polled(x, now);
    assert mid.items[i] == y && y in mid.items;
    assert Balanced(mid, y);
    var next := Step(st, Poll(now));
    if !DoneOrOrphan.Matches(y) {
      assert y in next.items;
      var j :| 0 <= j < |next.items| && next.items[j] == y;
    }
  }

  // ------------------------------------------------------- silence after an ack

  /** Once out of the queue, an inform is never sent again, whatever follows. */
  lemma {:induction false} GoneIsSilent(st: State, es: seq<Event>, k: nat)
    requires Inv(st) && k < |st.budgets| && !HasSerial(st.items, k)
    ensures Attempts(Run(st, es).log, k) == Attempts(st.log, k) && !HasSerial(Run(st, es).items, k)
    decreases es
  {
    hide Inv, Step, Attempts, HasSerial;
    if es != [] {
      StepInv(st, es[0]);
      StepSilent(st, es[0], k);
      GoneIsSilent(Step(st, es[0]), es[1..], k);
    }
  }

  lemma StepSilent(st: State, e: Event, k: nat)
    requires Inv(st) && k < |st.budgets| && !HasSerial(st.items, k)
    ensures var next := Step(st, e);
            Attempts(next.log, k) == Attempts(st.log, k) && k < |next.budgets| && !HasSerial(next.items, k)
  {
    hide Attempts, Resent, Without;
    match e
    case Send(trap, inform, replace, retries, delay, now, newId, newerId, builds, memory) =>
      StillGone(st.items, OfTrap(trap), k);
      AttemptsOne(st.log, Sent(None, newerId, newerId), k);
      AttemptsOne(st.log, Sent(Some(|st.budgets|), newId, newId), k);
    case Ack(id) => StillGone(st.items, OfRequest(id), k);
    case Poll(now) =>
      ResentCount(st.items, st.ids, now, k);
      AttemptsAppend(st.log, Resent(st.items, st.ids, now), k);
      var p := PolledAll(st.items, now);
      assert !HasSerial(p, k) by {
        forall i | 0 <= i < |p| ensures p[i].serial != k { assert st.items[i].serial != k; }
      }
      StillGone(p, DoneOrOrphan, k);
    case Delete(trap) => StillGone(st.items, OfTrap(trap), k);
  }

  lemma StillGone(items: seq<Item>, m: Matcher, k: nat)
    requires !HasSerial(items, k)
    ensures !HasSerial(Without(items, m), k)
  {
    WithoutIs(items, m);
    var kept := Without(items, m);
    forall i | 0 <= i < |kept| ensures kept[i].serial != k {
      assert kept[i] in items;
      var j :| 0 <= j < |items| && items[j] == kept[i];
    }
  }

  /** After the acknowledgement of its request id an inform is never sent again. */
  lemma NothingAfterAck(st: State, x: Item, es: seq<Event>)
    requires Inv(st) && x in st.items
    ensures Attempts(Run(st, [Ack(x.requestID)] + es).log, x.serial) == Attempts(st.log, x.serial)
  {
    hide Attempts, Run, Inv, HasSerial;
    var e := Ack(x.requestID);
    StepInv(st, e);
    EndedBy(st, e, x);
    GoneIsSilent(Step(st, e), es, x.serial);
    RunFirst(st, e, es);
  }

  lemma RunFirst(st: State, e: Event, es: seq<Event>)
    ensures Run(st, [e] + es) == Run(Step(st, e), es)
  {
    assert ([e] + es)[1..] == es;
  }

  // -------------------------------------------------------------- exhaustion

  /** Nothing in the run takes the inform out of the queue but its polls: it is not acknowledged, its trap is not
      deleted, and no send replaces it. */
  predicate LeftAlone(es: seq<Event>, x: Item) {
    forall i :: 0 <= i < |es| ==> Leaves(es[i], x)
  }

  predicate Leaves(e: Event, x: Item) {
    && e != Ack(x.requestID) && e != Delete(x.trap)
    && !(e.Send? && e.builds && e.replace && e.trap == x.trap)
  }

  /** The polls of a run that come more than the delay after the send before them, the first send being at last. */
  function LatePolls(es: seq<Event>, last: int, delay: int): nat
    decreases es
  {
    if es == [] then 0
    else if es[0].Poll? && U32(es[0].now - last) > U32(delay) then 1 + LatePolls(es[1..], es[0].now, delay)
    else LatePolls(es[1..], last, delay)
  }

  /** An inform left alone is sent once more at every late poll while it has retries left; the late poll after that
      drops it, sent exactly 1 + r times, whatever else is sent, acknowledged or polled in between. */
  lemma {:induction false} Unanswered(st: State, x: Item, es: seq<Event>)
    requires Inv(st) && x in st.items && x.budget >= 0 && LeftAlone(es, x)
    ensures var end, late := Run(st, es), LatePolls(es, x.lastSent, x.delay);
            && (late > x.retries ==> Attempts(end.log, x.serial) == 1 + x.budget && !HasSerial(end.items, x.serial))
            && (late <= x.retries && !x.missed ==>
                  Attempts(end.log, x.serial) == Attempts(st.log, x.serial) + late && HasSerial(end.items, x.serial))
    decreases |es|
  {
    hide Attempts, Inv, Step, HasSerial, Leaves;
    RetriesLeft(st, x);
    if es == [] {
      Present(st.items, x);
    } else {
      var e, next := es[0], Step(st, es[0]);
      StepInv(st, e);
      var y := if e.Poll? then Polled(x, e.now) else x;
      if e.Poll? { PolledSerial(x, e.now); }
      RestAlone(es, x, y);
      StepLeft(st, e, x);
      if HasSerial(next.items, x.serial) {
        Unanswered(next, y, es[1..]);
      } else {
        GoneIsSilent(next, es[1..], x.serial);
      }
    }
  }

  lemma RestAlone(es: seq<Event>, x: Item, y: Item)
    requires LeftAlone(es, x) && es != [] && y.trap == x.trap && y.requestID == x.requestID
    ensures Leaves(es[0], x) && LeftAlone(es[1..], y)
  {
    forall i | 0 <= i < |es| - 1 ensures Leaves(es[1..][i], y) { assert Leaves(es[i + 1], x); }
  }

  lemma Present(items: seq<Item>, x: Item)
    requires x in items
    ensures HasSerial(items, x.serial)
  {
    var i :| 0 <= i < |items| && items[i] == x;
  }

  /** One event of such a run. */
  lemma StepLeft(st: State, e: Event, x: Item)
    requires Inv(st) && x in st.items && x.budget >= 0 && Leaves(e, x)
    ensures var next := Step(st, e);
            var late := e.Poll? && U32(e.now - x.lastSent) > U32(x.delay);
            && x.serial < |next.budgets|
            && (HasSerial(next.items, x.serial) ==>
                  && (if e.Poll? then Polled(x, e.now) else x) in next.items
                  && Attempts(next.log, x.serial) == Attempts(st.log, x.serial) + if late then 1 else 0)
            && (late && x.retries > 0 ==>
                  && HasSerial(next.items, x.serial)
                  && Polled(x, e.now) == x.(lastSent := e.now, missed := false, retries := x.retries - 1))
            && (!late && !x.missed ==> HasSerial(next.items, x.serial))
            && (e.Poll? && !late ==> Polled(x, e.now) == x)
            && (late && x.retries == 0 ==> !HasSerial(next.items, x.serial))
            && (!HasSerial(next.items, x.serial) ==> Attempts(next.log, x.serial) == 1 + x.budget)
  {
    hide Attempts, Resent, Without, HasSerial, Inv;
    RetriesLeft(st, x);
    if e.Poll? {
      PollLeft(st, e.now, x);
    } else {
      OtherLeft(st, e, x);
    }
  }

  lemma OtherLeft(st: State, e: Event, x: Item)
    requires Inv(st) && x in st.items && Leaves(e, x) && !e.Poll?
    ensures var next := Step(st, e);
            && x in next.items && HasSerial(next.items, x.serial) && x.serial < |next.budgets|
            && Attempts(next.log, x.serial) == Attempts(st.log, x.serial)
  {
    hide Attempts, Without, HasSerial;
    assert Balanced(st, x);
    match e
    case Send(trap, inform, replace, retries, delay, now, newId, newerId, builds, memory) =>
      WithoutIs(st.items, OfTrap(trap));
      AttemptsOne(st.log, Sent(None, newerId, newerId), x.serial);
      AttemptsOne(st.log, Sent(Some(|st.budgets|), newId, newId), x.serial);
      Present(Step(st, e).items, x);
    case Ack(id) =>
      WithoutIs(st.items, OfRequest(id));
      Present(Step(st, e).items, x);
    case Delete(trap) =>
      WithoutIs(st.items, OfTrap(trap));
      Present(Step(st, e).items, x);
  }

  lemma PollLeft(st: State, now: int, x: Item)
    requires Inv(st) && x in st.items && x.budget >= 0
    ensures var next, y := Step(st, Poll(now)), Polled(x, now);
            && x.serial < |next.budgets|
            && (HasSerial(next.items, x.serial) <==> !DoneOrOrphan.Matches(y))
            && (HasSerial(next.items, x.serial) ==> y in next.items)
            && Attempts(next.log, x.serial) == Attempts(st.log, x.serial) + (if Resends(x, now) then 1 else 0)
            && (!HasSerial(next.items, x.serial) ==> Attempts(next.log, x.serial) == 1 + x.budget)
  {
    hide Attempts, Resent, Without, HasSerial, Inv, Polled, Resends;
    RetriesLeft(st, x);
    var i :| 0 <= i < |st.items| && st.items[i] == x;
    var p := PolledAll(st.items, now);
    WithoutIs(p, DoneOrOrphan);
    assert p[i] == Polled(x, now) && p[i] in p;
    PolledSerial(x, now);
    if DoneOrOrphan.Matches(Polled(x, now)) {
      DroppedSerial(st, x, now);
    } else {
      Present(Without(p, DoneOrOrphan), Polled(x, now));
    }
    PollAttempts(st, now, x);
    GivenUpExactly(st, now, x);
  }

  lemma PollAttempts(st: State, now: int, x: Item)
    requires Inv(st) && x in st.items
    ensures Attempts(Step(st, Poll(now)).log, x.serial) ==
            Attempts(st.log, x.serial) + (if Resends(x, now) then 1 else 0)
  {
    hide Attempts, Resent, Without, Resends;
    var i :| 0 <= i < |st.items| && st.items[i] == x;
    ResentCount(st.items, st.ids, now, x.serial);
    AttemptsAppend(st.log, Resent(st.items, st.ids, now), x.serial);
  }

  // ------------------------------------------------------- from the send on

  /** An inform that is queued by this send: it builds and finds a place. */
  predicate Queues(st: State, e: Event) {
    && e.Send? && e.inform && e.builds && e.memory
    && |if e.replace then Without(st.items, OfTrap(e.trap)) else st.items| < INFLIGHT
  }

  /** No later event takes the inform of the send e out of the queue but its polls. */
  predicate LeftAfter(es: seq<Event>, e: Event)
    requires e.Send?
  {
    forall i :: 0 <= i < |es| ==>
      && es[i] != Ack(e.newId) && es[i] != Delete(e.trap)
      && !(es[i].Send? && es[i].builds && es[i].replace && es[i].trap == e.trap)
  }

  /** The send queues the inform with its own time, delay, retries and id, under the next serial number, and sends it
      once. */
  lemma JustQueued(st: State, e: Event)
    requires Inv(st) && Queues(st, e)
    ensures e.Send?
    ensures var next := Step(st, e);
            && next.log == st.log + [Sent(Some(|st.budgets|), e.newId, e.newId)]
            && Attempts(next.log, |st.budgets|) == 1
            && exists x :: x in next.items && FromSend(x, e, |st.budgets|)
  {
    hide Attempts, Without;
    AttemptsOne(st.log, Sent(Some(|st.budgets|), e.newId, e.newId), |st.budgets|);
    var next := Step(st, e);
    var x := next.items[|next.items| - 1];
    assert x in next.items && FromSend(x, e, |st.budgets|);
  }

  predicate FromSend(x: Item, e: Event, serial: nat)
    requires e.Send?
  {
    && x.serial == serial && x.requestID == e.newId && x.trap == e.trap && !x.received && !x.missed
    && x.lastSent == e.now && x.delay == e.delay && x.retries == x.budget == e.retries
  }

  /** The first retry waits out the delay: a poll directly after the send sends the inform again exactly when more
      than the delay has passed since the send, in unsigned 32-bit milliseconds, and it has retries. */
  lemma FirstRetry(st: State, e: Event, now: int)
    requires Inv(st) && Queues(st, e)
    ensures var k := |st.budgets|;
            Attempts(Step(Step(st, e), Poll(now)).log, k) ==
            if (now - e.now) % 0x1_0000_0000 > e.delay % 0x1_0000_0000 && e.retries != 0 then 2 else 1
  {
    hide Attempts, Step, Inv, Queues;
    JustQueued(st, e);
    StepInv(st, e);
    var next := Step(st, e);
    var x :| x in next.items && FromSend(x, e, |st.budgets|);
    PollAttempts(next, now, x);
  }

  /** Nobody answers: from its send on, an inform with retries is sent once at once and once more at each late poll, the
      delay counted from the send at first, until its retries are used up; the late poll after that drops it. */
  lemma SentAndUnanswered(st: State, e: Event, es: seq<Event>)
    requires Inv(st) && Queues(st, e) && e.retries >= 0 && LeftAfter(es, e)
    ensures var k, end, late := |st.budgets|, Run(Step(st, e), es), LatePolls(es, e.now, e.delay);
            && Attempts(end.log, k) == 1 + (if late <= e.retries then late else e.retries)
            && (HasSerial(end.items, k) <==> late <= e.retries)
  {
    hide Attempts, Step, Inv, Queues, HasSerial, Run;
    JustQueued(st, e);
    StepInv(st, e);
    var x :| x in Step(st, e).items && FromSend(x, e, |st.budgets|);
    forall i | 0 <= i < |es| ensures Leaves(es[i], x) {}
    Unanswered(Step(st, e), x, es);
  }

  /** A send that neither builds nor finds a place logs nothing; what it reports is id 0. */
  lemma NotSent(st: State, e: Event)
    requires e.Send? && (!e.builds || (e.inform && !Queues(st, e)))
    ensures Step(st, e).log == st.log && Step(st, e).budgets == st.budgets && INVALID_SNMP_REQUEST_ID == 0
  {
    hide Without;
  }

  /** Its acknowledgement, or the deletion of its trap, ends it: it was sent once. */
  lemma SentAndEnded(st: State, e: Event, end: Event, es: seq<Event>)
    requires Inv(st) && Queues(st, e) && (end == Ack(e.newId) || end == Delete(e.trap))
    ensures Attempts(Run(Step(Step(st, e), end), es).log, |st.budgets|) == 1
  {
    hide Attempts, Inv, Queues, Run, HasSerial;
    JustQueued(st, e);
    StepInv(st, e);
    var next := Step(st, e);
    var x :| x in next.items && FromSend(x, e, |st.budgets|);
    StepInv(next, end);
    EndedBy(next, end, x);
    GoneIsSilent(Step(next, end), es, x.serial);
  }

  lemma EndedBy(st: State, end: Event, x: Item)
    requires Inv(st) && x in st.items && (end == Ack(x.requestID) || end == Delete(x.trap))
    ensures var next := Step(st, end);
            next.log == st.log && x.serial < |next.budgets| && !HasSerial(next.items, x.serial)
  {
    hide Attempts, Without;
    assert Balanced(st, x);
    var m := if end.Ack? then OfRequest(x.requestID) else OfTrap(x.trap);
    WithoutIs(st.items, m);
    var next := Step(st, end);
    var i :| 0 <= i < |st.items| && st.items[i] == x;
    forall j | 0 <= j < |next.items| ensures next.items[j].serial != x.serial {
      assert next.items[j] in next.items;
      var l :| 0 <= l < |st.items| && st.items[l] == next.items[j];
    }
  }

  lemma RetriesLeft(st: State, x: Item)
    requires Inv(st) && x in st.items && x.budget >= 0
    ensures x.retries >= 0 && !x.received && x.serial < |st.budgets|
  {
    assert Balanced(st, x);
  }

  lemma DroppedSerial(st: State, x: Item, now: int)
    requires Inv(st) && x in st.items && DoneOrOrphan.Matches(Polled(x, now))
    ensures !HasSerial(Without(PolledAll(st.items, now), DoneOrOrphan), x.serial)
  {
    hide AllBalanced, WithinBudget, Polled, Without, Attempts;
    var i :| 0 <= i < |st.items| && st.items[i] == x;
    var p := PolledAll(st.items, now);
    WithoutIs(p, DoneOrOrphan);
    var kept := Without(p, DoneOrOrphan);
    forall j | 0 <= j < |kept| ensures kept[j].serial != x.serial {
      assert kept[j] in kept;
      var l :| 0 <= l < |p| && p[l] == kept[j];
      PolledSerial(st.items[l], now);
    }
  }

  lemma PolledSerial(x: Item, now: int)
    ensures var y := Polled(x, now);
            && y.serial == x.serial && y.trap == x.trap && y.requestID == x.requestID
            && y.delay == x.delay && y.budget == x.budget
  {}

  lemma NoEvents(st: State)
    ensures Run(st, []) == st
  {}

  // --------------------------------------------------------------- wire ids

  /** Everything on the wire carried its own inform's id, and every retry would. */
  predicate OwnIds(st: State) {
    && (forall i :: 0 <= i < |st.log| ==> st.log[i].carried == st.log[i].original)
    && forall x :: x in st.items ==> IdOf(st.ids, x.trap) == x.requestID
  }

  /** Every send replaces the trap's queued informs and builds. */
  predicate Disciplined(es: seq<Event>) {
    forall i :: 0 <= i < |es| ==> es[i].Send? ==> es[i].replace && es[i].builds
  }

  lemma {:induction false} ResentOwn(items: seq<Item>, ids: map<nat, int>, now: int)
    requires forall x :: x in items ==> IdOf(ids, x.trap) == x.requestID
    ensures forall i :: 0 <= i < |Resent(items, ids, now)| ==>
              Resent(items, ids, now)[i].carried == Resent(items, ids, now)[i].original
  {
    if items != [] {
      assert items[|items| - 1] in items;
      ResentOwn(items[..|items| - 1], ids, now);
    }
  }

  lemma StepOwn(st: State, e: Event)
    requires OwnIds(st) && (e.Send? ==> e.replace && e.builds)
    ensures OwnIds(Step(st, e))
  {
    hide Resent, Without;
    match e
    case Send(trap, inform, replace, retries, delay, now, newId, newerId, builds, memory) =>
      WithoutIs(st.items, OfTrap(trap));
    case Ack(id) => WithoutIs(st.items, OfRequest(id));
    case Poll(now) =>
      ResentOwn(st.items, st.ids, now);
      var p := PolledAll(st.items, now);
      WithoutIs(p, DoneOrOrphan);
      forall x | x in p ensures IdOf(st.ids, x.trap) == x.requestID {
        var i :| 0 <= i < |p| && p[i] == x;
        assert st.items[i] in st.items;
      }
    case Delete(trap) => WithoutIs(st.items, OfTrap(trap));
  }

  /** When every send uses replacement and builds, every retry carries the id its inform was queued with. */
  lemma {:induction false} RetriesKeepTheirId(st: State, es: seq<Event>)
    requires OwnIds(st) && Disciplined(es)
    ensures OwnIds(Run(st, es))
    decreases es
  {
    hide OwnIds, Step;
    if es != [] {
      StepOwn(st, es[0]);
      RetriesKeepTheirId(Step(st, es[0]), es[1..]);
    }
  }

  /** The id a trap object holds after a run: that of the last send for it, whether that send went out,
      failed to build or found the queue full. */
  function LastId(es: seq<Event>, trap: nat, id: int): int
    decreases es
  {
    if es == [] then id
    else
      var e := es[0];
      var next := if e.Send? && e.trap == trap then (if e.builds && !e.inform then e.newerId else e.newId) else id;
      LastId(es[1..], trap, next)
  }

  lemma {:induction false} IdAfterRun(st: State, es: seq<Event>, trap: nat)
    ensures IdOf(Run(st, es).ids, trap) == LastId(es, trap, IdOf(st.ids, trap))
    decreases es
  {
    hide Without, Resent;
    if es != [] { IdAfterRun(Step(st, es[0]), es[1..], trap); }
  }

  /** The same inform: its serial number, and with it the trap and the request id it was queued with. */
  predicate SameInform(x: Item, y: Item) { x.serial == y.serial && x.trap == y.trap && x.requestID == y.requestID }

  /** Nothing an operation leaves in the queue under an old serial number is new. */
  lemma StepOrigin(st: State, e: Event, y: Item) returns (x: Item)
    requires y in Step(st, e).items && y.serial < |st.budgets|
    ensures x in st.items && SameInform(x, y)
  {
    hide Resent, Without;
    match e
    case Send(trap, inform, replace, retries, delay, now, newId, newerId, builds, memory) =>
      WithoutIs(st.items, OfTrap(trap));
      x := y;
    case Ack(id) =>
      WithoutIs(st.items, OfRequest(id));
      x := y;
    case Poll(now) =>
      var p := PolledAll(st.items, now);
      WithoutIs(p, DoneOrOrphan);
      var i :| 0 <= i < |p| && p[i] == y;
      x := st.items[i];
    case Delete(trap) =>
      WithoutIs(st.items, OfTrap(trap));
      x := y;
  }

  lemma {:induction false} RunOrigin(st: State, es: seq<Event>, y: Item) returns (x: Item)
    requires y in Run(st, es).items && y.serial < |st.budgets|
    ensures x in st.items && SameInform(x, y)
    decreases es
  {
    hide Step, SameInform;
    if es == [] {
      x := y;
      SameSelf(x);
    } else {
      BudgetsGrow(st, es[0]);
      var z := RunOrigin(Step(st, es[0]), es[1..], y);
      SameSerial(z, y);
      x := StepOrigin(st, es[0], z);
      SameTwice(x, z, y);
    }
  }

  lemma SameSelf(x: Item)
    ensures SameInform(x, x)
  {}

  lemma SameSerial(x: Item, y: Item)
    requires SameInform(x, y)
    ensures x.serial == y.serial
  {}

  lemma SameTwice(x: Item, y: Item, z: Item)
    requires SameInform(x, y) && SameInform(y, z)
    ensures SameInform(x, z)
  {}

  lemma BudgetsGrow(st: State, e: Event)
    ensures |Step(st, e).budgets| >= |st.budgets|
  {}

  /** Over any run a queued inform keeps its trap and its request id. */
  lemma KeepsItsFields(st: State, es: seq<Event>, x: Item, y: Item)
    requires Inv(st) && x in st.items && y in Run(st, es).items && y.serial == x.serial
    ensures SameInform(x, y)
  {
    assert Balanced(st, x);
    var z := RunOrigin(st, es, y);
    var i :| 0 <= i < |st.items| && st.items[i] == x;
    var j :| 0 <= j < |st.items| && st.items[j] == z;
  }

  /** What a poll sends: one packet for each item that resends. */
  lemma {:induction false} ResentIs(items: seq<Item>, ids: map<nat, int>, now: int, s: Sent)
    ensures s in Resent(items, ids, now) <==>
            exists x :: x in items && Resends(x, now) && s == Sent(Some(x.serial), IdOf(ids, x.trap), x.requestID)
  {
    hide Resends;
    if items != [] {
      var n := |items| - 1;
      ResentIs(items[..n], ids, now, s);
      assert items == items[..n] + [items[n]];
    }
  }

  /** The retry of an inform still queued after a run goes out under the id its trap holds by then: that of the
      last send for the trap, whether that send went out, failed to build or found the queue full. So it
      goes out under its own id if and only if the last send drew that id, or there was none and the trap
      held it before the run. */
  lemma RetryIdExactly(st: State, es: seq<Event>, now: int, x: Item, y: Item)
    requires Inv(st) && x in st.items && y in Run(st, es).items && y.serial == x.serial && Resends(y, now)
    ensures var end := Run(st, es);
            var retries := Resent(end.items, end.ids, now);
            var retry := Sent(Some(x.serial), LastId(es, x.trap, IdOf(st.ids, x.trap)), x.requestID);
            && Step(end, Poll(now)).log == end.log + retries
            && (forall s :: s in retries && s.serial == Some(x.serial) <==> s == retry)
            && ((forall s :: s in retries && s.serial == Some(x.serial) ==> s.carried == s.original) <==>
                  LastId(es, x.trap, IdOf(st.ids, x.trap)) == x.requestID)
  {
    hide Run, LastId, Resent, Without;
    var end := Run(st, es);
    RunInv(st, es);
    IdAfterRun(st, es, x.trap);
    KeepsItsFields(st, es, x, y);
    var retry := Sent(Some(x.serial), LastId(es, x.trap, IdOf(st.ids, x.trap)), x.requestID);
    var i :| 0 <= i < |end.items| && end.items[i] == y;
    ResentIs(end.items, end.ids, now, retry);
    forall s | s in Resent(end.items, end.ids, now) && s.serial == Some(x.serial) ensures s == retry {
      ResentIs(end.items, end.ids, now, s);
      var z :| z in end.items && Resends(z, now) && s == Sent(Some(z.serial), IdOf(end.ids, z.trap), z.requestID);
      var j :| 0 <= j < |end.items| && end.items[j] == z;
    }
    assert retry in Resent(end.items, end.ids, now);
  }

  /** It can go wrong: a second send that fails to build leaves the first inform queued, and its retry
      goes out under an id nobody waits for. */
  lemma StaleRetry()
    requires INFLIGHT >= 1
    ensures var es := [Send(0, true, true, 1, 0, 0, 7, 0, true, true), Send(0, true, true, 1, 0, 0, 8, 0, false, true),
                       Poll(1)];
            Run(EMPTY, es).log == [Sent(Some(0), 7, 7), Sent(Some(0), 8, 7)]
  {
    hide Run, Without, Resent, PolledAll;
    var a, b, c := Send(0, true, true, 1, 0, 0, 7, 0, true, true), Send(0, true, true, 1, 0, 0, 8, 0, false, true),
        Poll(1);
    var x := Item(0, 1, 7, 1, 0, false, 0, 0, false);
    var s1, s2 := Step(EMPTY, a), Step(Step(EMPTY, a), b);
    WithoutNone(OfTrap(0));
    assert s1.items == [] + [x] == [x] && s1.log == [] + [Sent(Some(0), 7, 7)];
    OneResent(x, s2.ids, 1);
    assert s2.items == [x] && IdOf(s2.ids, 0) == 8 && U32(1 - 0) == 1;
    RunFirst(EMPTY, a, [b, c]);
    RunFirst(s1, b, [c]);
    RunFirst(s2, c, []);
    NoEvents(Step(s2, c));
    assert [a, b, c] == [a] + [b, c] && [b, c] == [b] + [c] && [c] == [c] + [];
  }

  lemma OneResent(x: Item, ids: map<nat, int>, now: int)
    ensures Resends(x, now) ==> Resent([x], ids, now) == [Sent(Some(x.serial), IdOf(ids, x.trap), x.requestID)]
  {
    assert [x][..0] == [];
    assert Resent([], ids, now) == [];
  }
}
