/** The inform queue: in-place compaction of a fixed array of items, and the retry protocol over runs of
    sends, acknowledgements, polls and trap deletions. */
module Inform {
  import opened Bytes

  /** SNMP_MAX_TRAPS_INFLIGHT */
  const INFLIGHT: nat

  const INVALID_SNMP_REQUEST_ID: int := 0

  /** An InformItem. serial tells items apart and budget is the retry count it was queued with; the rest
      are its fields. trap names the trap object it points to. */
  datatype Item = Item(serial: nat, budget: int, requestID: int, retries: int, delay: int, received: bool,
                       lastSent: int, trap: nat, missed: bool)

  /** One sendTo: for which item (none for a plain trap), the id on the wire, the item's own id. */
  datatype Sent = Sent(serial: Option<nat>, carried: int, original: int)

  /** ids are the request ids the trap objects hold; budgets those of all informs ever queued. */
  datatype State = State(items: seq<Item>, ids: map<nat, int>, log: seq<Sent>, budgets: seq<int>)

  datatype Event =
    | Send(trap: nat, inform: bool, replace: bool, retries: int, delay: int, now: int, newId: int, newerId: int,
           builds: bool, memory: bool)
    | Ack(requestID: int)
    | Poll(now: int)
    | Delete(trap: nat)

  function IdOf(ids: map<nat, int>, trap: nat): int { if trap in ids then ids[trap] else INVALID_SNMP_REQUEST_ID }

  // ------------------------------------------------------------- compaction

  /** The predicates handed to remove_informs_matching, with their context. */
  datatype Matcher = OfTrap(trap: nat) | OfRequest(id: int) | DoneOrOrphan
  {
    predicate Matches(item: Item) {
      match this
      case OfTrap(t) => item.trap == t
      case OfRequest(id) => item.requestID == id
      case DoneOrOrphan => item.received || (item.retries == 0 && item.missed)
    }
  }

  /** What remove_informs_matching leaves: the items that do not match, in order. */
  function Without(items: seq<Item>, m: Matcher): seq<Item> {
    if items == [] then []
    else Without(items[..|items| - 1], m) + if m.Matches(items[|items| - 1]) then [] else [items[|items| - 1]]
  }

  lemma WithoutNone(m: Matcher)
    ensures Without([], m) == []
  {}

  lemma WithoutNext(items: seq<Item>, i: nat, m: Matcher)
    requires i < |items|
    ensures Without(items[..i + 1], m) == Without(items[..i], m) + if m.Matches(items[i]) then [] else [items[i]]
  {
    assert items[..i + 1][..i] == items[..i];
  }

  // ---------------------------------------------------------------- protocol

  /** The unsigned 32-bit time since the last send exceeds the delay. */
  predicate Overdue(item: Item, now: int) { !item.received && U32(now - item.lastSent) > U32(item.delay) }

  predicate Resends(item: Item, now: int) { Overdue(item, now) && item.retries != 0 }

  /** One item in the poll loop. */
  function Polled(item: Item, now: int): Item {
    if Resends(item, now) then item.(lastSent := now, missed := false, retries := item.retries - 1)
    else if Overdue(item, now) then item.(missed := true)
    else item
  }

  function PolledAll(items: seq<Item>, now: int): (r: seq<Item>)
    ensures |r| == |items| && forall i :: 0 <= i < |items| ==> r[i] == Polled(items[i], now)
  {
    seq(|items|, i requires 0 <= i < |items| => Polled(items[i], now))
  }

  /** A retry sends the trap object as it is now, under the id the trap holds now. */
  function Resent(items: seq<Item>, ids: map<nat, int>, now: int): seq<Sent> {
    if items == [] then []
    else
      var x := items[|items| - 1];
      Resent(items[..|items| - 1], ids, now) +
      if Resends(x, now) then [Sent(Some(x.serial), IdOf(ids, x.trap), x.requestID)] else []
  }

  lemma ResentNone(ids: map<nat, int>, now: int)
    ensures Resent([], ids, now) == []
  {}

  lemma ResentNext(items: seq<Item>, i: nat, ids: map<nat, int>, now: int)
    requires i < |items|
    ensures var x := items[i];
            Resent(items[..i + 1], ids, now) == Resent(items[..i], ids, now) +
            if Resends(x, now) then [Sent(Some(x.serial), IdOf(ids, x.trap), x.requestID)] else []
  {
    assert items[..i + 1][..i] == items[..i];
  }

  function Queued(st: State, e: Event): Item
    requires e.Send?
  {
    Item(|st.budgets|, e.retries, e.newId, e.retries, e.delay, false, e.now, e.trap, false)
  }

  function Step(st: State, e: Event): State {
    match e
    case Send(trap, inform, replace, retries, delay, now, newId, newerId, builds, memory) =>
      var ids := st.ids[trap := newId];
      if !builds then st.(ids := ids)
      else
        var items := if replace then Without(st.items, OfTrap(trap)) else st.items;
        if !inform then
          State(items, ids[trap := newerId], st.log + [Sent(None, newerId, newerId)], st.budgets)
        else if |items| >= INFLIGHT || !memory then st.(items := items, ids := ids)
        else State(items + [Queued(st, e)], ids, st.log + [Sent(Some(|st.budgets|), newId, newId)],
                   st.budgets + [retries])
    case Ack(id) => st.(items := Without(st.items, OfRequest(id)))
    case Poll(now) =>
      st.(items := Without(PolledAll(st.items, now), DoneOrOrphan), log := st.log + Resent(st.items, st.ids, now))
    case Delete(trap) => st.(items := Without(st.items, OfTrap(trap)))
  }

  function Run(st: State, es: seq<Event>): State
    decreases es
  {
    if es == [] then st else Run(Step(st, es[0]), es[1..])
  }

  const EMPTY: State := State([], map[], [], [])

  // ---------------------------------------------------------------- the class

  class InformQueue {
    const list: array<Option<Item>>
    var count: nat
    var ids: map<nat, int>
    var log: seq<Sent>
    var budgets: seq<int>

    ghost predicate Valid()
      reads this, list
    {
      && list.Length == INFLIGHT && count <= INFLIGHT
      && (forall i :: 0 <= i < count ==> list[i].Some?)
      && forall i :: count <= i < INFLIGHT ==> list[i].None?
    }

    ghost function Items(n: nat): (r: seq<Item>)
      requires n <= list.Length && forall i :: 0 <= i < n ==> list[i].Some?
      reads list
      ensures |r| == n && forall i :: 0 <= i < n ==> r[i] == list[i].value
    {
      seq(n, i requires 0 <= i < n reads list =>
        if list[i].Some? then list[i].value else Item(0, 0, 0, 0, 0, false, 0, 0, false))
    }

    ghost function Abs(): State
      requires Valid()
      reads this, list
    {
      State(Items(count), ids, log, budgets)
    }

    constructor ()
      ensures Valid() && Abs() == EMPTY && fresh(list)
    {
      list := new Option<Item>[INFLIGHT](_ => None);
      count, ids, log, budgets := 0, map[], [], [];
    }

    /** remove_informs_matching: survivors move down in place, everything behind them is cleared. */
    method RemoveMatching(m: Matcher) returns (removed: nat)
      requires Valid()
      modifies this`count, list
      ensures Valid() && Abs() == old(Abs()).(items := Without(old(Abs()).items, m))
      ensures removed == old(count) - count
    {
      hide Without;
      removed := 0;
      var writeIdx := 0;
      ghost var items := Abs().items;
      ghost var kept: seq<Item> := [];
      WithoutNone(m);
      var i := 0;
      while i < count
        invariant 0 <= writeIdx <= i <= count == |items| && removed == i - writeIdx == i - |kept|
        invariant kept == Without(items[..i], m)
        invariant forall k :: 0 <= k < writeIdx ==> list[k] == Some(kept[k])
        invariant forall k :: i <= k < count ==> list[k] == Some(items[k])
        invariant forall k :: writeIdx <= k < i || count <= k < INFLIGHT ==> list[k].None?
      {
        WithoutNext(items, i, m);
        if m.Matches(list[i].value) {
          list[i] := None;
          removed := removed + 1;
        } else {
          if writeIdx != i {
            list[writeIdx] := list[i];
            list[i] := None;
          }
          writeIdx := writeIdx + 1;
          kept := kept + [items[i]];
        }
        i := i + 1;
      }
      assert items[..i] == items;
      ClearTail(writeIdx);
      assert Items(writeIdx) == kept;
    }

    /** The second loop: the list ends at n and every slot behind is null. */
    method ClearTail(n: nat)
      requires list.Length == INFLIGHT && n <= INFLIGHT && forall k :: 0 <= k < n ==> list[k].Some?
      modifies this`count, list
      ensures Valid() && count == n && Items(n) == old(Items(n))
    {
      count := n;
      var i := count;
      while i < INFLIGHT
        invariant n <= i && count == n && forall k :: n <= k < i && k < INFLIGHT ==> list[k].None?
        invariant forall k :: 0 <= k < n ==> list[k] == old(list[k])
      {
        list[i] := None;
        i := i + 1;
      }
    }

    /** One send as the queue sees it: the trap goes out under the id it holds now. */
    method SendTo(item: Option<nat>, trap: nat, original: int)
      modifies this`log
      ensures log == old(log) + [Sent(item, IdOf(ids, trap), original)]
    {
      log := log + [Sent(item, IdOf(ids, trap), original)];
    }

    /** queue_and_send_trap. builds and memory say whether the tree builds and the item can be allocated;
        newId and newerId are the ids the generator would draw. */
    method QueueAndSendTrap(trap: nat, inform: bool, replace: bool, retries: int, delay: int, now: int, newId: int,
                            newerId: int, builds: bool, memory: bool)
      returns (id: int)
      requires Valid()
      modifies this, list
      ensures Valid()
      ensures Abs() == Step(old(Abs()),
                            Send(trap, inform, replace, retries, delay, now, newId, newerId, builds, memory))
      ensures id == if |log| > |old(log)| then IdOf(ids, trap) else INVALID_SNMP_REQUEST_ID
    {
      ids := ids[trap := newId];
      if !builds { return INVALID_SNMP_REQUEST_ID; }
      if replace { var _ := RemoveMatching(OfTrap(trap)); }
      if !inform {
        ids := ids[trap := newerId];
        SendTo(None, trap, newerId);
        return IdOf(ids, trap);
      }
      if count >= INFLIGHT || !memory { return INVALID_SNMP_REQUEST_ID; }
      Enqueue(Item(|budgets|, retries, newId, retries, delay, false, now, trap, false));
      SendTo(Some(|budgets|), trap, newId);
      budgets := budgets + [retries];
      return IdOf(ids, trap);
    }

    method Enqueue(item: Item)
      requires Valid() && count < INFLIGHT
      modifies this`count, list
      ensures Valid() && Abs() == old(Abs()).(items := old(Abs()).items + [item])
    {
      list[count] := Some(item);
      count := count + 1;
    }

    method InformCallback(requestID: int)
      requires Valid()
      modifies this`count, list
      ensures Valid() && Abs() == Step(old(Abs()), Ack(requestID))
    {
      var _ := RemoveMatching(OfRequest(requestID));
    }

    method MarkTrapDeleted(trap: nat)
      requires Valid()
      modifies this`count, list
      ensures Valid() && Abs() == Step(old(Abs()), Delete(trap))
    {
      var _ := RemoveMatching(OfTrap(trap));
    }

    method InformPendingWithId(requestID: int) returns (pending: bool)
      requires Valid()
      ensures pending == exists x :: x in Abs().items && x.requestID == requestID
    {
      ghost var items := Abs().items;
      var i := 0;
      while i < count
        invariant 0 <= i <= count && forall k :: 0 <= k < i ==> items[k].requestID != requestID
      {
        if list[i].value.requestID == requestID {
          assert items[i] in items;
          return true;
        }
        i := i + 1;
      }
      return false;
    }

    /** handle_inform_queue */
    method HandleInformQueue(now: int)
      requires Valid()
      modifies this, list
      ensures Valid() && Abs() == Step(old(Abs()), Poll(now))
    {
      hide Resent, Without;
      ghost var st := Abs();
      ghost var items := st.items;
      ResentNone(ids, now);
      assert st.log + [] == st.log;
      var i := 0;
      while i < count
        invariant 0 <= i <= count == |items| && Valid() && ids == st.ids && budgets == st.budgets
        invariant forall k :: 0 <= k < count ==> list[k].value == if k < i then Polled(items[k], now) else items[k]
        invariant log == st.log + Resent(items[..i], ids, now)
      {
        ResentNext(items, i, ids, now);
        ghost var before := log;
        var item := list[i].value;
        if !item.received && U32(now - item.lastSent) > U32(item.delay) {
          list[i] := Some(item.(missed := true));
          if item.retries != 0 {
            SendTo(Some(item.serial), item.trap, item.requestID);
            list[i] := Some(item.(lastSent := now, missed := false, retries := item.retries - 1));
          }
        }
        assert before + [] == before;
        i := i + 1;
      }
      assert items[..i] == items;
      assert Abs().items == PolledAll(items, now);
      var _ := RemoveMatching(DoneOrOrphan);
    }
  }
}
