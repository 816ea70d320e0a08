/** GETBULK in terms of GETNEXT: the resume index, the row cap and the pool only decide how fast and
    whether the answer comes, never what it says. */
module BulkLaws {
  import opened Bytes
  import opened Ber
  import opened Caps
  import opened Containers
  import opened BerView
  import opened Roster
  import opened Handling

  // ------------------------------------------------- the reference: GETNEXT

  /** GETNEXT from oid, then from each name it finds, at most reps times: every lookup from the start
      of the roster, no cap on rows, no pool. */
  function NextRows(store: seq<Handler>, oid: bytes, reps: nat): seq<Planned>
    decreases reps
  {
    if reps == 0 then []
    else
      match FindFrom(Names(store), oid, true, 0)
      case None => [EndRow(oid)]
      case Some(i) =>
        match ReadCell(store[i])
        case None => [Planned(store[i].oid, None, NULLTYPE, GEN_ERR)]
        case Some(p) => [Planned(store[i].oid, Some(p), 0, NO_ERROR)] + NextRows(store, store[i].oid, reps - 1)
  }

  function NextAll(store: seq<Handler>, vbs: seq<ReqVb>, reps: nat): seq<Planned> {
    if vbs == [] then [] else NextRows(store, vbs[0].oid, reps) + NextAll(store, vbs[1..], reps)
  }

  /** The non-repeaters' rows with a pool that never runs dry. */
  function FirstRows(store: seq<Handler>, vbs: seq<ReqVb>): seq<Planned> {
    if vbs == [] then [] else [NonRepeaterRow(store, vbs[0], 1)] + FirstRows(store, vbs[1..])
  }

  /** Everything a GETBULK should return. */
  function BulkRows(store: seq<Handler>, q: Request): seq<Planned> {
    var nonRepeaters := U32(q.errorStatus);
    var n := if nonRepeaters < |q.vbs| then nonRepeaters else |q.vbs|;
    FirstRows(store, q.vbs[..n]) + NextAll(store, q.vbs[n..], U32(q.errorIndex))
  }

  predicate WithinRoom(rows: seq<Planned>, room: nat, r: Option<seq<Planned>>) {
    r == if |rows| <= room then Some(rows) else None
  }

  predicate NamesHold(store: seq<Handler>) { forall i :: 0 <= i < |store| ==> OidOk(store[i].oid) }

  predicate RequestHolds(vbs: seq<ReqVb>) { forall i :: 0 <= i < |vbs| ==> OidOk(vbs[i].oid) }

  /** A repeater returns the rows of the iterated GETNEXT, all of them or, if they are too many, none:
      on a sorted roster the resume index changes nothing. */
  lemma {:induction false} RepeatIsGetNext(store: seq<Handler>, cursor: bytes, foundAt: nat, reps: nat, room: nat,
                                           free: nat)
    requires Sorted(Names(store)) && NamesHold(store) && OidOk(cursor) && free > room
    requires foundAt == 0 || (foundAt < |store| && cursor == store[foundAt].oid)
    ensures WithinRoom(NextRows(store, cursor, reps), room, Repeat(store, cursor, foundAt, reps, room, free))
    decreases reps
  {
    hide Sorted, FindFrom, OidOk, ReadCell, NamesHold;
    if reps > 0 {
      OneRow();
      if foundAt > 0 { HintIsSpeedUp(Names(store), foundAt); }
      var found := FindFrom(Names(store), cursor, true, 0);
      if found.Some? {
        var i := found.value;
        NameHolds(store, i);
        if ReadCell(store[i]).Some? && room > 0 {
          RepeatIsGetNext(store, store[i].oid, i, reps - 1, room - 1, free - 1);
        }
      }
    }
  }

  lemma OneRow()
    ensures forall row: Planned :: [row] + [] == [row]
  {}

  lemma NameHolds(store: seq<Handler>, i: nat)
    requires NamesHold(store) && i < |store|
    ensures OidOk(store[i].oid)
  {}

  lemma {:induction false} RepeatersAreGetNext(store: seq<Handler>, vbs: seq<ReqVb>, reps: nat, room: nat, free: nat)
    requires Sorted(Names(store)) && NamesHold(store) && RequestHolds(vbs) && free > room
    ensures WithinRoom(NextAll(store, vbs, reps), room, Repeaters(store, vbs, reps, room, free))
    decreases vbs
  {
    hide Sorted, Repeat, NextRows, OidOk, NamesHold;
    if vbs != [] {
      assert OidOk(vbs[0].oid);
      RepeatIsGetNext(store, vbs[0].oid, 0, reps, room, free);
      var rows := NextRows(store, vbs[0].oid, reps);
      if |rows| <= room {
        CostAtMost(rows);
        RepeatersAreGetNext(store, vbs[1..], reps, room - |rows|, free - CostAll(rows));
      }
    }
  }

  lemma {:induction false} NonRepeatersAreFirst(store: seq<Handler>, vbs: seq<ReqVb>, room: nat, free: nat)
    requires NamesHold(store) && RequestHolds(vbs) && free > room
    ensures WithinRoom(FirstRows(store, vbs), room, NonRepeaters(store, vbs, room, free))
    decreases vbs
  {
    hide FindFrom, OidOk, ReadCell, NamesHold;
    if vbs != [] {
      assert OidOk(vbs[0].oid);
      var row := NonRepeaterRow(store, vbs[0], free);
      assert row == NonRepeaterRow(store, vbs[0], 1);
      var found := FindFrom(Names(store), vbs[0].oid, true, 0);
      if found.Some? { NameHolds(store, found.value); }
      if room > 0 { NonRepeatersAreFirst(store, vbs[1..], room - 1, free - Cost(row)); }
    }
  }

  /** GETBULK returns the whole iterated GETNEXT or answers tooBig: never a shortened list. */
  lemma BulkNeverTruncates(store: seq<Handler>, q: Request, free: nat)
    requires Sorted(Names(store)) && NamesHold(store) && RequestHolds(q.vbs) && free > VB
    ensures WithinRoom(BulkRows(store, q), VB, Bulk(store, q, free))
    ensures q.pduType == GETBULK_REQUEST && q.version == 1 ==>
              forall permission, values: seq<Value>, memory | |values| == |q.vbs| ::
                Stage(permission, store, q, values, memory, free).0 ==
                if |BulkRows(store, q)| <= VB then Rows(BulkRows(store, q)) else Global(TOO_BIG)
  {
    hide Sorted, NonRepeaters, Repeaters, FirstRows, NextAll, OidOk, NamesHold, CostAll, Gets, Sets;
    var nonRepeaters := U32(q.errorStatus);
    var n := if nonRepeaters < |q.vbs| then nonRepeaters else |q.vbs|;
    NonRepeatersAreFirst(store, q.vbs[..n], VB, free);
    var first := FirstRows(store, q.vbs[..n]);
    if |first| <= VB {
      CostAtMost(first);
      RepeatersAreGetNext(store, q.vbs[n..], U32(q.errorIndex), VB - |first|, free - CostAll(first));
    }
  }

  // ------------------------------------------------------- shape of the rows

  /** The handlers from a up to b, served. */
  function SliceRows(store: seq<Handler>, a: nat, b: nat): (r: seq<Planned>)
    requires a <= b <= |store|
    ensures |r| == b - a
  {
    seq(b - a, i requires 0 <= i < b - a => Planned(store[a + i].oid, ReadCell(store[a + i]), 0, NO_ERROR))
  }

  /** The first handler from a on that has no value to give, |store| if there is none. */
  function Unreadable(store: seq<Handler>, a: nat): (u: nat)
    requires a <= |store|
    ensures a <= u <= |store| && (u < |store| ==> ReadCell(store[u]).None?)
    ensures forall i :: a <= i < u ==> ReadCell(store[i]).Some?
    decreases |store| - a
  {
    if a == |store| || ReadCell(store[a]).None? then a else Unreadable(store, a + 1)
  }

  /** The row a walk ends with at handler u, or behind the last one: genErr or endOfMibView. */
  function LastRow(store: seq<Handler>, u: nat): Planned
    requires u <= |store| && store != []
  {
    if u < |store| then Planned(store[u].oid, None, NULLTYPE, GEN_ERR) else EndRow(store[|store| - 1].oid)
  }

  /** reps rows from handler a on: a slice of the roster and at most one row more. */
  function SliceFrom(store: seq<Handler>, a: nat, reps: nat): seq<Planned>
    requires a <= |store| && store != []
  {
    var u := Unreadable(store, a);
    if reps <= u - a then SliceRows(store, a, a + reps) else SliceRows(store, a, u) + [LastRow(store, u)]
  }

  /** Iterated GETNEXT on a sorted roster is a contiguous slice of it, up to the first handler with no value to
      give, and then at most one row more: genErr for that handler, or endOfMibView under the last name.
      So it is at most one row more than there are handlers, whatever the repetition count. */
  lemma NextRowsAreSlice(store: seq<Handler>, oid: bytes, reps: nat)
    requires Sorted(Names(store))
    ensures var start := FindFrom(Names(store), oid, true, 0);
            NextRows(store, oid, reps) ==
            if reps == 0 then [] else if start.None? then [EndRow(oid)] else SliceFrom(store, start.value, reps)
    ensures |NextRows(store, oid, reps)| <= |store| + 1
  {
    hide Sorted, FindFrom, SliceFrom, NextRows, ReadCell;
    var start := FindFrom(Names(store), oid, true, 0);
    FirstRow(store, oid, reps);
    if reps > 0 && start.Some? {
      var a := start.value;
      SliceFromStep(store, a, reps);
      if ReadCell(store[a]).Some? { NextRowsOn(store, a, reps - 1); }
    }
  }

  lemma FirstRow(store: seq<Handler>, oid: bytes, reps: nat)
    ensures var start := FindFrom(Names(store), oid, true, 0);
            && (reps == 0 ==> NextRows(store, oid, reps) == [])
            && (reps > 0 && start.None? ==> NextRows(store, oid, reps) == [EndRow(oid)])
            && (reps > 0 && start.Some? ==>
                  var h := store[start.value];
                  NextRows(store, oid, reps) ==
                  if ReadCell(h).None? then [Planned(h.oid, None, NULLTYPE, GEN_ERR)]
                  else [Planned(h.oid, ReadCell(h), 0, NO_ERROR)] + NextRows(store, h.oid, reps - 1))
  {
    hide FindFrom, ReadCell;
  }

  /** The slice from a on begins with handler a. */
  lemma SliceFromStep(store: seq<Handler>, a: nat, reps: nat)
    requires a < |store| && reps > 0
    ensures SliceFrom(store, a, reps) ==
            if ReadCell(store[a]).None? then [Planned(store[a].oid, None, NULLTYPE, GEN_ERR)]
            else [Planned(store[a].oid, ReadCell(store[a]), 0, NO_ERROR)] + SliceFrom(store, a + 1, reps - 1)
    ensures |SliceFrom(store, a, reps)| <= |store| - a + 1
  {
    hide ReadCell;
    var u := Unreadable(store, a);
    if ReadCell(store[a]).None? {
      assert SliceRows(store, a, a) == [];
    } else {
      var first := Planned(store[a].oid, ReadCell(store[a]), 0, NO_ERROR);
      assert SliceRows(store, a, u) == [first] + SliceRows(store, a + 1, u);
      if reps <= u - a { assert SliceRows(store, a, a + reps) == [first] + SliceRows(store, a + 1, a + reps); }
      assert [first] + SliceRows(store, a + 1, u) + [LastRow(store, u)]
             == [first] + (SliceRows(store, a + 1, u) + [LastRow(store, u)]);
    }
  }

  /** The rows after handler k. */
  lemma {:induction false} NextRowsOn(store: seq<Handler>, k: nat, reps: nat)
    requires Sorted(Names(store)) && k < |store|
    ensures NextRows(store, store[k].oid, reps) == SliceFrom(store, k + 1, reps)
    decreases reps
  {
    hide Sorted, FindFrom, SliceFrom, ReadCell, NextRows;
    HintIsSpeedUp(Names(store), k);
    FirstRow(store, store[k].oid, reps);
    if reps == 0 || k + 1 == |store| {
      SliceFromEnd(store, k + 1, reps);
    } else {
      SliceFromStep(store, k + 1, reps);
      if ReadCell(store[k + 1]).Some? { NextRowsOn(store, k + 1, reps - 1); }
    }
  }

  lemma SliceFromEnd(store: seq<Handler>, a: nat, reps: nat)
    requires a <= |store| && store != [] && (reps == 0 || a == |store|)
    ensures SliceFrom(store, a, reps) == if reps == 0 then [] else [EndRow(store[|store| - 1].oid)]
  {
    hide ReadCell;
    assert SliceRows(store, a, a) == [];
  }
}
