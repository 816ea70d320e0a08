/** Phase A of the zero-copy engine: request values decoded, handlers looked up, read and set, and
    everything the response needs copied into a plan, before a single octet is written. */
module Staging {
  import opened Bytes
  import opened Ber
  import opened Caps
  import opened Containers
  import opened BerView
  import opened Roster
  import opened Pool
  import opened Handling
  import opened PlanFacts
  import ContainerPool

  // ------------------------------------------------------------------- plan

  datatype PlannedVarBind = PlannedVarBind(row: Planned, slot: nat)

  function RowsOf(vs: seq<PlannedVarBind>): (r: seq<Planned>)
    ensures |r| == |vs| && forall i :: 0 <= i < |vs| ==> r[i] == vs[i].row
  {
    seq(|vs|, i requires 0 <= i < |vs| => vs[i].row)
  }

  function SlotOf(v: PlannedVarBind): seq<nat> { if v.row.value.Some? then [v.slot] else [] }

  /** The slots the planned values own. */
  function SlotsOf(vs: seq<PlannedVarBind>): seq<nat> {
    if vs == [] then [] else SlotsOf(vs[..|vs| - 1]) + SlotOf(vs[|vs| - 1])
  }

  lemma {:induction false} SlotsCost(vs: seq<PlannedVarBind>)
    ensures |SlotsOf(vs)| == CostAll(RowsOf(vs)) <= |vs|
  {
    if vs != [] {
      SlotsCost(vs[..|vs| - 1]);
      assert RowsOf(vs)[..|vs| - 1] == RowsOf(vs[..|vs| - 1]);
    }
  }

  lemma {:induction false} CostAppend(a: seq<Planned>, b: seq<Planned>)
    ensures CostAll(a + b) == CostAll(a) + CostAll(b)
  {
    if b == [] {
      assert a + b == a;
    } else {
      assert (a + b)[..|a + b| - 1] == a + b[..|b| - 1];
      CostAppend(a, b[..|b| - 1]);
    }
  }

  class ResponsePlan {
    const varbinds: array<PlannedVarBind>
    var count: nat
    var lastError: int
    var lastErrorIndex: nat

    ghost predicate Valid()
      reads this, varbinds
    {
      varbinds.Length == VB && count <= VB && (lastError, lastErrorIndex) == LastError(Rows())
    }

    ghost function Rows(): seq<Planned>
      requires varbinds.Length == VB && count <= VB
      reads this, varbinds
    {
      RowsOf(varbinds[..count])
    }

    ghost function Slots(): seq<nat>
      requires varbinds.Length == VB && count <= VB
      reads this, varbinds
    {
      SlotsOf(varbinds[..count])
    }

    constructor ()
      ensures Valid() && fresh(varbinds) && Rows() == [] && Slots() == []
    {
      varbinds := new PlannedVarBind[VB](_ => PlannedVarBind(Planned([], None, 0, NO_ERROR), 0));
      count, lastError, lastErrorIndex := 0, NO_ERROR, 0;
    }

    /** Appends a row and, if it is in error, makes it the reported one. */
    method Add(row: Planned, slot: nat) returns (ok: bool)
      requires Valid()
      modifies this, varbinds
      ensures Valid() && ok == (old(count) < VB)
      ensures ok ==> Rows() == old(Rows()) + [row] && Slots() == old(Slots()) + SlotOf(PlannedVarBind(row, slot))
      ensures !ok ==> Rows() == old(Rows()) && Slots() == old(Slots())
    {
      ghost var before := varbinds[..count];
      if count >= VB { return false; }
      varbinds[count] := PlannedVarBind(row, slot);
      count := count + 1;
      if row.error != NO_ERROR {
        lastError := row.error;
        lastErrorIndex := count;
      }
      assert varbinds[..count] == before + [PlannedVarBind(row, slot)];
      assert varbinds[..count][..count - 1] == before && RowsOf(varbinds[..count])[..count - 1] == RowsOf(before);
      return true;
    }
  }

  // ------------------------------------------------------------ pool ledger

  /** What phase A found: the slots taken before the packet, those of the decoded request values,
      and the pool's marks. */
  datatype Books = Books(slots: array<Slot>, base: set<nat>, used: nat, owned: seq<nat>, peak: int, alarms: nat)

  /** The pool holds what it held before, the decoded values, the values of the planned rows and the
      slots in extra; it never held more than one value beyond a full plan. */
  ghost predicate Balanced(pool: ASNPool, plan: ResponsePlan, b: Books, rows: seq<Planned>, extra: seq<nat>)
    reads pool, pool.slots, plan, plan.varbinds
  {
    && plan.Valid() && plan.Rows() == rows && pool.slots == b.slots
    && pool.Holds(b.base, b.used, b.owned + plan.Slots() + extra)
    && pool.doubleReleaseAlarms == b.alarms && pool.usedCountPeak <= Max(b.peak, b.used + |b.owned| + VB + 1)
  }

  /** Slots still free once these rows are planned. */
  function Room(b: Books, rows: seq<Planned>): int { b.slots.Length - b.used - |b.owned| - CostAll(rows) }

  lemma BalancedRoom(pool: ASNPool, plan: ResponsePlan, b: Books, rows: seq<Planned>)
    requires Balanced(pool, plan, b, rows, [])
    ensures Room(b, rows) >= 0 && |rows| == plan.count <= VB && pool.slots == b.slots
  {
    SlotsCost(plan.varbinds[..plan.count]);
  }

  /** addRequestOidPlan and addCallbackOidPlan: a row that cannot be held gives its value back. */
  method AddRow(pool: ASNPool, plan: ResponsePlan, row: Planned, slot: nat, ghost b: Books, ghost rows: seq<Planned>)
    returns (ok: bool)
    requires Balanced(pool, plan, b, rows, SlotOf(PlannedVarBind(row, slot)))
    modifies pool, pool.slots, plan, plan.varbinds
    ensures ok == (OidOk(row.oid) && |rows| < VB)
    ensures Balanced(pool, plan, b, if ok then rows + [row] else rows, [])
  {
    hide ASNPool.Holds, LastError;
    ghost var held := b.owned + plan.Slots();
    ok := false;
    if OidOk(row.oid) {
      ok := plan.Add(row, slot);
    }
    if ok {
      assert held + SlotOf(PlannedVarBind(row, slot)) == b.owned + plan.Slots() + [];
    } else if row.value.Some? {
      assert held + [slot] == held + [slot] + [];
      pool.Delete(slot, b.base, b.used, held, []);
    }
  }

  /** getValueForCallback: a pool slot for the value, or none when the pool is dry or the handler has no
      value to serve. A value that turns out unusable is given back at once. */
  method GetValue(pool: ASNPool, plan: ResponsePlan, callback: ValueCallback, ghost b: Books, ghost rows: seq<Planned>)
    returns (value: Option<Prim>, slot: nat)
    requires Balanced(pool, plan, b, rows, []) && Room(b, rows) >= 0
    modifies pool, pool.slots
    ensures pool.slots == old(pool.slots) && value == ReadValue(callback.State(), Room(b, rows))
    ensures Balanced(pool, plan, b, rows, if value.Some? then [slot] else [])
  {
    hide ASNPool.Holds, LastError, CostAll;
    if callback.cell.NullCell? { return None, 0; }
    ghost var held := b.owned + plan.Slots() + [];
    SlotsCost(plan.varbinds[..plan.count]);
    var s := pool.New(callback.htype, b.base, b.used, held);
    if s.None? { return None, 0; }
    value := ReadCell(callback.State());
    slot := s.value;
    if value.None? {
      assert held + [slot] == held + [slot] + [] && held + [] == held;
      pool.Delete(slot, b.base, b.used, held, []);
    } else {
      assert held + [slot] == b.owned + plan.Slots() + [slot];
    }
  }

  /** The buffer still holds the request: each slice reads what the walk saw there. */
  ghost predicate Reads(buffer: array<byte>, slices: seq<VarBindView>, vbs: seq<ReqVb>)
    reads buffer
  {
    |slices| == |vbs| && forall i :: 0 <= i < |vbs| ==> ReadsOne(buffer, slices[i], vbs[i])
  }

  ghost predicate ReadsOne(buffer: array<byte>, v: VarBindView, vb: ReqVb)
    reads buffer
  {
    && v.oid.In(buffer[..]) && v.oid.Of(buffer[..]) == vb.oid
    && v.tlv.In(buffer[..]) && v.tlv.Of(buffer[..]) == vb.tlv
    && v.valueType == vb.tag
  }

  predicate Apart(buffer: array<byte>, b: Books, plan: ResponsePlan) {
    buffer as object != b.slots && buffer as object != plan.varbinds && b.slots as object != plan.varbinds
  }

  /** The octets of a request name, still in the request buffer. */
  method NameAt(buffer: array<byte>, request: HeaderView, i: nat, ghost vbs: seq<ReqVb>) returns (oid: bytes)
    requires i < |request.vbs| && Reads(buffer, request.vbs, vbs)
    ensures oid == vbs[i].oid
  {
    assert ReadsOne(buffer, request.vbs[i], vbs[i]);
    var s := request.vbs[i].oid;
    oid := buffer[s.at..s.at + s.len];
    assert oid == s.Of(buffer[..]);
  }

  // ---------------------------------------------------------- GET and GETNEXT

  method StageGet(pool: ASNPool, plan: ResponsePlan, callbacks: seq<ValueCallback>, buffer: array<byte>,
                  request: HeaderView, getNext: bool, ghost vbs: seq<ReqVb>, ghost b: Books)
    returns (ok: bool, ghost rows: seq<Planned>)
    requires Balanced(pool, plan, b, [], [])
    requires Reads(buffer, request.vbs, vbs) && |request.vbs| == |vbs| && Apart(buffer, b, plan)
    modifies pool, pool.slots, plan, plan.varbinds
    ensures Balanced(pool, plan, b, rows, []) && Room(b, []) >= 0
    ensures var r := Gets(Snapshot(callbacks), request.version, vbs, getNext, VB, Room(b, []));
            ok == r.Some? && (ok ==> rows == r.value)
  {
    hide Balanced, Gets, GetRow, OidOk, Continues, Room, Reads;
    BalancedRoom(pool, plan, b, []);
    var i := 0;
    rows := [];
    ghost var store := Snapshot(callbacks);
    ghost var whole := Gets(store, request.version, vbs, getNext, VB, Room(b, []));
    ContinuesStart(whole);
    assert vbs[0..] == vbs;
    while i < |request.vbs|
      invariant 0 <= i <= |request.vbs| && Snapshot(callbacks) == store && Reads(buffer, request.vbs, vbs)
      invariant pool.slots == b.slots && Balanced(pool, plan, b, rows, []) && |rows| <= VB && Room(b, rows) >= 0
      invariant Continues(whole, rows, Gets(store, request.version, vbs[i..], getNext, VB - |rows|, Room(b, rows)))
    {
      ghost var row;
      ok, row := StageGetOne(pool, plan, callbacks, buffer, request, i, getNext, store, vbs, b, rows);
      GetsAdvance(whole, rows, b, store, request.version, vbs, getNext, i);
      if !ok { return; }
      BalancedRoom(pool, plan, b, rows + [row]);
      rows := rows + [row];
      i := i + 1;
    }
    assert vbs[i..] == [];
    GetsDone(store, request.version, getNext, VB - |rows|, Room(b, rows));
    ContinuesEnd(whole, rows);
    return true, rows;
  }

  /** What one more row means for the whole loop. */
  lemma GetsAdvance(whole: Option<seq<Planned>>, rows: seq<Planned>, b: Books, store: seq<Handler>, version: int,
                    vbs: seq<ReqVb>, next: bool, i: nat)
    requires i < |vbs| && |rows| <= VB && Room(b, rows) >= 0
    requires Continues(whole, rows, Gets(store, version, vbs[i..], next, VB - |rows|, Room(b, rows)))
    ensures var row := GetRow(store, version, vbs[i], next, Room(b, rows));
            var ok := OidOk(row.oid) && |rows| < VB;
            && (!ok ==> whole == None)
            && (ok ==> Room(b, rows + [row]) >= 0
                       && Continues(whole, rows + [row],
                                    Gets(store, version, vbs[i + 1..], next, VB - |rows + [row]|,
                                         Room(b, rows + [row]))))
  {
    hide Gets, GetRow, OidOk, Continues, Room, CostAll;
    var room, free: nat := VB - |rows|, Room(b, rows);
    var row := GetRow(store, version, vbs[i], next, free);
    assert vbs[i..][0] == vbs[i] && vbs[i..][1..] == vbs[i + 1..];
    GetsUnfold(store, version, vbs[i..], next, room, free);
    ContinuesNone(whole, rows);
    if OidOk(row.oid) && room > 0 {
      RoomAfter(b, rows, [row]);
      ContinuesStep(whole, rows, [row], Gets(store, version, vbs[i..], next, room, free),
                    Gets(store, version, vbs[i + 1..], next, room - 1, free - Cost(row)));
    }
  }

  lemma RoomAfter(b: Books, rows: seq<Planned>, more: seq<Planned>)
    ensures Room(b, rows + more) == Room(b, rows) - CostAll(more)
    ensures |more| == 1 ==> CostAll(more) == Cost(more[0])
  {
    CostAppend(rows, more);
    if |more| == 1 { assert more[..0] == []; }
  }

  lemma GetRowIs(store: seq<Handler>, version: int, vb: ReqVb, next: bool, free: nat, found: Option<nat>,
                 value: Option<Prim>)
    requires found == FindFrom(Names(store), vb.oid, next, 0)
    requires found.Some? ==> value == ReadValue(store[found.value], free)
    ensures GetRow(store, version, vb, next, free) ==
            if found.None? then Planned(vb.oid, None, if next then ENDOFMIBVIEW else NOSUCHOBJECT, NO_ERROR)
            else if value.None? then Planned(store[found.value].oid, None, NULLTYPE, ForVersion(GEN_ERR, version))
            else Planned(store[found.value].oid, value, 0, NO_ERROR)
  {}

  lemma NonRepeaterRowIs(store: seq<Handler>, vb: ReqVb, free: nat, found: Option<nat>, value: Option<Prim>)
    requires found == FindFrom(Names(store), vb.oid, true, 0)
    requires found.Some? ==> value == ReadValue(store[found.value], free)
    ensures NonRepeaterRow(store, vb, free) ==
            if found.None? then Planned(vb.oid, None, ENDOFMIBVIEW, NO_ERROR)
            else if value.None? then Planned(store[found.value].oid, None, NULLTYPE, GEN_ERR)
            else Planned(vb.oid, value, 0, NO_ERROR)
  {}

  /** One round of the loop of stageGet. */
  method StageGetOne(pool: ASNPool, plan: ResponsePlan, callbacks: seq<ValueCallback>, buffer: array<byte>,
                     request: HeaderView, i: nat, getNext: bool, ghost store: seq<Handler>, ghost vbs: seq<ReqVb>,
                     ghost b: Books, ghost rows: seq<Planned>)
    returns (ok: bool, ghost row: Planned)
    requires store == Snapshot(callbacks) && Balanced(pool, plan, b, rows, []) && Room(b, rows) >= 0
    requires i < |request.vbs| == |vbs| && Reads(buffer, request.vbs, vbs)
    modifies pool, pool.slots, plan, plan.varbinds
    ensures row == GetRow(store, request.version, vbs[i], getNext, Room(b, rows))
    ensures ok == (OidOk(row.oid) && |rows| < VB)
    ensures Balanced(pool, plan, b, if ok then rows + [row] else rows, [])
  {
    hide Balanced, FindFrom, Room, Reads, ReadValue, OidOk, Names, GetRow, NonRepeaterRow;
    BalancedRoom(pool, plan, b, rows);
    var oid := NameAt(buffer, request, i, vbs);
    var found, _ := FindCallbackForSlice(callbacks, oid, getNext, 0, 0);
    var p := Planned(oid, None, if getNext then ENDOFMIBVIEW else NOSUCHOBJECT, NO_ERROR);
    var value, slot := None, 0;
    if found.Some? {
      var callback := callbacks[found.value];
      SnapshotAt(callbacks, found.value);
      value, slot := GetValue(pool, plan, callback, b, rows);
      p := if value.None? then Planned(callback.oid, None, NULLTYPE, ForVersion(GEN_ERR, request.version))
           else Planned(callback.oid, value, 0, NO_ERROR);
    }
    row := p;
    GetRowIs(store, request.version, vbs[i], getNext, Room(b, rows), found, value);
    ok := AddRow(pool, plan, p, slot, b, rows);
  }

  // ---------------------------------------------------------------- GETBULK

  method StageGetBulk(pool: ASNPool, plan: ResponsePlan, callbacks: seq<ValueCallback>, buffer: array<byte>,
                      request: HeaderView, ghost q: Request, ghost b: Books)
    returns (ok: bool, ghost rows: seq<Planned>)
    requires Balanced(pool, plan, b, [], [])
    requires q.errorStatus == request.errorStatus && q.errorIndex == request.errorIndex
    requires Reads(buffer, request.vbs, q.vbs) && |request.vbs| == |q.vbs| && Apart(buffer, b, plan)
    modifies pool, pool.slots, plan, plan.varbinds
    ensures Balanced(pool, plan, b, rows, []) && Room(b, []) >= 0
    ensures var r := Bulk(Snapshot(callbacks), q, Room(b, [])); ok == r.Some? && (ok ==> rows == r.value)
  {
    hide Balanced, NonRepeaters, Repeaters, Room, Reads, CostAll;
    BalancedRoom(pool, plan, b, []);
    var nonRepeaters := U32(request.errorStatus);
    var maxRepetitions := U32(request.errorIndex);
    var nonRepeaterCount := if nonRepeaters < |request.vbs| then nonRepeaters else |request.vbs|;
    ok, rows := StageNonRepeaters(pool, plan, callbacks, buffer, request, nonRepeaterCount, q.vbs, b);
    if !ok { return; }
    BalancedRoom(pool, plan, b, rows);
    RoomAfter(b, [], rows);
    assert [] + rows == rows;
    ghost var more;
    ok, more := StageRepeaters(pool, plan, callbacks, buffer, request, nonRepeaterCount, maxRepetitions, q.vbs, b,
                               rows);
    rows := rows + more;
  }

  method StageNonRepeaters(pool: ASNPool, plan: ResponsePlan, callbacks: seq<ValueCallback>, buffer: array<byte>,
                           request: HeaderView, n: nat, ghost vbs: seq<ReqVb>, ghost b: Books)
    returns (ok: bool, ghost rows: seq<Planned>)
    requires Balanced(pool, plan, b, [], []) && n <= |request.vbs| == |vbs|
    requires Reads(buffer, request.vbs, vbs) && Apart(buffer, b, plan)
    modifies pool, pool.slots, plan, plan.varbinds
    ensures Balanced(pool, plan, b, rows, []) && Room(b, []) >= 0
    ensures var r := NonRepeaters(Snapshot(callbacks), vbs[..n], VB, Room(b, []));
            ok == r.Some? && (ok ==> rows == r.value)
  {
    hide Balanced, NonRepeaters, NonRepeaterRow, OidOk, Continues, Room, Reads;
    BalancedRoom(pool, plan, b, []);
    var i := 0;
    rows := [];
    ghost var store := Snapshot(callbacks);
    ghost var whole := NonRepeaters(store, vbs[..n], VB, Room(b, []));
    ContinuesStart(whole);
    assert vbs[..n][0..] == vbs[..n];
    while i < n
      invariant 0 <= i <= n && Snapshot(callbacks) == store && Reads(buffer, request.vbs, vbs)
      invariant pool.slots == b.slots && Balanced(pool, plan, b, rows, []) && |rows| <= VB && Room(b, rows) >= 0
      invariant Continues(whole, rows, NonRepeaters(store, vbs[..n][i..], VB - |rows|, Room(b, rows)))
    {
      ghost var row;
      ok, row := StageNonRepeater(pool, plan, callbacks, buffer, request, i, store, vbs, b, rows);
      NonRepeatersAdvance(whole, rows, b, store, vbs[..n], i);
      if !ok { return; }
      BalancedRoom(pool, plan, b, rows + [row]);
      rows := rows + [row];
      i := i + 1;
    }
    assert vbs[..n][i..] == [];
    NonRepeatersDone(store, VB - |rows|, Room(b, rows));
    ContinuesEnd(whole, rows);
    return true, rows;
  }

  lemma NonRepeatersAdvance(whole: Option<seq<Planned>>, rows: seq<Planned>, b: Books, store: seq<Handler>,
                            vbs: seq<ReqVb>, i: nat)
    requires i < |vbs| && |rows| <= VB && Room(b, rows) >= 0
    requires Continues(whole, rows, NonRepeaters(store, vbs[i..], VB - |rows|, Room(b, rows)))
    ensures var row := NonRepeaterRow(store, vbs[i], Room(b, rows));
            var ok := OidOk(row.oid) && |rows| < VB;
            && (!ok ==> whole == None)
            && (ok ==> Room(b, rows + [row]) >= 0
                       && Continues(whole, rows + [row],
                                    NonRepeaters(store, vbs[i + 1..], VB - |rows + [row]|, Room(b, rows + [row]))))
  {
    hide NonRepeaters, NonRepeaterRow, OidOk, Continues, Room, CostAll;
    var room, free: nat := VB - |rows|, Room(b, rows);
    var row := NonRepeaterRow(store, vbs[i], free);
    assert vbs[i..][0] == vbs[i] && vbs[i..][1..] == vbs[i + 1..];
    NonRepeatersUnfold(store, vbs[i..], room, free);
    ContinuesNone(whole, rows);
    if OidOk(row.oid) && room > 0 {
      RoomAfter(b, rows, [row]);
      ContinuesStep(whole, rows, [row], NonRepeaters(store, vbs[i..], room, free),
                    NonRepeaters(store, vbs[i + 1..], room - 1, free - Cost(row)));
    }
  }

  /** One round of the first loop of stageGetBulk. */
  method StageNonRepeater(pool: ASNPool, plan: ResponsePlan, callbacks: seq<ValueCallback>, buffer: array<byte>,
                          request: HeaderView, i: nat, ghost store: seq<Handler>, ghost vbs: seq<ReqVb>,
                          ghost b: Books, ghost rows: seq<Planned>)
    returns (ok: bool, ghost row: Planned)
    requires store == Snapshot(callbacks) && Balanced(pool, plan, b, rows, []) && Room(b, rows) >= 0
    requires i < |request.vbs| == |vbs| && Reads(buffer, request.vbs, vbs)
    modifies pool, pool.slots, plan, plan.varbinds
    ensures row == NonRepeaterRow(store, vbs[i], Room(b, rows))
    ensures ok == (OidOk(row.oid) && |rows| < VB)
    ensures Balanced(pool, plan, b, if ok then rows + [row] else rows, [])
  {
    hide Balanced, FindFrom, Room, Reads, ReadValue, OidOk, Names, GetRow, NonRepeaterRow;
    BalancedRoom(pool, plan, b, rows);
    var oid := NameAt(buffer, request, i, vbs);
    var found, _ := FindCallbackForSlice(callbacks, oid, true, 0, 0);
    var p := Planned(oid, None, ENDOFMIBVIEW, NO_ERROR);
    var value, slot := None, 0;
    if found.Some? {
      var callback := callbacks[found.value];
      SnapshotAt(callbacks, found.value);
      value, slot := GetValue(pool, plan, callback, b, rows);
      p := if value.None? then Planned(callback.oid, None, NULLTYPE, GEN_ERR) else Planned(oid, value, 0, NO_ERROR);
    }
    row := p;
    NonRepeaterRowIs(store, vbs[i], Room(b, rows), found, value);
    ok := AddRow(pool, plan, p, slot, b, rows);
  }

  method StageRepeaters(pool: ASNPool, plan: ResponsePlan, callbacks: seq<ValueCallback>, buffer: array<byte>,
                        request: HeaderView, n: nat, maxRepetitions: nat, ghost vbs: seq<ReqVb>, ghost b: Books,
                        ghost first: seq<Planned>)
    returns (ok: bool, ghost rows: seq<Planned>)
    requires Balanced(pool, plan, b, first, []) && n <= |request.vbs| == |vbs|
    requires Reads(buffer, request.vbs, vbs) && Apart(buffer, b, plan)
    modifies pool, pool.slots, plan, plan.varbinds
    ensures Balanced(pool, plan, b, first + rows, []) && Room(b, first) >= 0 && |first| <= VB
    ensures var r := Repeaters(Snapshot(callbacks), vbs[n..], maxRepetitions, VB - |first|, Room(b, first));
            ok == r.Some? && (ok ==> rows == r.value)
  {
    hide Balanced, Repeaters, Repeat, Continues, Room, Reads, CostAll;
    BalancedRoom(pool, plan, b, first);
    var i := n;
    rows := [];
    assert first + [] == first;
    ghost var store := Snapshot(callbacks);
    ghost var whole := Repeaters(store, vbs[n..], maxRepetitions, VB - |first|, Room(b, first));
    ContinuesStart(whole);
    while i < |request.vbs|
      invariant n <= i <= |request.vbs| && Snapshot(callbacks) == store && Reads(buffer, request.vbs, vbs)
      invariant pool.slots == b.slots && Balanced(pool, plan, b, first + rows, [])
      invariant |first + rows| <= VB && Room(b, first + rows) >= 0
      invariant Continues(whole, rows, Repeaters(store, vbs[i..], maxRepetitions, VB - |first + rows|,
                                                 Room(b, first + rows)))
    {
      ghost var all := first + rows;
      ghost var more;
      ok, more := StageRepeater(pool, plan, callbacks, buffer, request, i, maxRepetitions, vbs, b, all);
      assert all + more == first + (rows + more);
      if ok { BalancedRoom(pool, plan, b, all + more); }
      RepeatersAdvance(whole, rows, more, b, all, store, vbs, maxRepetitions, i);
      rows := rows + more;
      if !ok { return; }
      i := i + 1;
    }
    assert vbs[i..] == [];
    RepeatersDone(store, maxRepetitions, VB - |first + rows|, Room(b, first + rows));
    ContinuesEnd(whole, rows);
    return true, rows;
  }

  lemma RepeatersAdvance(whole: Option<seq<Planned>>, rows: seq<Planned>, more: seq<Planned>, b: Books,
                         all: seq<Planned>, store: seq<Handler>, vbs: seq<ReqVb>, reps: nat, i: nat)
    requires i < |vbs| && |all| <= VB && Room(b, all) >= 0
    requires Continues(whole, rows, Repeaters(store, vbs[i..], reps, VB - |all|, Room(b, all)))
    ensures var r := if OidOk(vbs[i].oid) then Repeat(store, vbs[i].oid, 0, reps, VB - |all|, Room(b, all)) else None;
            && (r.None? ==> whole == None)
            && (r == Some(more) && |all + more| <= VB && Room(b, all + more) >= 0 ==>
                  Continues(whole, rows + more,
                            Repeaters(store, vbs[i + 1..], reps, VB - |all + more|, Room(b, all + more))))
  {
    hide Repeaters, Repeat, OidOk, Continues, CostAll;
    var room, free: nat := VB - |all|, Room(b, all);
    assert vbs[i..][0] == vbs[i] && vbs[i..][1..] == vbs[i + 1..];
    RepeatersUnfold(store, vbs[i..], reps, room, free);
    ContinuesNone(whole, rows);
    RoomAfter(b, all, more);
    if |all + more| <= VB && Room(b, all + more) >= 0 && OidOk(vbs[i].oid)
       && Repeat(store, vbs[i].oid, 0, reps, room, free) == Some(more)
    {
      ContinuesStep(whole, rows, more, Repeaters(store, vbs[i..], reps, room, free),
                    Repeaters(store, vbs[i + 1..], reps, room - |more|, free - CostAll(more)));
    }
  }

  /** The inner loop of stageGetBulk. The cursor is a copy, never a slice of the request. */
  method StageRepeater(pool: ASNPool, plan: ResponsePlan, callbacks: seq<ValueCallback>, buffer: array<byte>,
                       request: HeaderView, i: nat, maxRepetitions: nat, ghost vbs: seq<ReqVb>, ghost b: Books,
                       ghost first: seq<Planned>)
    returns (ok: bool, ghost rows: seq<Planned>)
    requires Balanced(pool, plan, b, first, []) && Room(b, first) >= 0 && |first| <= VB
    requires i < |request.vbs| == |vbs| && Reads(buffer, request.vbs, vbs)
    modifies pool, pool.slots, plan, plan.varbinds
    ensures Balanced(pool, plan, b, first + rows, [])
    ensures var r := if OidOk(vbs[i].oid)
                     then Repeat(Snapshot(callbacks), vbs[i].oid, 0, maxRepetitions, VB - |first|, Room(b, first))
                     else None;
            ok == r.Some? && (ok ==> rows == r.value)
  {
    hide Balanced, FindFrom, Room, Reads, OidOk, Repeat, RepeatRow, Continues, Put, Cost, CostAll, Names;
    BalancedRoom(pool, plan, b, first);
    var cursor := NameAt(buffer, request, i, vbs);
    var foundAt := 0;
    rows := [];
    assert first + [] == first;
    if !OidOk(cursor) { return false, rows; }
    ghost var store := Snapshot(callbacks);
    ghost var whole := Repeat(store, cursor, 0, maxRepetitions, VB - |first|, Room(b, first));
    ContinuesStart(whole);
    var repetition := 0;
    while repetition < maxRepetitions
      invariant 0 <= repetition <= maxRepetitions && Snapshot(callbacks) == store && foundAt >= 0
      invariant pool.slots == b.slots && Balanced(pool, plan, b, first + rows, [])
      invariant |first + rows| <= VB && Room(b, first + rows) >= 0
      invariant Continues(whole, rows, Repeat(store, cursor, foundAt, maxRepetitions - repetition,
                                              VB - |first + rows|, Room(b, first + rows)))
    {
      ghost var all := first + rows;
      var end, found;
      ghost var row;
      ok, end, found, row := StageRepetition(pool, plan, callbacks, cursor, foundAt, store, b, all);
      RepeatAdvance(whole, rows, store, cursor, foundAt, maxRepetitions - repetition, VB - |all|, Room(b, all));
      assert all + [row] == first + (rows + [row]);
      if !ok { return; }
      if end { return true, rows + [row]; }
      BalancedRoom(pool, plan, b, all + [row]);
      RoomAfter(b, all, [row]);
      SnapshotAt(callbacks, found);
      cursor := callbacks[found].oid;
      foundAt := found;
      rows := rows + [row];
      repetition := repetition + 1;
    }
    RepeatDone(store, cursor, foundAt, VB - |first + rows|, Room(b, first + rows));
    ContinuesEnd(whole, rows);
    return true, rows;
  }

  /** What one more repetition means for the repeater as a whole. */
  lemma RepeatAdvance(whole: Option<seq<Planned>>, rows: seq<Planned>, store: seq<Handler>, cursor: bytes, foundAt: nat,
                      reps: nat, room: nat, free: nat)
    requires reps > 0 && Continues(whole, rows, Repeat(store, cursor, foundAt, reps, room, free))
    ensures var (row, end, i) := RepeatRow(store, cursor, foundAt, free);
            var ok := OidOk(row.oid) && room > 0;
            && (!ok ==> whole == None)
            && (ok && end ==> whole == Some(rows + [row]))
            && (ok && !end ==> Cost(row) == 1 && free > 0
                               && Continues(whole, rows + [row],
                                            Repeat(store, store[i].oid, i, reps - 1, room - 1, free - 1)))
  {
    hide OidOk, Repeat, RepeatRow, Continues;
    var (row, end, i) := RepeatRow(store, cursor, foundAt, free);
    var left := Repeat(store, cursor, foundAt, reps, room, free);
    RepeatUnfold(store, cursor, foundAt, reps, room, free);
    ContinuesNone(whole, rows);
    if OidOk(row.oid) && room > 0 {
      if end {
        ContinuesStep(whole, rows, [row], left, Some([]));
        ContinuesEnd(whole, rows + [row]);
      } else {
        ContinuesStep(whole, rows, [row], left, Repeat(store, store[i].oid, i, reps - 1, room - 1, free - 1));
      }
    }
  }

  lemma RepeatDone(store: seq<Handler>, cursor: bytes, foundAt: nat, room: nat, free: nat)
    ensures Repeat(store, cursor, foundAt, 0, room, free) == Some([])
  {}

  /** The row of one repetition, and whether it is the repeater's last. */
  function RepeatRow(store: seq<Handler>, cursor: bytes, foundAt: nat, free: nat): (r: (Planned, bool, nat))
    ensures r.2 < |store| || r.1
    ensures !r.1 ==> Cost(r.0) == 1 && free > 0
  {
    match FindFrom(Names(store), cursor, true, foundAt)
    case None => (EndRow(cursor), true, foundAt)
    case Some(i) =>
      match ReadValue(store[i], free)
      case None => (Planned(store[i].oid, None, NULLTYPE, GEN_ERR), true, i)
      case Some(p) => (Planned(store[i].oid, Some(p), 0, NO_ERROR), false, i)
  }

  lemma RepeatUnfold(store: seq<Handler>, cursor: bytes, foundAt: nat, reps: nat, room: nat, free: nat)
    requires reps > 0
    ensures var (row, end, i) := RepeatRow(store, cursor, foundAt, free);
            var ok := OidOk(row.oid) && room > 0;
            var r := Repeat(store, cursor, foundAt, reps, room, free);
            && (!ok ==> r == None) && (ok && end ==> r == Some([row] + []))
            && (ok && !end ==>
                  var rest := Repeat(store, store[i].oid, i, reps - 1, room - 1, free - 1);
                  r == if rest.None? then None else Some([row] + rest.value))
  {
    hide FindFrom, OidOk, ReadCell;
  }

  method StageRepetition(pool: ASNPool, plan: ResponsePlan, callbacks: seq<ValueCallback>, cursor: bytes, foundAt: nat,
                         ghost store: seq<Handler>, ghost b: Books, ghost rows: seq<Planned>)
    returns (ok: bool, end: bool, found: nat, ghost row: Planned)
    requires store == Snapshot(callbacks) && Balanced(pool, plan, b, rows, []) && Room(b, rows) >= 0
    modifies pool, pool.slots, plan, plan.varbinds
    ensures (row, end, found) == RepeatRow(store, cursor, foundAt, Room(b, rows))
    ensures ok == (OidOk(row.oid) && |rows| < VB)
    ensures Balanced(pool, plan, b, if ok then rows + [row] else rows, [])
  {
    hide Balanced, FindFrom, Room, OidOk;
    BalancedRoom(pool, plan, b, rows);
    var callback;
    callback, found := FindCallbackForSlice(callbacks, cursor, true, foundAt, foundAt);
    var p := Planned(cursor, None, ENDOFMIBVIEW, NO_ERROR);
    var slot := 0;
    end := true;
    if callback.Some? {
      var value;
      SnapshotAt(callbacks, callback.value);
      value, slot := GetValue(pool, plan, callbacks[callback.value], b, rows);
      var oid := callbacks[callback.value].oid;
      end := value.None?;
      p := if value.None? then Planned(oid, None, NULLTYPE, GEN_ERR) else Planned(oid, value, 0, NO_ERROR);
    }
    row := p;
    ok := AddRow(pool, plan, p, slot, b, rows);
  }

  // -------------------------------------------------------------------- SET

  method StageSet(pool: ASNPool, plan: ResponsePlan, callbacks: seq<ValueCallback>, buffer: array<byte>,
                  request: HeaderView, values: seq<Value>, memory: Memory, ghost vbs: seq<ReqVb>, ghost b: Books)
    returns (ok: bool, ghost rows: seq<Planned>)
    requires Balanced(pool, plan, b, [], []) && |values| == |vbs| && Typed(vbs, values)
    requires Reads(buffer, request.vbs, vbs) && |request.vbs| == |vbs| && Apart(buffer, b, plan)
    requires Distinct(callbacks) && StoreOk(Snapshot(callbacks))
    modifies pool, pool.slots, plan, plan.varbinds, callbacks
    ensures Balanced(pool, plan, b, rows, []) && Room(b, []) >= 0
    ensures var r := Sets(old(Snapshot(callbacks)), request.version, vbs, values, memory, 0, VB, Room(b, []));
            ok == r.0.Some? && (ok ==> rows == r.0.value) && Snapshot(callbacks) == r.1
  {
    hide Balanced, Sets, SetRow, OidOk, Continues, Room, Reads, StoreOk, Typed, TypedOne, Distinct, CostAll, HandlerOk;
    BalancedRoom(pool, plan, b, []);
    var i := 0;
    rows := [];
    ghost var store := Snapshot(callbacks);
    ghost var whole := Sets(store, request.version, vbs, values, memory, 0, VB, Room(b, []));
    ContinuesStart(whole.0);
    assert vbs[0..] == vbs && values[0..] == values;
    while i < |request.vbs|
      invariant 0 <= i <= |request.vbs| == |vbs| == |values|
      invariant store == Snapshot(callbacks) && StoreOk(store) && Reads(buffer, request.vbs, vbs)
      invariant pool.slots == b.slots && Balanced(pool, plan, b, rows, []) && |rows| <= VB && Room(b, rows) >= 0
      invariant var left := Sets(store, request.version, vbs[i..], values[i..], memory, i, VB - |rows|, Room(b, rows));
                Continues(whole.0, rows, left.0) && whole.1 == left.1
    {
      ghost var row;
      TypedAt(vbs, values, i);
      ok, row := StageSetOne(pool, plan, callbacks, buffer, request, i, values[i], memory(i), store, vbs, b, rows);
      SetsAdvance(whole, rows, b, store, request.version, vbs, values, memory, i);
      store := Snapshot(callbacks);
      if !ok { return; }
      BalancedRoom(pool, plan, b, rows + [row]);
      rows := rows + [row];
      i := i + 1;
    }
    assert vbs[i..] == [] && values[i..] == [];
    SetsDone(store, request.version, memory, i, VB - |rows|, Room(b, rows));
    ContinuesEnd(whole.0, rows);
    return true, rows;
  }

  lemma SetsAdvance(whole: (Option<seq<Planned>>, seq<Handler>), rows: seq<Planned>, b: Books, store: seq<Handler>,
                    version: int, vbs: seq<ReqVb>, values: seq<Value>, memory: Memory, i: nat)
    requires i < |vbs| == |values| && |rows| <= VB && Room(b, rows) >= 0
    requires var left := Sets(store, version, vbs[i..], values[i..], memory, i, VB - |rows|, Room(b, rows));
             Continues(whole.0, rows, left.0) && whole.1 == left.1
    ensures var (row, next) := SetRow(store, version, vbs[i], values[i], memory(i), Room(b, rows));
            var ok := OidOk(row.oid) && |rows| < VB;
            && (!ok ==> whole == (None, next))
            && (ok ==> Room(b, rows + [row]) >= 0
                       && var left := Sets(next, version, vbs[i + 1..], values[i + 1..], memory, i + 1,
                                           VB - |rows + [row]|, Room(b, rows + [row]));
                          Continues(whole.0, rows + [row], left.0) && whole.1 == left.1)
  {
    hide Sets, SetRow, OidOk, Continues, Room, CostAll;
    var room, free: nat := VB - |rows|, Room(b, rows);
    var (row, next) := SetRow(store, version, vbs[i], values[i], memory(i), free);
    assert vbs[i..][0] == vbs[i] && vbs[i..][1..] == vbs[i + 1..];
    assert values[i..][0] == values[i] && values[i..][1..] == values[i + 1..];
    SetsUnfold(store, version, vbs[i..], values[i..], memory, i, room, free);
    ContinuesNone(whole.0, rows);
    if OidOk(row.oid) && room > 0 {
      RoomAfter(b, rows, [row]);
      ContinuesStep(whole.0, rows, [row], Sets(store, version, vbs[i..], values[i..], memory, i, room, free).0,
                    Sets(next, version, vbs[i + 1..], values[i + 1..], memory, i + 1, room - 1, free - Cost(row)).0);
    }
  }

  lemma TypedAt(vbs: seq<ReqVb>, values: seq<Value>, i: nat)
    requires Typed(vbs, values) && i < |vbs|
    ensures |values| == |vbs| && TypedOne(vbs[i], values[i])
  {}

  /** One round of the loop of stageSet. */
  method StageSetOne(pool: ASNPool, plan: ResponsePlan, callbacks: seq<ValueCallback>, buffer: array<byte>,
                     request: HeaderView, i: nat, value: Value, rest: Residue, ghost store: seq<Handler>,
                     ghost vbs: seq<ReqVb>, ghost b: Books, ghost rows: seq<Planned>)
    returns (ok: bool, ghost row: Planned)
    requires store == Snapshot(callbacks) && StoreOk(store) && Distinct(callbacks)
    requires Balanced(pool, plan, b, rows, []) && Room(b, rows) >= 0
    requires i < |request.vbs| == |vbs| && Reads(buffer, request.vbs, vbs) && TypedOne(vbs[i], value)
    modifies pool, pool.slots, plan, plan.varbinds, callbacks
    ensures (row, Snapshot(callbacks)) == SetRow(store, request.version, vbs[i], value, rest, Room(b, rows))
    ensures StoreOk(Snapshot(callbacks)) && (ok == (OidOk(row.oid) && |rows| < VB))
    ensures Balanced(pool, plan, b, if ok then rows + [row] else rows, [])
  {
    hide Balanced, Room, Reads, OidOk, SetRow, StoreOk, Distinct, TypedOne;
    BalancedRoom(pool, plan, b, rows);
    var p, slot := SetAndRead(pool, plan, callbacks, buffer, request, i, value, rest, store, vbs, b, rows);
    row := p;
    ok := AddRow(pool, plan, p, slot, b, rows);
  }

  /** The row a SET of one varbind leads to. */
  method SetAndRead(pool: ASNPool, plan: ResponsePlan, callbacks: seq<ValueCallback>, buffer: array<byte>,
                    request: HeaderView, i: nat, value: Value, rest: Residue, ghost store: seq<Handler>,
                    ghost vbs: seq<ReqVb>, ghost b: Books, ghost rows: seq<Planned>)
    returns (p: Planned, slot: nat)
    requires store == Snapshot(callbacks) && StoreOk(store) && Distinct(callbacks)
    requires Balanced(pool, plan, b, rows, []) && Room(b, rows) >= 0
    requires i < |request.vbs| == |vbs| && Reads(buffer, request.vbs, vbs) && TypedOne(vbs[i], value)
    modifies pool, pool.slots, callbacks
    ensures pool.slots == old(pool.slots)
    ensures (p, Snapshot(callbacks)) == SetRow(store, request.version, vbs[i], value, rest, Room(b, rows))
    ensures StoreOk(Snapshot(callbacks))
    ensures Balanced(pool, plan, b, rows, SlotOf(PlannedVarBind(p, slot)))
  {
    hide Balanced, FindFrom, Room, Reads, StoreOk, Distinct, ChangeRow, Names, ForVersion, ForVersionElse;
    BalancedRoom(pool, plan, b, rows);
    var oid := NameAt(buffer, request, i, vbs);
    var tag := TagAt(buffer, request, i, vbs);
    var version := request.version;
    var found, _ := FindCallbackForSlice(callbacks, oid, false, 0, 0);
    p, slot := Planned(oid, None, NULLTYPE, NO_ERROR), 0;
    if found.None? {
      p := p.(error := ForVersionElse(NOT_WRITABLE, version, NO_SUCH_NAME));
      return;
    }
    var callback := callbacks[found.value];
    SnapshotAt(callbacks, found.value);
    if callback.htype != tag {
      p := p.(error := ForVersionElse(WRONG_TYPE, version, BAD_VALUE));
      return;
    }
    if !callback.isSettable {
      p := p.(error := ForVersion(READ_ONLY, version));
      return;
    }
    OkAt(store, found.value);
    p, slot := ChangeAndRead(pool, plan, callbacks, found.value, value.p, rest, version, store, b, rows);
  }

  method ChangeAndRead(pool: ASNPool, plan: ResponsePlan, callbacks: seq<ValueCallback>, k: nat, v: Prim, rest: Residue,
                       version: int, ghost store: seq<Handler>, ghost b: Books, ghost rows: seq<Planned>)
    returns (p: Planned, slot: nat)
    requires store == Snapshot(callbacks) && StoreOk(store) && Distinct(callbacks)
    requires k < |callbacks| && PrimOk(v) && PrimTag(v) == callbacks[k].htype
    requires Balanced(pool, plan, b, rows, []) && Room(b, rows) >= 0
    modifies pool, pool.slots, callbacks
    ensures pool.slots == old(pool.slots)
    ensures (p, Snapshot(callbacks)) == ChangeRow(store, version, k, v, rest, Room(b, rows))
    ensures StoreOk(Snapshot(callbacks))
    ensures Balanced(pool, plan, b, rows, SlotOf(PlannedVarBind(p, slot)))
  {
    hide Balanced, Room, SetHandler, StoreOk, Distinct, ReadValue, ForVersion;
    BalancedRoom(pool, plan, b, rows);
    var callback := callbacks[k];
    p, slot := Planned(callback.oid, None, NULLTYPE, NO_ERROR), 0;
    SnapshotAt(callbacks, k);
    var status := SetCallback(callbacks, k, v, rest, store);
    if status != NO_ERROR {
      p := p.(error := ForVersion(status, version));
      return;
    }
    var current;
    current, slot := GetValue(pool, plan, callback, b, rows);
    p := if current.None? then p.(error := ForVersion(GEN_ERR, version)) else p.(value := current, nullTag := 0);
  }

  method TagAt(buffer: array<byte>, request: HeaderView, i: nat, ghost vbs: seq<ReqVb>) returns (tag: byte)
    requires i < |request.vbs| && Reads(buffer, request.vbs, vbs)
    ensures tag == vbs[i].tag
  {
    assert ReadsOne(buffer, request.vbs[i], vbs[i]);
    tag := request.vbs[i].valueType;
  }

  // ------------------------------------------------------------ decode pass

  /** decodeRequestValues: every value of the request through its container's fromBuffer, one pool
      tree each. What was decoded before a failure stays with the caller. */
  method DecodeRequestValues(pool: ASNPool, buffer: array<byte>, request: HeaderView, ghost vbs: seq<ReqVb>,
                             ghost base: set<nat>, ghost used: nat)
    returns (ok: bool, values: seq<Value>, owners: seq<Owner>)
    requires pool.Holds(base, used, []) && used <= pool.slots.Length && buffer as object != pool.slots
    requires Reads(buffer, request.vbs, vbs) && |request.vbs| == |vbs|
    modifies pool, pool.slots
    ensures pool.slots == old(pool.slots) && pool.doubleReleaseAlarms == old(pool.doubleReleaseAlarms)
    ensures pool.Holds(base, used, FlatAll(owners))
    ensures AllPrim(vbs) ==> pool.usedCountPeak <= Max(old(pool.usedCountPeak), used + |vbs|)
    ensures var r := DecodeValues(vbs, pool.slots.Length - used);
            ok == r.Some? && (ok ==> values == r.value && |FlatAll(owners)| == NodesAll(values))
  {
    hide ASNPool.Holds, Reads, DecodeValues, Continues, FlatAll, NodesAll;
    values, owners := [], [];
    var i := 0;
    ghost var free: nat := pool.slots.Length - used;
    ghost var whole := DecodeValues(vbs, free);
    ContinuesStart(whole);
    assert vbs[0..] == vbs;
    ContainerPool.NoOwners([]);
    assert [] + FlatAll([]) == [];
    while i < |request.vbs|
      invariant 0 <= i <= |request.vbs| == |vbs| && Reads(buffer, request.vbs, vbs)
      invariant pool.slots == old(pool.slots) && pool.doubleReleaseAlarms == old(pool.doubleReleaseAlarms)
      invariant pool.Holds(base, used, FlatAll(owners)) && |FlatAll(owners)| == NodesAll(values) <= free
      invariant AllPrim(vbs) ==>
                  NodesAll(values) == i && pool.usedCountPeak <= Max(old(pool.usedCountPeak), used + |vbs|)
      invariant Continues(whole, values, DecodeValues(vbs[i..], free - NodesAll(values)))
    {
      ghost var budget: nat := free - NodesAll(values);
      var value, owner;
      ok, value, owner := DecodeOne(pool, buffer, request, i, vbs, base, used, FlatAll(owners));
      DecodeAdvance(whole, values, vbs, i, budget);
      if !ok { return; }
      ContainerPool.FlatAppend(owners, owner);
      ContainerPool.NodesAppend(values, value);
      values := values + [value];
      owners := owners + [owner];
      i := i + 1;
    }
    assert vbs[i..] == [];
    NoValues(free - NodesAll(values));
    ContinuesEnd(whole, values);
    return true, values, owners;
  }

  lemma DecodeAdvance(whole: Option<seq<Value>>, values: seq<Value>, vbs: seq<ReqVb>, i: nat, free: nat)
    requires i < |vbs| && Continues(whole, values, DecodeValues(vbs[i..], free))
    ensures var r := DecodeValue(vbs[i], free);
            && (r.None? ==> whole == None)
            && (r.Some? ==> Continues(whole, values + [r.value], DecodeValues(vbs[i + 1..], free - Nodes(r.value))))
  {
    hide DecodeValue, DecodeValues, Continues;
    assert vbs[i..][0] == vbs[i] && vbs[i..][1..] == vbs[i + 1..];
    DecodeUnfold(vbs[i..], free);
    ContinuesNone(whole, values);
    var r := DecodeValue(vbs[i], free);
    if r.Some? {
      ContinuesStep(whole, values, [r.value], DecodeValues(vbs[i..], free),
                    DecodeValues(vbs[i + 1..], free - Nodes(r.value)));
    }
  }

  /** One round of that loop. */
  method DecodeOne(pool: ASNPool, buffer: array<byte>, request: HeaderView, i: nat, ghost vbs: seq<ReqVb>,
                   ghost base: set<nat>, ghost used: nat, ghost held: seq<nat>)
    returns (ok: bool, value: Value, owner: Owner)
    requires pool.Holds(base, used, held) && used + |held| <= pool.slots.Length
    requires i < |request.vbs| == |vbs| && Reads(buffer, request.vbs, vbs)
    modifies pool, pool.slots
    ensures pool.slots == old(pool.slots) && pool.doubleReleaseAlarms == old(pool.doubleReleaseAlarms)
    ensures IsPrimTag(vbs[i].tag) ==> pool.usedCountPeak <= Max(old(pool.usedCountPeak), used + |held| + 1)
    ensures var r := DecodeValue(vbs[i], pool.slots.Length - used - |held|);
            ok == r.Some? && (ok ==> value == r.value && |Flat(owner)| == Nodes(value))
    ensures pool.Holds(base, used, if ok then held + Flat(owner) else held)
    ensures ok && IsPrimTag(vbs[i].tag) ==> Nodes(value) == 1
  {
    hide ASNPool.Holds, Reads, Decode;
    value, owner := Complex(STRUCTURE, []), Owner(0, []);
    var oid := NameAt(buffer, request, i, vbs);
    var tag := TagAt(buffer, request, i, vbs);
    var tlv := TlvAt(buffer, request, i, vbs);
    if |oid| > OID_DATA || oid == [] || oid[0] != 0x2b || tlv == [] { return false, value, owner; }
    if !IsPrimTag(tag) && !IsComplexTag(tag) { return false, value, owner; }
    var raw := pool.New(tag, base, used, held);
    if raw.None? { return false, value, owner; }
    var n, kids;
    n, value, kids := ContainerPool.FromBuffer(pool, tag, tlv, base, used, held + [raw.value]);
    owner := Owner(raw.value, kids);
    assert held + [raw.value] + FlatAll(kids) == held + Flat(owner) + [] == held + Flat(owner);
    ok := n > 0 && n == |tlv|;
    if !ok {
      pool.DeleteTree(owner, base, used, held, []);
      assert held + [] == held;
    } else if IsPrimTag(tag) {
      assert Nodes(value) == 1 + |FlatAll(kids)|;
    }
  }

  method TlvAt(buffer: array<byte>, request: HeaderView, i: nat, ghost vbs: seq<ReqVb>) returns (tlv: bytes)
    requires i < |request.vbs| && Reads(buffer, request.vbs, vbs)
    ensures tlv == vbs[i].tlv
  {
    assert ReadsOne(buffer, request.vbs[i], vbs[i]);
    var s := request.vbs[i].tlv;
    tlv := buffer[s.at..s.at + s.len];
    assert tlv == s.Of(buffer[..]);
  }

  // ------------------------------------------------------------- destruction

  /** The destructor of decoded[]: the last tree first. */
  method DropValues(pool: ASNPool, owners: seq<Owner>, ghost base: set<nat>, ghost used: nat)
    requires pool.Holds(base, used, FlatAll(owners))
    modifies pool, pool.slots
    ensures pool.slots == old(pool.slots) && pool.Holds(base, used, [])
    ensures pool.usedCountPeak == old(pool.usedCountPeak) && pool.doubleReleaseAlarms == old(pool.doubleReleaseAlarms)
  {
    hide ASNPool.Holds, FlatAll;
    var i := |owners|;
    assert owners[..i] == owners;
    while i > 0
      invariant 0 <= i <= |owners| && pool.slots == old(pool.slots) && pool.Holds(base, used, FlatAll(owners[..i]))
      invariant pool.usedCountPeak == old(pool.usedCountPeak)
                && pool.doubleReleaseAlarms == old(pool.doubleReleaseAlarms)
    {
      i := i - 1;
      ContainerPool.FlatAppend(owners[..i], owners[i]);
      assert owners[..i + 1] == owners[..i] + [owners[i]];
      ghost var pre := FlatAll(owners[..i]);
      assert pre + Flat(owners[i]) + [] == pre + Flat(owners[i]) && pre + [] == pre;
      pool.DeleteTree(owners[i], base, used, pre, []);
    }
    ContainerPool.NoOwners([]);
    assert owners[..0] == [];
  }

  lemma NoSlots()
    ensures SlotsOf([]) == []
  {}

  lemma SlotsLast(vs: seq<PlannedVarBind>, i: nat)
    requires i < |vs|
    ensures SlotsOf(vs[..i + 1]) == SlotsOf(vs[..i]) + SlotOf(vs[i])
  {
    assert vs[..i + 1][..i] == vs[..i];
  }

  /** The destructor of the plan. */
  method DropPlan(pool: ASNPool, plan: ResponsePlan, ghost b: Books, ghost rows: seq<Planned>)
    requires Balanced(pool, plan, b, rows, []) && b.slots as object != plan.varbinds
    modifies pool, pool.slots
    ensures pool.slots == old(pool.slots) && pool.Holds(b.base, b.used, b.owned)
    ensures pool.usedCountPeak == old(pool.usedCountPeak) && pool.doubleReleaseAlarms == old(pool.doubleReleaseAlarms)
  {
    hide ASNPool.Holds, LastError, SlotsOf;
    NoSlots();
    var i := plan.count;
    ghost var vs := plan.varbinds[..plan.count];
    assert vs[..i] == vs && b.owned + SlotsOf(vs) + [] == b.owned + SlotsOf(vs);
    while i > 0
      invariant 0 <= i <= |vs| <= plan.varbinds.Length && vs == plan.varbinds[..|vs|] && pool.slots == old(pool.slots)
      invariant pool.Holds(b.base, b.used, b.owned + SlotsOf(vs[..i]))
      invariant pool.usedCountPeak == old(pool.usedCountPeak)
                && pool.doubleReleaseAlarms == old(pool.doubleReleaseAlarms)
    {
      i := i - 1;
      SlotsLast(vs, i);
      assert vs[i] == plan.varbinds[i];
      ghost var pre := b.owned + SlotsOf(vs[..i]);
      if plan.varbinds[i].row.value.Some? {
        var slot := plan.varbinds[i].slot;
        assert b.owned + SlotsOf(vs[..i + 1]) == pre + [slot] + [] && pre + [] == pre;
        pool.Delete(slot, b.base, b.used, pre, []);
      } else {
        assert b.owned + SlotsOf(vs[..i + 1]) == pre;
      }
    }
    assert b.owned + SlotsOf(vs[..0]) == b.owned;
  }
}
