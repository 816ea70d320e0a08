/** The classic engine's own code: a packet object filled by the parsing state machine, handlers that
    append to a fixed array, and a response built as a tree and serialised over the request buffer. */
module ClassicEngine {
  import opened Bytes
  import opened Ber
  import opened Caps
  import opened Containers
  import opened BerView
  import opened Roster
  import opened Handling
  import opened PlanFacts
  import opened Classic
  import opened Pool
  import ContainerPool

  class SNMPPacket {
    var snmpVersion: int
    var communityString: bytes
    var packetPDUType: byte
    var requestID: int
    var errorStatus: int
    var errorIndex: int
    const varbindList: array<VarBind>
    var varbindCount: nat

    ghost predicate Valid()
      reads this
    {
      varbindList.Length == VB && varbindCount <= VB
    }

    ghost function Abs(): Packet
      requires Valid()
      reads this, varbindList
    {
      Packet(snmpVersion, communityString, packetPDUType, requestID, errorStatus, errorIndex,
             varbindList[..varbindCount])
    }

    constructor ()
      ensures Valid() && fresh(varbindList) && Abs() == EMPTY_PACKET
    {
      snmpVersion, communityString, packetPDUType, requestID, errorStatus, errorIndex := 0, [], 0, 0, 0, 0;
      varbindList := new VarBind[VB](_ => VarBind([], PNull(NULLTYPE), NO_ERROR));
      varbindCount := 0;
    }

    /** SNMPResponse(request): the header is copied, errors and varbinds are not. */
    constructor Response(version: int, community: bytes, requestID: int)
      ensures Valid() && fresh(varbindList)
      ensures Abs() == Packet(version, community, GET_RESPONSE, requestID, NO_ERROR, 0, [])
    {
      snmpVersion, communityString, packetPDUType := version, community, GET_RESPONSE;
      this.requestID, errorStatus, errorIndex := requestID, NO_ERROR, 0;
      varbindList := new VarBind[VB](_ => VarBind([], PNull(NULLTYPE), NO_ERROR));
      varbindCount := 0;
    }

    method EmplaceBack(vb: VarBind) returns (ok: bool)
      requires Valid()
      modifies this`varbindCount, varbindList
      ensures Valid() && ok == (old(varbindCount) < VB)
      ensures Abs() == if ok then old(Abs()).(varbinds := old(Abs()).varbinds + [vb]) else old(Abs())
    {
      if varbindCount >= VB { return false; }
      varbindList[varbindCount] := vb;
      varbindCount := varbindCount + 1;
      return true;
    }

    method PopBack()
      requires Valid()
      modifies this`varbindCount, varbindList
      ensures Valid()
      ensures Abs().varbinds == if old(varbindCount) == 0 then [] else old(Abs()).varbinds[..old(varbindCount) - 1]
    {
      if varbindCount > 0 {
        varbindCount := varbindCount - 1;
        varbindList[varbindCount] := VarBind([], PNull(NULLTYPE), NO_ERROR);
      }
    }

    method Clear()
      requires Valid()
      modifies this`varbindCount, varbindList
      ensures Valid() && Abs() == old(Abs()).(varbinds := [])
    {
      while varbindCount > 0
        invariant Valid() && Abs().(varbinds := []) == old(Abs()).(varbinds := [])
        decreases varbindCount
      {
        varbindCount := varbindCount - 1;
        varbindList[varbindCount] := VarBind([], PNull(NULLTYPE), NO_ERROR);
      }
    }

    /** parsePacket: one state variable advanced over the children, structures entered recursively. */
    method ParsePacket(values: seq<Value>, start: ParsingState) returns (ok: bool)
      requires Valid()
      modifies this, varbindList
      ensures Valid()
      ensures var r := Parse(values, start, old(Abs())); ok == r.Some? && (ok ==> Abs() == r.value)
      decreases values
    {
      var state := start;
      var n := 0;
      assert values[0..] == values;
      while n < |values|
        invariant 0 <= n <= |values| && Valid()
        invariant Parse(values, start, old(Abs())) == Parse(values[n..], state, Abs())
      {
        var value := values[n];
        ghost var p := Abs();
        assert values[n..][0] == value && values[n..][1..] == values[n + 1..];
        match state {
          case SNMPVERSION =>
            if !IsInteger(value) || value.p.v < 0 || value.p.v >= 2 { return false; }
            snmpVersion := value.p.v;
            state := COMMUNITY_STRING;
          case COMMUNITY_STRING =>
            if !(value.Simple? && value.p.POctets?) { return false; }
            communityString := value.p.s;
            state := PDU;
          case PDU =>
            if !(value.Complex? && IsPduTag(value.ctag)) { return false; }
            packetPDUType := value.ctag;
            ok := ParsePacket(value.kids, REQUESTID);
            return;
          case REQUESTID =>
            if !IsInteger(value) { return false; }
            requestID := value.p.v;
            state := ERRORSTATUS;
          case ERRORSTATUS =>
            if !IsInteger(value) { return false; }
            errorStatus := value.p.v;
            state := ERRORID;
          case ERRORID =>
            if !IsInteger(value) { return false; }
            errorIndex := value.p.v;
            state := VARBINDS;
          case VARBINDS =>
            if !(value.Complex? && value.ctag == STRUCTURE) { return false; }
            ok := ParsePacket(value.kids, VARBIND);
            return;
          case VARBIND =>
            if !IsVarBind(value) { return false; }
            var added := EmplaceBack(VarBind(value.kids[0].p.s, Clone(value.kids[1]), NO_ERROR));
            if !added { return false; }
        }
        n := n + 1;
      }
      assert values[n..] == [];
      return true;
    }

    /** Takes over the error even when the list is full and the row is dropped. */
    method AddErrorResponse(response: VarBind)
      requires Valid()
      modifies this, varbindList
      ensures Valid()
      ensures Abs() == var p := old(Abs()).(varbinds := Append(old(Abs()).varbinds, response));
                       if response.error != NO_ERROR
                       then p.(errorStatus := response.error, errorIndex := old(varbindCount) + 1) else p
    {
      var index := varbindCount + 1;
      var ok := EmplaceBack(response);
      if response.error != NO_ERROR {
        errorStatus := response.error;
        errorIndex := index;
      }
    }

    method AddResponse(response: VarBind)
      requires Valid()
      modifies this, varbindList
      ensures Valid() && Abs() == old(Abs()).(varbinds := Append(old(Abs()).varbinds, response))
    {
      var ok := EmplaceBack(response);
    }

    method SetGlobalError(error: int, index: int, overwrite: bool)
      requires Valid()
      modifies this
      ensures Valid()
      ensures Abs() == if old(errorStatus) == NO_ERROR || overwrite
                       then old(Abs()).(errorStatus := error, errorIndex := index) else old(Abs())
    {
      if errorStatus == NO_ERROR || (errorStatus != NO_ERROR && overwrite) {
        errorStatus := error;
        errorIndex := index;
      }
    }

    /** build: the envelope and the varbind list as a tree. */
    method Build() returns (tree: Value)
      requires Valid()
      ensures tree == Complex(STRUCTURE, [IntValue(snmpVersion), Simple(POctets(communityString)),
                                          PduTree(packetPDUType, requestID, errorStatus, errorIndex, Abs().varbinds)])
    {
      hide BindValues, Kept;
      var list: seq<Value> := [];
      var vbIdx := 0;
      ghost var rows := varbindList[..varbindCount];
      NoBindValues(rows);
      while vbIdx < varbindCount
        invariant 0 <= vbIdx <= varbindCount && list == BindValues(Kept(rows[..vbIdx]))
      {
        BindValuesNext(rows, vbIdx);
        list := AddValueToList(list, BindValue(varbindList[vbIdx]));
        vbIdx := vbIdx + 1;
      }
      assert rows[..vbIdx] == rows;
      return Complex(STRUCTURE, [IntValue(snmpVersion), Simple(POctets(communityString)),
                                 Complex(packetPDUType, [IntValue(requestID), IntValue(errorStatus),
                                                         IntValue(errorIndex), Complex(STRUCTURE, list)])]);
    }
  }

  /** addValueToListRaw: a full list drops the child. */
  function AddValueToList(list: seq<Value>, v: Value): seq<Value> { if |list| >= CHILDREN then list else list + [v] }

  lemma NoBindValues(rows: seq<VarBind>)
    ensures BindValues(Kept(rows[..0])) == []
  {}

  lemma BindValuesNext(rows: seq<VarBind>, i: nat)
    requires i < |rows|
    ensures BindValues(Kept(rows[..i + 1])) == AddValueToList(BindValues(Kept(rows[..i])), BindValue(rows[i]))
  {
    var a, b := Kept(rows[..i + 1]), Kept(rows[..i]);
    if i < CHILDREN {
      assert a == b + [rows[i]];
    } else {
      assert a == b;
    }
  }

  // --------------------------------------------------------------- handlers

  method AppendResponseVarBind(out: array<VarBind>, count: nat, row: VarBind) returns (ok: bool, count': nat)
    requires out.Length == VB && count <= VB
    modifies out
    ensures ok == (count < VB) && count' <= VB && out[..count'] == Append(old(out[..count]), row)
  {
    if count >= VB { return false, count; }
    out[count] := row;
    return true, count + 1;
  }

  method HandleGetRequestPDU(callbacks: seq<ValueCallback>, varbinds: seq<VarBind>, out: array<VarBind>, version: int,
                             isGetNext: bool)
    returns (count: nat)
    requires out.Length == VB
    modifies out
    ensures count <= VB && out[..count] == HandleGet(Snapshot(callbacks), version, varbinds, isGetNext, [])
  {
    hide FindFrom, ReadCell, Append, ForVersion;
    count := 0;
    var i := 0;
    ghost var store := Snapshot(callbacks);
    assert varbinds[0..] == varbinds;
    while i < |varbinds|
      invariant 0 <= i <= |varbinds| && count <= VB && Snapshot(callbacks) == store
      invariant HandleGet(store, version, varbinds, isGetNext, []) ==
                HandleGet(store, version, varbinds[i..], isGetNext, out[..count])
    {
      var vb := varbinds[i];
      var found, _ := FindCallback(callbacks, vb.oid, isGetNext, 0, 0);
      var row := VarBind(vb.oid, PNull(if isGetNext then ENDOFMIBVIEW else NOSUCHOBJECT), NO_ERROR);
      if found.Some? {
        var callback := callbacks[found.value];
        SnapshotAt(callbacks, found.value);
        var value := ReadCell(callback.State());
        row := if value.None? then VarBind(callback.oid, PNull(NULLTYPE), ForVersion(GEN_ERR, version))
               else VarBind(callback.oid, value.value, NO_ERROR);
      }
      assert row == GetBind(store, version, vb, isGetNext);
      assert varbinds[i..][0] == vb && varbinds[i..][1..] == varbinds[i + 1..];
      var _, next := AppendResponseVarBind(out, count, row);
      count := next;
      i := i + 1;
    }
    assert varbinds[i..] == [];
  }

  method HandleSetRequestPDU(callbacks: seq<ValueCallback>, varbinds: seq<VarBind>, memory: Memory, out: array<VarBind>,
                             version: int)
    returns (count: nat)
    requires out.Length == VB && Distinct(callbacks) && StoreOk(Snapshot(callbacks)) && BindsOk(varbinds)
    modifies out, callbacks
    ensures count <= VB
    ensures (out[..count], Snapshot(callbacks)) == HandleSet(old(Snapshot(callbacks)), version, varbinds, memory, 0, [])
  {
    hide HandleSet, FindFrom, ReadCell, Append, ForVersion, SetBind, StoreOk, BindsOk, Distinct;
    count := 0;
    var i := 0;
    assert varbinds[0..] == varbinds;
    ghost var store := Snapshot(callbacks);
    while i < |varbinds|
      invariant 0 <= i <= |varbinds| && count <= VB && StoreOk(Snapshot(callbacks))
      invariant HandleSet(store, version, varbinds, memory, 0, []) ==
                HandleSet(Snapshot(callbacks), version, varbinds[i..], memory, i, out[..count])
    {
      BindOkAt(varbinds, i);
      SetUnfold(Snapshot(callbacks), version, varbinds[i..], memory, i, out[..count]);
      var row := SetOne(callbacks, varbinds[i], memory(i), version);
      assert varbinds[i..][0] == varbinds[i] && varbinds[i..][1..] == varbinds[i + 1..];
      var _, next := AppendResponseVarBind(out, count, row);
      count := next;
      i := i + 1;
    }
    assert varbinds[i..] == [];
    SetDone(Snapshot(callbacks), version, memory, i, out[..count]);
  }

  lemma SetDone(store: seq<Handler>, version: int, memory: Memory, at: nat, out: seq<VarBind>)
    ensures HandleSet(store, version, [], memory, at, out) == (out, store)
  {}

  lemma SetUnfold(store: seq<Handler>, version: int, vbs: seq<VarBind>, memory: Memory, at: nat, out: seq<VarBind>)
    requires vbs != []
    ensures var (row, next) := SetBind(store, version, vbs[0], memory(at));
            HandleSet(store, version, vbs, memory, at, out) ==
            HandleSet(next, version, vbs[1..], memory, at + 1, Append(out, row))
  {
    hide SetBind, Append;
  }

  predicate BindsOk(vbs: seq<VarBind>) { forall i :: 0 <= i < |vbs| ==> PrimOk(vbs[i].value) }

  lemma BindOkAt(vbs: seq<VarBind>, i: nat)
    requires BindsOk(vbs) && i < |vbs|
    ensures PrimOk(vbs[i].value)
  {}

  method SetOne(callbacks: seq<ValueCallback>, vb: VarBind, rest: Residue, version: int) returns (row: VarBind)
    requires Distinct(callbacks) && StoreOk(Snapshot(callbacks)) && PrimOk(vb.value)
    modifies callbacks
    ensures (row, Snapshot(callbacks)) == SetBind(old(Snapshot(callbacks)), version, vb, rest)
    ensures StoreOk(Snapshot(callbacks))
  {
    hide FindFrom, ReadCell, ForVersion, ForVersionElse, StoreOk, Distinct, SetHandler, Names;
    ghost var store := Snapshot(callbacks);
    var found, _ := FindCallback(callbacks, vb.oid, false, 0, 0);
    row := VarBind(vb.oid, PNull(NULLTYPE), ForVersionElse(NOT_WRITABLE, version, NO_SUCH_NAME));
    if found.None? { return; }
    var callback := callbacks[found.value];
    SnapshotAt(callbacks, found.value);
    row := VarBind(vb.oid, PNull(NULLTYPE), ForVersionElse(WRONG_TYPE, version, BAD_VALUE));
    if callback.htype != PrimTag(vb.value) { return; }
    row := VarBind(vb.oid, PNull(NULLTYPE), ForVersion(READ_ONLY, version));
    if !callback.isSettable { return; }
    var setError := SetCallback(callbacks, found.value, vb.value, rest, store);
    if setError != NO_ERROR {
      row := VarBind(callback.oid, PNull(NULLTYPE), ForVersion(setError, version));
      return;
    }
    var value := ReadCell(callback.State());
    row := if value.None? then VarBind(callback.oid, PNull(NULLTYPE), ForVersion(GEN_ERR, version))
           else VarBind(callback.oid, value.value, NO_ERROR);
  }

  /** handleGetBulkRequestPDU; failure is overflow. */
  method HandleGetBulkRequestPDU(callbacks: seq<ValueCallback>, varbinds: seq<VarBind>, out: array<VarBind>,
                                 nonRepeaters: nat, maxRepetitions: nat)
    returns (ok: bool, count: nat)
    requires out.Length == VB && |varbinds| < TWO31 && nonRepeaters < TWO31
    modifies out
    ensures count <= VB
    ensures var r := HandleBulk(Snapshot(callbacks), varbinds, nonRepeaters, maxRepetitions);
            ok == r.Some? && (ok ==> out[..count] == r.value)
  {
    hide BulkFirst, BulkRest;
    ok, count := true, 0;
    NoFirst(Snapshot(callbacks));
    RepeatersInsideIff(|varbinds|, nonRepeaters);
    assert varbinds[..0] == [] && out[..0] == [] && varbinds[|varbinds|..] == [];
    if nonRepeaters > 0 {
      var bound := if nonRepeaters < |varbinds| then nonRepeaters else |varbinds|;
      ok, count := BulkNonRepeaters(callbacks, varbinds[..bound], out);
      if !ok { return; }
    }
    if |varbinds| > S32(nonRepeaters) {
      ok, count := BulkRepeaters(callbacks, varbinds, out, count, nonRepeaters, maxRepetitions);
    } else {
      RestDone(Snapshot(callbacks), maxRepetitions, out[..count]);
    }
  }

  /** Its second loop. */
  method BulkRepeaters(callbacks: seq<ValueCallback>, varbinds: seq<VarBind>, out: array<VarBind>, count0: nat,
                       nonRepeaters: nat, maxRepetitions: nat)
    returns (ok: bool, count: nat)
    requires out.Length == VB && count0 <= VB && nonRepeaters < |varbinds| < TWO31
    modifies out
    ensures count <= VB
    ensures var r := BulkRest(Snapshot(callbacks), varbinds[nonRepeaters..], maxRepetitions, old(out[..count0]));
            ok == r.Some? && (ok ==> out[..count] == r.value)
  {
    hide BulkRest, BulkRepeat, IndexIn, Rounds;
    count := count0;
    ghost var store := Snapshot(callbacks);
    ghost var whole := BulkRest(store, varbinds[nonRepeaters..], maxRepetitions, out[..count]);
    RepeatersInsideIff(|varbinds|, nonRepeaters);
    var repeatingVarBinds := Rounds(|varbinds|, nonRepeaters);
    var i := 0;
    while i < repeatingVarBinds
      invariant 0 <= i <= repeatingVarBinds && count <= VB && Snapshot(callbacks) == store
      invariant whole == BulkRest(store, varbinds[i + nonRepeaters..], maxRepetitions, out[..count])
    {
      var k := IndexIn(i, nonRepeaters);
      assert varbinds[k..][0] == varbinds[k] && varbinds[k..][1..] == varbinds[k + 1..];
      RestUnfold(store, varbinds[k..], maxRepetitions, out[..count]);
      ok, count := BulkRepeater(callbacks, varbinds[k].oid, maxRepetitions, out, count);
      if !ok { return; }
      i := i + 1;
    }
    assert varbinds[i + nonRepeaters..] == [];
    RestDone(store, maxRepetitions, out[..count]);
    return true, count;
  }

  lemma NoFirst(store: seq<Handler>)
    ensures BulkFirst(store, [], []) == Some([])
  {}

  lemma RestUnfold(store: seq<Handler>, vbs: seq<VarBind>, reps: nat, out: seq<VarBind>)
    requires vbs != []
    ensures var r := BulkRepeat(store, vbs[0].oid, 0, reps, out);
            BulkRest(store, vbs, reps, out) == if r.None? then None else BulkRest(store, vbs[1..], reps, r.value)
  {
    hide BulkRepeat;
  }

  lemma RestDone(store: seq<Handler>, reps: nat, out: seq<VarBind>)
    ensures BulkRest(store, [], reps, out) == Some(out)
  {}

  method BulkNonRepeaters(callbacks: seq<ValueCallback>, varbinds: seq<VarBind>, out: array<VarBind>)
    returns (ok: bool, count: nat)
    requires out.Length == VB
    modifies out
    ensures count <= VB
    ensures var r := BulkFirst(Snapshot(callbacks), varbinds, []); ok == r.Some? && (ok ==> out[..count] == r.value)
  {
    hide FindFrom, ReadCell;
    count := 0;
    var i := 0;
    ghost var store := Snapshot(callbacks);
    assert varbinds[0..] == varbinds;
    while i < |varbinds|
      invariant 0 <= i <= |varbinds| && count <= VB && Snapshot(callbacks) == store
      invariant BulkFirst(store, varbinds, []) == BulkFirst(store, varbinds[i..], out[..count])
    {
      var vb := varbinds[i];
      var found, _ := FindCallback(callbacks, vb.oid, true, 0, 0);
      var row := VarBind(vb.oid, PNull(ENDOFMIBVIEW), NO_ERROR);
      if found.Some? {
        var callback := callbacks[found.value];
        SnapshotAt(callbacks, found.value);
        var value := ReadCell(callback.State());
        row := if value.None? then VarBind(callback.oid, PNull(NULLTYPE), GEN_ERR)
               else VarBind(vb.oid, value.value, NO_ERROR);
      }
      assert row == NonRepeaterBind(store, vb);
      assert varbinds[i..][0] == vb && varbinds[i..][1..] == varbinds[i + 1..];
      var next;
      ok, next := AppendResponseVarBind(out, count, row);
      if !ok { return; }
      count := next;
      i := i + 1;
    }
    assert varbinds[i..] == [];
    return true, count;
  }

  /** The inner loop: the name walked from is replaced after every row. */
  method BulkRepeater(callbacks: seq<ValueCallback>, start: bytes, maxRepetitions: nat, out: array<VarBind>,
                      count0: nat)
    returns (ok: bool, count: nat)
    requires out.Length == VB && count0 <= VB
    modifies out
    ensures count <= VB
    ensures var r := BulkRepeat(Snapshot(callbacks), start, 0, maxRepetitions, old(out[..count0]));
            ok == r.Some? && (ok ==> out[..count] == r.value)
  {
    hide FindFrom, ReadCell, BulkRepeat, NextBind, Append;
    count := count0;
    var oid := start;
    var foundAt := 0;
    var j := 0;
    ghost var store := Snapshot(callbacks);
    ghost var whole := BulkRepeat(store, start, 0, maxRepetitions, out[..count0]);
    while j < maxRepetitions
      invariant 0 <= j <= maxRepetitions && count <= VB && foundAt >= 0 && Snapshot(callbacks) == store
      invariant whole == BulkRepeat(store, oid, foundAt, maxRepetitions - j, out[..count])
    {
      RepeatUnfold(store, oid, foundAt, maxRepetitions - j, out[..count]);
      var row, last;
      row, last, foundAt := FindNextBind(callbacks, oid, foundAt);
      ok, count := AppendResponseVarBind(out, count, row);
      if !ok || last { return; }
      oid := row.oid;
      j := j + 1;
    }
    RepeatDone(store, oid, foundAt, out[..count]);
    return true, count;
  }

  /** The row of one repetition, whether it is the last one, and where it was found. */
  function NextBind(store: seq<Handler>, oid: bytes, foundAt: nat): (VarBind, bool, nat) {
    match FindFrom(Names(store), oid, true, foundAt)
    case None => (VarBind(oid, PNull(ENDOFMIBVIEW), NO_ERROR), true, foundAt)
    case Some(i) =>
      match ReadCell(store[i])
      case None => (VarBind(store[i].oid, PNull(NULLTYPE), GEN_ERR), true, i)
      case Some(p) => (VarBind(store[i].oid, p, NO_ERROR), false, i)
  }

  method FindNextBind(callbacks: seq<ValueCallback>, oid: bytes, foundAt: nat)
    returns (row: VarBind, last: bool, found: nat)
    ensures (row, last, found) == NextBind(Snapshot(callbacks), oid, foundAt)
  {
    hide FindFrom, ReadCell;
    var callback;
    callback, found := FindCallback(callbacks, oid, true, foundAt, foundAt);
    if callback.None? { return VarBind(oid, PNull(ENDOFMIBVIEW), NO_ERROR), true, found; }
    SnapshotAt(callbacks, callback.value);
    var value := ReadCell(callbacks[callback.value].State());
    last := value.None?;
    row := if value.None? then VarBind(callbacks[callback.value].oid, PNull(NULLTYPE), GEN_ERR)
           else VarBind(callbacks[callback.value].oid, value.value, NO_ERROR);
  }

  lemma RepeatDone(store: seq<Handler>, oid: bytes, foundAt: nat, out: seq<VarBind>)
    ensures BulkRepeat(store, oid, foundAt, 0, out) == Some(out)
  {}

  lemma RepeatUnfold(store: seq<Handler>, oid: bytes, foundAt: nat, reps: nat, out: seq<VarBind>)
    requires reps > 0
    ensures var (row, last, i) := NextBind(store, oid, foundAt);
            var r := BulkRepeat(store, oid, foundAt, reps, out);
            && (|out| >= VB ==> r == None)
            && (|out| < VB ==> Append(out, row) == out + [row])
            && (|out| < VB && last ==> r == Some(Append(out, row)))
            && (|out| < VB && !last ==> r == BulkRepeat(store, row.oid, i, reps - 1, Append(out, row)))
  {
    hide FindFrom, ReadCell;
  }

  // ------------------------------------------------------------- the engine

  /** Every primitive in the tree is within the caps. */
  predicate DeepOk(v: Value)
    decreases v
  {
    match v
    case Simple(p) => PrimOk(p)
    case Complex(_, kids) => DeepOkAll(kids)
  }

  predicate DeepOkAll(vs: seq<Value>)
    decreases vs
  {
    vs == [] || (DeepOk(vs[0]) && DeepOkAll(vs[1..]))
  }

  lemma {:induction false} DecodedDeep(tag: byte, s: bytes, free: nat)
    requires (IsPrimTag(tag) || IsComplexTag(tag)) && Decode(tag, s, free).Some?
    ensures DeepOk(Decode(tag, s, free).value.value)
    decreases |s|, 0
  {
    hide PrimOk, DecodePrim;
    if IsPrimTag(tag) {
      DecodedPrim(tag, s);
    } else {
      var v := Peek(s).value;
      DecodedDeepAll(s[v.headerLen..], v.len, 0, free);
    }
  }

  lemma {:induction false} DecodedDeepAll(s: bytes, remaining: nat, n: nat, free: nat)
    requires remaining <= |s| && DecodeKids(s, remaining, n, free).Some?
    ensures DeepOkAll(DecodeKids(s, remaining, n, free).value)
    decreases |s|, 1
  {
    hide PrimOk, Decode;
    if remaining > 0 {
      DecodedDeep(s[0], s, free - 1);
      var d := Decode(s[0], s, free - 1).value;
      if d.used < remaining {
        DecodedDeepAll(s[d.used..], remaining - d.used, n + 1, free - Nodes(d.value));
        var rest := DecodeKids(s[d.used..], remaining - d.used, n + 1, free - Nodes(d.value)).value;
        assert ([d.value] + rest)[1..] == rest;
      }
    }
  }

  /** What the parser makes of such a tree can be handed to a handler. */
  lemma {:induction false} ParsedOk(kids: seq<Value>, state: ParsingState, p: Packet)
    requires DeepOkAll(kids) && BindsOk(p.varbinds) && Parse(kids, state, p).Some?
    ensures BindsOk(Parse(kids, state, p).value.varbinds)
    decreases kids
  {
    hide PrimOk;
    if kids != [] {
      var v := kids[0];
      match state
      case SNMPVERSION => ParsedOk(kids[1..], COMMUNITY_STRING, p.(version := v.p.v));
      case COMMUNITY_STRING => ParsedOk(kids[1..], PDU, p.(community := v.p.s));
      case PDU => ParsedOk(v.kids, REQUESTID, p.(pduType := v.ctag));
      case REQUESTID => ParsedOk(kids[1..], ERRORSTATUS, p.(requestID := v.p.v));
      case ERRORSTATUS => ParsedOk(kids[1..], ERRORID, p.(errorStatus := v.p.v));
      case ERRORID => ParsedOk(kids[1..], VARBINDS, p.(errorIndex := v.p.v));
      case VARBINDS => ParsedOk(v.kids, VARBIND, p);
      case VARBIND =>
        DeepAt(v.kids, 1);
        ClonedOk(v.kids[1]);
        ParsedOk(kids[1..], VARBIND, p.(varbinds := p.varbinds + [VarBind(v.kids[0].p.s, Clone(v.kids[1]), NO_ERROR)]));
    }
  }

  lemma {:induction false} DeepAt(vs: seq<Value>, i: nat)
    requires DeepOkAll(vs) && i < |vs|
    ensures DeepOk(vs[i])
  {
    if i > 0 { DeepAt(vs[1..], i - 1); }
  }

  lemma ClonedOk(v: Value)
    requires DeepOk(v)
    ensures PrimOk(Clone(v))
  {}

  lemma {:induction false} BindsDepth(rows: seq<VarBind>)
    ensures DepthAll(ValueTlvs(BindValues(rows))) <= 1
  {
    if rows != [] {
      BindsDepth(rows[1..]);
      assert BindValues(rows)[1..] == BindValues(rows[1..]);
      var vs := BindValues(rows);
      assert ValueTlvs(vs)[0] == ValueTlv(vs[0]) && ValueTlvs(vs)[1..] == ValueTlvs(vs[1..]);
      PairDepth(Simple(POid(rows[0].oid)), Simple(rows[0].value));
    }
  }

  lemma PairDepth(a: Value, b: Value)
    requires a.Simple? && b.Simple?
    ensures Depth(ValueTlv(Complex(STRUCTURE, [a, b]))) == 1
  {
    hide DepthAll, ValueTlvs;
    DepthOf(b, []);
    DepthOf(a, [b]);
    assert [b] == [b] + [] && [a, b] == [a] + [b];
    assert Depth(ValueTlv(Complex(STRUCTURE, [a, b]))) == 1 + DepthAll(ValueTlvs([a, b]));
  }

  lemma DepthOf(v: Value, vs: seq<Value>)
    ensures DepthAll(ValueTlvs([v] + vs)) == Max(Depth(ValueTlv(v)), DepthAll(ValueTlvs(vs)))
            && DepthAll(ValueTlvs([])) == 0
  {
    assert ([v] + vs)[1..] == vs;
    assert ValueTlvs([v] + vs)[1..] == ValueTlvs(vs);
  }

  lemma TreeDepth(p: Packet, status: int, index: int, rows: seq<VarBind>)
    ensures Depth(ValueTlv(ResponseTree(p, status, index, rows))) <= 4
  {
    hide DepthAll, ValueTlvs, BindValues, Kept;
    BindsDepth(Kept(rows));
    var l := Complex(STRUCTURE, BindValues(Kept(rows)));
    var a, b, c := IntValue(p.requestID), IntValue(status), IntValue(index);
    DepthOf(l, []); DepthOf(c, [l]); DepthOf(b, [c, l]); DepthOf(a, [b, c, l]);
    assert [l] == [l] + [] && [c, l] == [c] + [l] && [b, c, l] == [b] + [c, l] && [a, b, c, l] == [a] + [b, c, l];
    var pdu := PduTree(GET_RESPONSE, p.requestID, status, index, rows);
    var x, y := IntValue(p.version), Simple(POctets(p.community));
    DepthOf(pdu, []); DepthOf(y, [pdu]); DepthOf(x, [y, pdu]);
    assert [pdu] == [pdu] + [] && [y, pdu] == [y] + [pdu] && [x, y, pdu] == [x] + [y, pdu];
    assert ResponseTree(p, status, index, rows) == Complex(STRUCTURE, [x, y, pdu]);
    assert Depth(ValueTlv(a)) == Depth(ValueTlv(b)) == Depth(ValueTlv(c)) == 0;
    assert Depth(ValueTlv(x)) == Depth(ValueTlv(y)) == 0;
    assert Depth(ValueTlv(l)) == 1 + DepthAll(ValueTlvs(l.kids)) <= 2;
    assert DepthAll(ValueTlvs([a, b, c, l])) <= 2;
    assert Depth(ValueTlv(pdu)) == 1 + DepthAll(ValueTlvs([a, b, c, l])) <= 3;
    assert DepthAll(ValueTlvs([x, y, pdu])) <= 3;
    assert Depth(ValueTlv(Complex(STRUCTURE, [x, y, pdu]))) == 1 + DepthAll(ValueTlvs([x, y, pdu]));
  }

  /** memset and serialiseInto. */
  method SerialiseInto(buffer: array<byte>, max: nat, tree: Value) returns (r: int)
    requires max + 6 <= buffer.Length && Depth(ValueTlv(tree)) <= 4
    modifies buffer
    ensures r == Reported(ValueTlv(tree), max)
    ensures r >= 0 ==> 0 < r <= max && buffer[..r] == Enc(ValueTlv(tree))
  {
    hide Enc, Depth;
    forall i | 0 <= i < max { buffer[i] := 0; }
    r := Serialise(buffer, 0, max, tree);
    EncStart(ValueTlv(tree));
  }

  /** parseFrom: the tree from the pool, then the packet from the tree, which stays with the packet. */
  method ParseInto(buffer: array<byte>, packetLength: nat, pool: ASNPool, ghost base: set<nat>, ghost used: nat)
    returns (request: SNMPPacket, ok: bool, tree: seq<Owner>)
    requires packetLength <= buffer.Length && buffer as object != pool.slots
    requires pool.Holds(base, used, []) && used <= pool.slots.Length
    modifies pool, pool.slots
    ensures pool.slots == old(pool.slots) && pool.doubleReleaseAlarms == old(pool.doubleReleaseAlarms)
    ensures fresh(request) && fresh(request.varbindList) && request.Valid() && pool.Holds(base, used, FlatAll(tree))
    ensures var r := ParseFrom(buffer[..packetLength], pool.slots.Length - used);
            ok == r.Some? && (ok ==> request.Abs() == r.value && BindsOk(r.value.varbinds))
  {
    hide Decode, Parse, ASNPool.Holds, DeepOk, BindsOk;
    tree := [];
    request := new SNMPPacket();
    var s := buffer[..packetLength];
    if packetLength == 0 || buffer[0] != 0x30 { return request, false, tree; }
    var root := pool.New(STRUCTURE, base, used, []);
    if root.None? { return request, false, tree; }
    var n, value, kids := ContainerPool.FromBuffer(pool, STRUCTURE, s, base, used, [] + [root.value]);
    tree := [Owner(root.value, kids)];
    OneOwner(root.value, kids);
    if n <= 0 || !value.Complex? { return request, false, tree; }
    ok := request.ParsePacket(value.kids, SNMPVERSION);
    if ok {
      DecodedDeep(STRUCTURE, s, pool.slots.Length - used - 1);
      DeepKids(value);
      ParsedOk(value.kids, SNMPVERSION, EMPTY_PACKET);
    }
  }

  lemma OneOwner(slot: nat, kids: seq<Owner>)
    ensures [] + [slot] + FlatAll(kids) == FlatAll([Owner(slot, kids)])
  {
    assert [Owner(slot, kids)][1..] == [];
    assert FlatAll([Owner(slot, kids)]) == Flat(Owner(slot, kids)) + [];
  }

  lemma DeepKids(v: Value)
    requires DeepOk(v) && v.Complex?
    ensures DeepOkAll(v.kids) && BindsOk(EMPTY_PACKET.varbinds)
  {}

  /** The switch of handlePacket. */
  method ServeRequest(callbacks: seq<ValueCallback>, permission: Permission, request: SNMPPacket, memory: Memory,
                      out: array<VarBind>)
    returns (globalError: Option<int>, count: nat)
    requires request.Valid() && out.Length == VB && out != request.varbindList
    requires Distinct(callbacks) && StoreOk(Snapshot(callbacks)) && BindsOk(request.Abs().varbinds)
    requires request.packetPDUType == GETBULK_REQUEST && request.snmpVersion == 1 ==> U32(request.errorStatus) < TWO31
    modifies out, callbacks
    ensures count <= VB
    ensures var (served, store) := Serve(permission, old(Snapshot(callbacks)), memory, request.Abs());
            Snapshot(callbacks) == store
            && served == if globalError.Some? then Refused(globalError.value) else Served(out[..count])
  {
    hide HandleGet, HandleSet, HandleBulk, StoreOk, BindsOk, Distinct;
    globalError, count := Some(GEN_ERR), 0;
    var varbinds := request.varbindList[..request.varbindCount];
    if request.packetPDUType == GET_REQUEST || request.packetPDUType == GETNEXT_REQUEST {
      count := HandleGetRequestPDU(callbacks, varbinds, out, request.snmpVersion,
                                   request.packetPDUType == GETNEXT_REQUEST);
      globalError := None;
    } else if request.packetPDUType == GETBULK_REQUEST {
      if request.snmpVersion == 1 {
        var ok;
        ok, count := HandleGetBulkRequestPDU(callbacks, varbinds, out, U32(request.errorStatus),
                                             U32(request.errorIndex));
        globalError := if ok then None else Some(TOO_BIG);
      }
    } else if request.packetPDUType == SET_REQUEST {
      if permission != ReadWrite {
        globalError := Some(NO_ACCESS);
      } else {
        count := HandleSetRequestPDU(callbacks, varbinds, memory, out, request.snmpVersion);
        globalError := None;
      }
    }
  }

  /** The response object of a request, filled with its rows or its global error. */
  method BuildResponse(request: SNMPPacket, globalError: Option<int>, rows: seq<VarBind>) returns (tree: Value)
    requires request.Valid() && |rows| <= VB
    ensures tree == ServedTree(request.Abs(), if globalError.Some? then Refused(globalError.value) else Served(rows))
  {
    hide BindValues;
    var response := new SNMPPacket.Response(request.snmpVersion, request.communityString, request.requestID);
    if globalError.Some? {
      response.SetGlobalError(globalError.value, 0, true);
    } else {
      var idx := 0;
      ghost var blank := response.Abs();
      while idx < |rows|
        invariant 0 <= idx <= |rows| && response.Valid() && fresh(response) && fresh(response.varbindList)
        invariant response.Abs() == blank.(errorStatus := LastBindError(rows[..idx]).0,
                                           errorIndex := LastBindError(rows[..idx]).1, varbinds := rows[..idx])
      {
        assert rows[..idx + 1][..idx] == rows[..idx] && rows[..idx] + [rows[idx]] == rows[..idx + 1];
        if rows[idx].error != NO_ERROR {
          response.AddErrorResponse(rows[idx]);
        } else {
          response.AddResponse(rows[idx]);
        }
        idx := idx + 1;
      }
      assert rows[..idx] == rows;
    }
    tree := response.Build();
  }

  /** getPermissionOfRequest */
  method GetPermissionOfRequest(cfg: Settings, communityString: bytes) returns (permission: Permission)
    ensures permission == PermissionOf(cfg, communityString)
  {
    var text := if |communityString| > COMMUNITY then [] else CStr(communityString);
    permission := NoPermission;
    if cfg.readOnly.Some? && CStr(cfg.readOnly.value) != [] && CStr(cfg.readOnly.value) == text {
      permission := ReadOnly;
    }
    if cfg.readWrite.Some? && CStr(cfg.readWrite.value) == text { permission := ReadWrite; }
  }

  /** handlePacket. The buffer has a few octets to spare behind the packet capacity. What the code does with a
      negative count of non-repeaters is not defined: it reads behind its varbind list. The parsed tree is given
      back to the pool at the end, on every path. */
  method HandlePacket(buffer: array<byte>, packetLength: nat, maxPacketSize: nat, memory: Memory,
                      callbacks: seq<ValueCallback>, cfg: Settings, pool: ASNPool)
    returns (code: int, responseLength: int, acked: Option<(int, bool)>)
    requires packetLength <= buffer.Length && maxPacketSize + 6 <= buffer.Length && cfg.max == maxPacketSize
    requires pool.Valid() && 0 <= pool.usedCount <= pool.slots.Length && buffer as object != pool.slots
    requires BulkDefined(cfg, pool.slots.Length - pool.usedCount, buffer[..packetLength])
    requires Distinct(callbacks) && StoreOk(Snapshot(callbacks))
    modifies buffer, callbacks, pool, pool.slots
    ensures responseLength <= buffer.Length
    ensures pool.Valid() && pool.slots == old(pool.slots) && pool.usedCount == old(pool.usedCount)
    ensures forall k :: 0 <= k < pool.slots.Length ==> pool.slots[k].occupied == old(pool.slots[k].occupied)
    ensures pool.doubleReleaseAlarms == old(pool.doubleReleaseAlarms)
    ensures Outcome(code, if responseLength > 0 then buffer[..responseLength] else [], Snapshot(callbacks), acked) ==
            ClassicHandle(cfg, old(Snapshot(callbacks)), memory, pool.slots.Length - old(pool.usedCount),
                          old(buffer[..packetLength]))
  {
    hide ParseFrom, StoreOk, BindsOk, Distinct, ASNPool.Holds, ASNPool.Valid, HandleParsed, FlatAll;
    NothingExtra(pool);
    ghost var base := pool.Live();
    ghost var used: nat := pool.usedCount;
    code, responseLength, acked := SNMP_REQUEST_INVALID, 0, None;
    var request, parsed, tree := ParseInto(buffer, packetLength, pool, base, used);
    if parsed {
      code, responseLength, acked := AnswerParsed(buffer, maxPacketSize, request, memory, callbacks, cfg);
    }
    DropTree(pool, tree, buffer, callbacks, base, used);
    NothingLeft(pool, base, used);
  }

  /** The destructor of the request. */
  method DropTree(pool: ASNPool, tree: seq<Owner>, ghost buffer: array<byte>, ghost callbacks: seq<ValueCallback>,
                  ghost base: set<nat>, ghost used: nat)
    requires pool.Holds(base, used, FlatAll(tree)) && buffer as object != pool.slots
    modifies pool, pool.slots
    ensures pool.slots == old(pool.slots) && pool.doubleReleaseAlarms == old(pool.doubleReleaseAlarms)
    ensures pool.Holds(base, used, []) && buffer[..] == old(buffer[..])
            && Snapshot(callbacks) == old(Snapshot(callbacks))
  {
    hide ASNPool.Holds, FlatAll;
    EmptyEnds(tree);
    ghost var none: seq<nat> := [];
    assert none + none == none;
    pool.DeleteKids(tree, base, used, none, none);
  }

  lemma EmptyEnds(os: seq<Owner>)
    ensures [] + FlatAll(os) + [] == FlatAll(os) 
  {}

  /** What follows a successful parse. */
  method AnswerParsed(buffer: array<byte>, max: nat, request: SNMPPacket, memory: Memory, callbacks: seq<ValueCallback>,
                      cfg: Settings)
    returns (code: int, responseLength: int, acked: Option<(int, bool)>)
    requires max + 6 <= buffer.Length && cfg.max == max && request.Valid() && BindsOk(request.Abs().varbinds)
    requires ServedDefined(cfg, request.Abs())
    requires Distinct(callbacks) && StoreOk(Snapshot(callbacks))
    modifies buffer, callbacks
    ensures responseLength <= buffer.Length
    ensures Outcome(code, if responseLength > 0 then buffer[..responseLength] else [], Snapshot(callbacks), acked) ==
            HandleParsed(cfg, old(Snapshot(callbacks)), memory, old(request.Abs()))
  {
    hide Serve, Respond, StoreOk, BindsOk, Distinct, PermissionOf;
    responseLength, acked := 0, None;
    if request.packetPDUType == GET_RESPONSE {
      acked := if cfg.informCallback then Some((U32(request.requestID), request.errorStatus == 0)) else None;
      return SNMP_INFORM_RESPONSE_OCCURRED, responseLength, acked;
    }
    var permission := GetPermissionOfRequest(cfg, request.communityString);
    if permission == NoPermission { return SNMP_REQUEST_INVALID_COMMUNITY, responseLength, acked; }
    var out := new VarBind[VB](_ => VarBind([], PNull(NULLTYPE), NO_ERROR));
    var globalError, count := ServeRequest(callbacks, permission, request, memory, out);
    code, responseLength := Reply(buffer, max, request, globalError, out[..count]);
  }

  /** The end of handlePacket: the response, or the tooBig response when that does not fit. */
  method Reply(buffer: array<byte>, max: nat, request: SNMPPacket, globalError: Option<int>, rows: seq<VarBind>)
    returns (code: int, length: int)
    requires request.Valid() && |rows| <= VB && max + 6 <= buffer.Length
    modifies buffer
    ensures length <= buffer.Length
    ensures (code, if length > 0 then buffer[..length] else []) ==
            Respond(old(request.Abs()), if globalError.Some? then Refused(globalError.value) else Served(rows), max)
  {
    hide Enc, ValueTlv, ServedTree, SuccessCode, Depth;
    ghost var p := request.Abs();
    var pduType := request.packetPDUType;
    var tree := BuildResponse(request, globalError, rows);
    var rebuilt := BuildResponse(request, Some(TOO_BIG), []);
    ServedDepth(p, if globalError.Some? then Refused(globalError.value) else Served(rows));
    ServedDepth(p, Refused(TOO_BIG));
    length := SerialiseInto(buffer, max, tree);
    if length > 0 {
      return if globalError.None? then SuccessCode(pduType) else SNMP_ERROR_PACKET_SENT, length;
    }
    length := SerialiseInto(buffer, max, rebuilt);
    code := if length > 0 then SNMP_ERROR_PACKET_SENT else SNMP_FAILED_SERIALISATION;
  }

  lemma ServedDepth(p: Packet, r: Served)
    ensures Depth(ValueTlv(ServedTree(p, r))) <= 4
  {
    hide Depth, ValueTlv, LastBindError;
    match r
    case Served(rows) => TreeDepth(p, LastBindError(rows).0, LastBindError(rows).1, rows);
    case Refused(e) => TreeDepth(p, e, 0, []);
  }
}
