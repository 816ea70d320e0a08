/** What every planned response row looks like: a well-formed name, a value that fits a pool slot,
    and no more rows than the varbind cap. */
module PlanFacts {
  import opened Bytes
  import opened Ber
  import opened Caps
  import opened Containers
  import opened BerView
  import opened Roster
  import opened Handling

  /** A decoded value has the tag it was decoded for. */
  predicate Typed(vbs: seq<ReqVb>, values: seq<Value>) {
    && |values| == |vbs|
    && forall i :: 0 <= i < |vbs| ==> TypedOne(vbs[i], values[i])
  }

  predicate TypedOne(vb: ReqVb, v: Value) {
    IsPrimTag(vb.tag) ==> v.Simple? && PrimOk(v.p) && PrimTag(v.p) == vb.tag
  }

  predicate AllPrim(vbs: seq<ReqVb>) { forall i :: 0 <= i < |vbs| ==> IsPrimTag(vbs[i].tag) }

  /** An accepted packet whose values are all of primitive types. */
  predicate PrimitiveRequest(s: bytes) { Walk(s).Some? && AllPrim(ReadVbs(s, Walk(s).value.vbs)) }

  /** Primitive values take one slot each. */
  lemma {:induction false} PrimNodes(vbs: seq<ReqVb>, free: nat)
    requires DecodeValues(vbs, free).Some? && AllPrim(vbs)
    ensures NodesAll(DecodeValues(vbs, free).value) == |vbs|
  {
    hide DecodeValues, DecodeValue;
    if vbs == [] {
      NoValues(free);
    } else {
      DecodeUnfold(vbs, free);
      PrimNode(vbs[0], free);
      var v := DecodeValue(vbs[0], free).value;
      PrimNodes(vbs[1..], free - Nodes(v));
      var rest := DecodeValues(vbs[1..], free - Nodes(v)).value;
      assert ([v] + rest)[1..] == rest;
    }
  }

  lemma PrimNode(vb: ReqVb, free: nat)
    requires IsPrimTag(vb.tag) && DecodeValue(vb, free).Some?
    ensures Nodes(DecodeValue(vb, free).value) == 1
  {
    hide DecodePrim;
  }

  lemma {:induction false} DecodedTyped(vbs: seq<ReqVb>, free: nat)
    requires DecodeValues(vbs, free).Some?
    ensures Typed(vbs, DecodeValues(vbs, free).value) && NamesOk(vbs)
  {
    hide PrimOk, Decode, DecodePrim;
    if vbs != [] {
      var v := DecodeValue(vbs[0], free).value;
      ValueTyped(vbs[0], free);
      DecodedTyped(vbs[1..], free - Nodes(v));
      var values, rest := DecodeValues(vbs, free).value, DecodeValues(vbs[1..], free - Nodes(v)).value;
      forall i | 0 <= i < |vbs| ensures TypedOne(vbs[i], values[i]) && NameOk(vbs[i].oid) {
        if i > 0 { assert vbs[i] == vbs[1..][i - 1] && values[i] == rest[i - 1]; }
      }
    }
  }

  lemma ValueTyped(vb: ReqVb, free: nat)
    requires DecodeValue(vb, free).Some?
    ensures TypedOne(vb, DecodeValue(vb, free).value) && NameOk(vb.oid)
  {
    hide PrimOk, DecodePrim;
    if IsPrimTag(vb.tag) { DecodedPrim(vb.tag, vb.tlv); }
  }

  predicate NameOk(oid: bytes) { oid != [] && oid[0] == 0x2b && |oid| <= OID_DATA }

  /** The value's encoding fits the scratch slot of the response builder. */
  predicate Servable(p: Prim) { |PrimContent(p)| + 4 <= SLOT_SIZE }

  predicate RowWell(p: Planned) {
    NameOk(p.oid) && OidOk(p.oid) && (p.value.Some? ==> Servable(p.value.value)) && 0 <= p.error <= NOT_WRITABLE
  }

  predicate RowsWell(rows: seq<Planned>) { |rows| <= VB && forall i :: 0 <= i < |rows| ==> RowWell(rows[i]) }

  predicate AllWell(rows: seq<Planned>, room: nat) {
    |rows| <= room && forall i :: 0 <= i < |rows| ==> RowWell(rows[i])
  }

  predicate NamesOk(vbs: seq<ReqVb>) { forall i :: 0 <= i < |vbs| ==> NameOk(vbs[i].oid) }

  lemma ReadServable(h: Handler, free: nat)
    requires HandlerOk(h) && ReadValue(h, free).Some?
    ensures Servable(ReadValue(h, free).value)
  {}

  lemma PutWell(row: Planned, room: nat, rest: Option<seq<Planned>>)
    requires RowWell(row) && Put(row, room, rest).Some? && AllWell(rest.value, room - 1)
    ensures AllWell(Put(row, room, rest).value, room)
  {}

  lemma {:induction false} GetsWell(store: seq<Handler>, version: int, vbs: seq<ReqVb>, next: bool, room: nat,
                                    free: nat)
    requires StoreOk(store) && NamesOk(vbs) && Gets(store, version, vbs, next, room, free).Some?
    ensures AllWell(Gets(store, version, vbs, next, room, free).value, room)
    decreases vbs
  {
    hide HandlerOk, FindFrom, ReadCell, Servable, OidOk;
    if vbs != [] {
      var row := GetRow(store, version, vbs[0], next, free);
      var found := FindFrom(Names(store), vbs[0].oid, next, 0);
      if found.Some? { HandlerWell(store[found.value], free); }
      GetsWell(store, version, vbs[1..], next, room - 1, free - Cost(row));
      PutWell(row, room, Gets(store, version, vbs[1..], next, room - 1, free - Cost(row)));
    }
  }

  lemma HandlerWell(h: Handler, free: nat)
    requires HandlerOk(h)
    ensures NameOk(h.oid) && (ReadValue(h, free).Some? ==> Servable(ReadValue(h, free).value))
  {
    if ReadValue(h, free).Some? { ReadServable(h, free); }
  }

  lemma {:induction false} NonRepeatersWell(store: seq<Handler>, vbs: seq<ReqVb>, room: nat, free: nat)
    requires StoreOk(store) && NamesOk(vbs) && NonRepeaters(store, vbs, room, free).Some?
    ensures AllWell(NonRepeaters(store, vbs, room, free).value, room)
    decreases vbs
  {
    hide HandlerOk, FindFrom, ReadCell, Servable, OidOk;
    if vbs != [] {
      var row := NonRepeaterRow(store, vbs[0], free);
      var found := FindFrom(Names(store), vbs[0].oid, true, 0);
      if found.Some? { HandlerWell(store[found.value], free); }
      NonRepeatersWell(store, vbs[1..], room - 1, free - Cost(row));
      PutWell(row, room, NonRepeaters(store, vbs[1..], room - 1, free - Cost(row)));
    }
  }

  lemma {:induction false} RepeatWell(store: seq<Handler>, cursor: bytes, foundAt: nat, reps: nat, room: nat, free: nat)
    requires StoreOk(store) && NameOk(cursor) && Repeat(store, cursor, foundAt, reps, room, free).Some?
    ensures AllWell(Repeat(store, cursor, foundAt, reps, room, free).value, room)
    decreases reps
  {
    hide HandlerOk, FindFrom, ReadCell, Servable, OidOk;
    if reps > 0 {
      var found := FindFrom(Names(store), cursor, true, foundAt);
      if found.Some? {
        var i := found.value;
        HandlerWell(store[i], free);
        if ReadValue(store[i], free).Some? {
          RepeatWell(store, store[i].oid, i, reps - 1, room - 1, free - 1);
        }
      }
    }
  }

  lemma {:induction false} RepeatersWell(store: seq<Handler>, vbs: seq<ReqVb>, reps: nat, room: nat, free: nat)
    requires StoreOk(store) && NamesOk(vbs) && Repeaters(store, vbs, reps, room, free).Some?
    ensures AllWell(Repeaters(store, vbs, reps, room, free).value, room)
    decreases vbs
  {
    hide HandlerOk, Repeat, RowWell, OidOk;
    if vbs != [] {
      RepeatWell(store, vbs[0].oid, 0, reps, room, free);
      var rows := Repeat(store, vbs[0].oid, 0, reps, room, free).value;
      RepeatersWell(store, vbs[1..], reps, Less(room, |rows|), Less(free, CostAll(rows)));
    }
  }

  lemma BulkWell(store: seq<Handler>, q: Request, free: nat)
    requires StoreOk(store) && NamesOk(q.vbs) && Bulk(store, q, free).Some?
    ensures RowsWell(Bulk(store, q, free).value)
  {
    hide HandlerOk, NonRepeaters, Repeaters, RowWell;
    var nonRepeaters := U32(q.errorStatus);
    var n := if nonRepeaters < |q.vbs| then nonRepeaters else |q.vbs|;
    NonRepeatersWell(store, q.vbs[..n], VB, free);
    var first := NonRepeaters(store, q.vbs[..n], VB, free).value;
    RepeatersWell(store, q.vbs[n..], U32(q.errorIndex), Less(VB, |first|), Less(free, CostAll(first)));
  }

  lemma {:induction false} SetsWell(store: seq<Handler>, version: int, vbs: seq<ReqVb>, values: seq<Value>,
                                    memory: Memory, at: nat, room: nat, free: nat)
    requires StoreOk(store) && NamesOk(vbs) && Typed(vbs, values)
    ensures var r := Sets(store, version, vbs, values, memory, at, room, free);
            StoreOk(r.1) && (r.0.Some? ==> AllWell(r.0.value, room))
    decreases vbs
  {
    hide HandlerOk, OidOk, SetRow, TypedOne, Servable;
    if vbs != [] {
      var (row, next) := SetRow(store, version, vbs[0], values[0], memory(at), free);
      SetRowWell(store, version, vbs[0], values[0], memory(at), free);
      if room > 0 {
        SetsWell(next, version, vbs[1..], values[1..], memory, at + 1, room - 1, free - Cost(row));
        var rest := Sets(next, version, vbs[1..], values[1..], memory, at + 1, room - 1, free - Cost(row)).0;
        if Put(row, room, rest).Some? { PutWell(row, room, rest); }
      }
    }
  }

  lemma SetRowWell(store: seq<Handler>, version: int, vb: ReqVb, value: Value, rest: Residue, free: nat)
    requires StoreOk(store) && NameOk(vb.oid) && TypedOne(vb, value)
    ensures var (row, next) := SetRow(store, version, vb, value, rest, free);
            StoreOk(next) && (OidOk(row.oid) ==> RowWell(row))
  {
    hide HandlerOk, FindFrom, ReadCell, SetHandler, OidOk, Servable, PrimOk;
    var found := FindFrom(Names(store), vb.oid, false, 0);
    if found.Some? {
      var h := store[found.value];
      assert HandlerOk(h);
      HandlerWell(h, free);
      PrimHandler(h);
      if h.htype == vb.tag {
        SetKeepsOk(h, value.p, rest);
        HandlerWell(SetHandler(h, value.p, rest).1, free);
      }
    }
  }

  lemma PrimHandler(h: Handler)
    requires HandlerOk(h)
    ensures IsPrimTag(h.htype)
  {}

  /** Whatever a request stages can be written, and the handlers stay well-formed. */
  lemma StageWell(permission: Permission, store: seq<Handler>, q: Request, values: seq<Value>, memory: Memory,
                  free: nat)
    requires StoreOk(store) && NamesOk(q.vbs) && Typed(q.vbs, values)
    ensures var (staged, store') := Stage(permission, store, q, values, memory, free);
            StoreOk(store') && (staged.Rows? ==> RowsWell(staged.rows))
  {
    hide HandlerOk, Gets, Bulk, Sets, RowWell, TypedOne, NameOk;
    var next := q.pduType == GETNEXT_REQUEST;
    if Gets(store, q.version, q.vbs, next, VB, free).Some? { GetsWell(store, q.version, q.vbs, next, VB, free); }
    if Bulk(store, q, free).Some? { BulkWell(store, q, free); }
    SetsWell(store, q.version, q.vbs, values, memory, 0, VB, free);
  }

  /** Only the four request types stage rows. */
  lemma StagedSuccess(permission: Permission, store: seq<Handler>, q: Request, values: seq<Value>, memory: Memory,
                      free: nat)
    requires |values| == |q.vbs|
    ensures Stage(permission, store, q, values, memory, free).0.Rows? ==>
              SNMP_GET_OCCURRED <= SuccessCode(q.pduType) <= SNMP_SET_OCCURRED
  {
    hide Gets, Bulk, Sets;
  }
}
