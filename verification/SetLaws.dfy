/** When a SET succeeds, what it leaves behind, and which status a refused one is answered with. */
module SetLaws {
  import opened Bytes
  import opened Ber
  import opened Caps
  import opened Containers
  import opened BerView
  import opened Roster
  import opened Handling
  import opened HandlingLaws

  /** The error statuses of RFC 3416 section 3 that the agent uses. */
  lemma Statuses()
    ensures NO_ERROR == 0 && TOO_BIG == 1 && NO_SUCH_NAME == 2 && BAD_VALUE == 3 && READ_ONLY == 4 && GEN_ERR == 5
    ensures NO_ACCESS == 6 && WRONG_TYPE == 7 && WRONG_LENGTH == 8 && NOT_WRITABLE == 17
  {}

  /** The value goes into what the handler is bound to. */
  predicate Accepts(h: Handler, p: Prim) {
    && h.settable
    && (h.cell.IntCell? || h.cell.Counter64Cell?
        || (h.cell.StrCell? && p.POctets? && |p.s| < h.cell.maxLen)
        || (h.cell.OpaqueCell? && p.POpaque? && |p.s| <= |h.cell.data|))
  }

  /** The status a value is refused with. */
  function Refusal(h: Handler): int {
    if !h.settable then 4
    else if h.cell.StrCell? || h.cell.OpaqueCell? then 8
    else if h.cell.FixedCell? then 6
    else 5
  }

  /** The handler with its binding holding the value: an integer as it is, a string up to its first NUL, an opaque
      value followed by what the rest of the buffer is filled with. */
  predicate NowHolds(h: Handler, p: Prim, cell: Cell) {
    && (p.PInt? ==> cell == IntCell(p.v))
    && (p.PCounter64? ==> cell == Counter64Cell(p.v64))
    && (p.POctets? ==>
          && cell.StrCell? && h.cell.StrCell? && cell.maxLen == h.cell.maxLen && cell.chars <= p.s && 0 !in cell.chars
          && (cell.chars == p.s || p.s[|cell.chars|] == 0))
    && (p.POpaque? ==> cell.OpaqueCell? && h.cell.OpaqueCell? && |cell.data| == |h.cell.data| && p.s <= cell.data)
  }

  /** A value of the handler's type is taken exactly by a settable integer or counter, by a settable string buffer
      that is longer than it, and by a settable opaque buffer that is at least as long. A taken value is in the
      binding, and the flag is raised unless a counter had that value already. A refused one changes nothing but
      the flag, which is down. */
  lemma SetSucceeds(h: Handler, p: Prim, rest: Residue)
    requires HandlerOk(h) && PrimOk(p) && PrimTag(p) == h.htype
    ensures var (status, g) := SetHandler(h, p, rest);
            && (status == 0 <==> Accepts(h, p))
            && (!Accepts(h, p) ==> status == Refusal(h) && g == h.(setOccurred := g.setOccurred))
            && (!Accepts(h, p) && h.settable ==> !g.setOccurred) && (!h.settable ==> g == h)
            && (Accepts(h, p) ==>
                  && NowHolds(h, p, g.cell) && g == h.(cell := g.cell, setOccurred := g.setOccurred)
                  && g.setOccurred == !((h.htype == 0x41 || h.htype == 0x46) && g.cell == h.cell))
  {
    hide Filled;
  }

  // ---------------------------------------------------------------- statuses

  /** A status of the protocol versions that know them all, and the one a version 1 manager gets for it. */
  function ForManager(version: int, status: int, first: int): int { if version == 0 then first else status }

  /** The row of one varbind of a SET: always under the requested name, with a value exactly if it was set and could
      be read again, and otherwise with the status of the first thing that is wrong. No other handler changes. */
  lemma SetRowSays(store: seq<Handler>, version: int, vb: ReqVb, value: Value, rest: Residue, free: nat)
    requires StoreOk(store) && DistinctNames(store) && free > 0
    requires value.Simple? && PrimOk(value.p) && PrimTag(value.p) == vb.tag
    ensures var (row, next) := SetRow(store, version, vb, value, rest, free);
            && RowShape(vb, row)
            && ((forall k :: 0 <= k < |store| ==> store[k].oid != vb.oid) ==>
                  row.error == ForManager(version, 17, 2) && next == store)
            && forall k :: 0 <= k < |store| && store[k].oid == vb.oid ==>
                 next == store[k := next[k]] && RowSays(store[k], version, vb.tag, value.p, row, next[k])
  {
    hide FindFrom, HandlerOk, PrimOk, SetHandler, ReadCell, DistinctNames, Accepts, NowHolds, ForVersion,
         ForVersionElse;
    GetIsExact(Names(store), vb.oid, 0);
    VersionMaps(version);
    var found := FindFrom(Names(store), vb.oid, false, 0);
    if found.Some? {
      var k := found.value;
      assert store[k].oid == vb.oid;
      OkAt(store, k);
      if store[k].htype == vb.tag {
        SetSucceeds(store[k], value.p, rest);
        ReadableAfter(store[k], value.p, rest);
        SettableFirst(store[k], value.p);
      }
    }
    forall k | 0 <= k < |store| && store[k].oid == vb.oid ensures found == Some(k) { FoundAt(store, k); }
  }

  predicate RowShape(vb: ReqVb, row: Planned) {
    row.oid == vb.oid && (row.value.Some? <==> row.error == 0) && (row.error != 0 ==> row.nullTag == 5)
  }

  /** What the row says of the handler h the varbind names, and what becomes of it. */
  predicate RowSays(h: Handler, version: int, tag: byte, p: Prim, row: Planned, g: Handler) {
    && (h.htype != tag ==> row.error == ForManager(version, 7, 3) && g == h)
    && (h.htype == tag && !h.settable ==> row.error == 4 && g == h)
    && (h.htype == tag && h.settable && !Accepts(h, p) ==>
          row.error == ForManager(version, Refusal(h), 5) && g == h.(setOccurred := false))
    && (h.htype == tag && Accepts(h, p) ==>
          NowHolds(h, p, g.cell) && row.error == 0 && row.value == ReadCell(g))
  }

  lemma VersionMaps(version: int)
    ensures ForVersionElse(NOT_WRITABLE, version, NO_SUCH_NAME) == ForManager(version, 17, 2)
    ensures ForVersionElse(WRONG_TYPE, version, BAD_VALUE) == ForManager(version, 7, 3)
    ensures ForVersion(READ_ONLY, version) == 4 && ForVersion(GEN_ERR, version) == 5
    ensures ForVersion(WRONG_LENGTH, version) == ForManager(version, 8, 5)
    ensures ForVersion(NO_ACCESS, version) == ForManager(version, 6, 5)
  {}

  /** What was set can be read. */
  lemma ReadableAfter(h: Handler, p: Prim, rest: Residue)
    requires HandlerOk(h) && PrimOk(p) && PrimTag(p) == h.htype
    ensures Accepts(h, p) ==> ReadCell(SetHandler(h, p, rest).1).Some?
  {
    hide Filled;
  }

  lemma SettableFirst(h: Handler, p: Prim)
    ensures Accepts(h, p) ==> h.settable
    ensures h.settable ==> Refusal(h) in {5, 6, 8}
  {}

  // ------------------------------------------------------------- a whole SET

  predicate DistinctRequest(vbs: seq<ReqVb>) {
    forall i, j :: 0 <= i < j < |vbs| ==> vbs[i].oid != vbs[j].oid
  }

  predicate PrimValues(vbs: seq<ReqVb>, values: seq<Value>) {
    && |values| == |vbs|
    && forall i :: 0 <= i < |vbs| ==> values[i].Simple? && PrimOk(values[i].p) && PrimTag(values[i].p) == vbs[i].tag
  }

  /** Each row of a SET of different names says what became of the handler it names. */
  lemma {:induction false} SetsSay(store: seq<Handler>, version: int, vbs: seq<ReqVb>, values: seq<Value>,
                                   memory: Memory, at: nat, room: nat, free: nat, i: nat)
    requires StoreOk(store) && DistinctNames(store) && DistinctRequest(vbs) && PrimValues(vbs, values)
    requires free > room && i < |vbs| && Sets(store, version, vbs, values, memory, at, room, free).0.Some?
    ensures var rows := Sets(store, version, vbs, values, memory, at, room, free).0.value;
            var next := Sets(store, version, vbs, values, memory, at, room, free).1;
            && |rows| == |vbs| && |next| == |store| && RowShape(vbs[i], rows[i])
            && ((forall k :: 0 <= k < |store| ==> store[k].oid != vbs[i].oid) ==>
                  rows[i].error == ForManager(version, 17, 2))
            && forall k :: 0 <= k < |store| && store[k].oid == vbs[i].oid ==>
                 RowSays(store[k], version, vbs[i].tag, values[i].p, rows[i], next[k])
    decreases vbs
  {
    hide Sets, SetRow, OidOk, HandlerOk, PrimOk, DistinctNames, RowSays, RowShape;
    var (row, after) := SetRow(store, version, vbs[0], values[0], memory(at), free);
    SetsUnfold(store, version, vbs, values, memory, at, room, free);
    SetRowSays(store, version, vbs[0], values[0], memory(at), free);
    SetRowNames(store, version, vbs[0], values[0], memory(at), free);
    KeepsStore(store, version, vbs[0], values[0], memory(at), free);
    SetsLength(after, version, vbs[1..], values[1..], memory, at + 1, room - 1, free - Cost(row));
    if i == 0 {
      forall k | 0 <= k < |store| && store[k].oid == vbs[0].oid
        ensures Sets(store, version, vbs, values, memory, at, room, free).1[k] == after[k]
      {
        SetRowFrame(store, version, vbs[0], values[0], memory(at), free, k);
        SetsFrame(after, version, vbs[1..], values[1..], memory, at + 1, room - 1, free - Cost(row), k);
        NotTargeted(vbs, after[k]);
      }
    } else {
      SetsSay(after, version, vbs[1..], values[1..], memory, at + 1, room - 1, free - Cost(row), i - 1);
      forall k | 0 <= k < |store| ensures after[k].oid == store[k].oid
                                  ensures store[k].oid == vbs[i].oid ==> after[k] == store[k] {
        SetRowFrame(store, version, vbs[0], values[0], memory(at), free, k);
      }
    }
  }

  lemma NotTargeted(vbs: seq<ReqVb>, h: Handler)
    requires DistinctRequest(vbs) && vbs != [] && h.oid == vbs[0].oid
    ensures !Targets(vbs[1..], h)
  {
    forall i | 0 <= i < |vbs| - 1 ensures vbs[1..][i].oid != h.oid { assert vbs[1..][i] == vbs[i + 1]; }
  }

  lemma KeepsStore(store: seq<Handler>, version: int, vb: ReqVb, value: Value, rest: Residue, free: nat)
    requires StoreOk(store) && value.Simple? && PrimOk(value.p) && PrimTag(value.p) == vb.tag
    ensures StoreOk(SetRow(store, version, vb, value, rest, free).1)
  {
    hide HandlerOk, FindFrom, ReadCell, SetHandler, PrimOk;
    var found := FindFrom(Names(store), vb.oid, false, 0);
    if found.Some? && store[found.value].htype == vb.tag {
      OkAt(store, found.value);
      SetKeepsOk(store[found.value], value.p, rest);
    }
  }

  lemma {:induction false} SetsLength(store: seq<Handler>, version: int, vbs: seq<ReqVb>, values: seq<Value>,
                                      memory: Memory, at: nat, room: nat, free: nat)
    requires |values| == |vbs|
    ensures var r := Sets(store, version, vbs, values, memory, at, room, free).0; r.Some? ==> |r.value| == |vbs|
    decreases vbs
  {
    hide SetRow, OidOk;
    if vbs != [] && room > 0 {
      var (row, next) := SetRow(store, version, vbs[0], values[0], memory(at), free);
      SetsLength(next, version, vbs[1..], values[1..], memory, at + 1, room - 1, free - Cost(row));
    }
  }

  /** The handlers after the first n varbinds, one after the other. */
  function Applied(store: seq<Handler>, version: int, vbs: seq<ReqVb>, values: seq<Value>, memory: Memory, at: nat,
                   n: nat): seq<Handler>
    requires |values| == |vbs| && n <= |vbs|
    decreases n
  {
    if n == 0 then store
    else
      var before := Applied(store, version, vbs, values, memory, at, n - 1);
      SetRow(before, version, vbs[n - 1], values[n - 1], memory(at + n - 1), 0).1
  }

  lemma FreeNotSeen(store: seq<Handler>, version: int, vb: ReqVb, value: Value, rest: Residue, free: nat)
    ensures SetRow(store, version, vb, value, rest, free).1 == SetRow(store, version, vb, value, rest, 0).1
    ensures SetRow(store, version, vb, value, rest, free).0.oid == vb.oid
  {
    hide FindFrom, SetHandler, ReadCell;
    GetIsExact(Names(store), vb.oid, 0);
  }

  lemma {:induction false} AppliedFirst(store: seq<Handler>, version: int, vbs: seq<ReqVb>, values: seq<Value>,
                                        memory: Memory, at: nat, n: nat)
    requires |values| == |vbs| && 0 < n <= |vbs|
    ensures var next := SetRow(store, version, vbs[0], values[0], memory(at), 0).1;
            Applied(store, version, vbs, values, memory, at, n) ==
            Applied(next, version, vbs[1..], values[1..], memory, at + 1, n - 1)
    decreases n
  {
    hide SetRow;
    if n > 1 { AppliedFirst(store, version, vbs, values, memory, at, n - 1); }
    if n == 1 { assert Applied(store, version, vbs, values, memory, at, 0) == store; }
  }

  /** A SET works through its varbinds in order and undoes nothing: all of them if their names can be held, and
      otherwise those up to the first that cannot, that one included, when the answer is given up. */
  lemma {:induction false} SetsApply(store: seq<Handler>, version: int, vbs: seq<ReqVb>, values: seq<Value>,
                                     memory: Memory, at: nat, room: nat, free: nat, n: nat)
    requires |values| == |vbs| <= room && n <= |vbs|
    requires (forall i :: 0 <= i < n ==> OidOk(vbs[i].oid)) && (n < |vbs| ==> !OidOk(vbs[n].oid))
    ensures var (rows, next) := Sets(store, version, vbs, values, memory, at, room, free);
            && (rows.Some? <==> n == |vbs|)
            && next == Applied(store, version, vbs, values, memory, at, if n < |vbs| then n + 1 else n)
    decreases vbs
  {
    hide Sets, SetRow, OidOk, Applied;
    if vbs == [] {
      SetsDone(store, version, memory, at, room, free);
      NothingApplied(store, version, vbs, values, memory, at);
    } else {
      SetsUnfold(store, version, vbs, values, memory, at, room, free);
      FreeNotSeen(store, version, vbs[0], values[0], memory(at), free);
      var (row, next) := SetRow(store, version, vbs[0], values[0], memory(at), free);
      AppliedFirst(store, version, vbs, values, memory, at, if n < |vbs| then n + 1 else n);
      if n == 0 {
        NothingApplied(next, version, vbs[1..], values[1..], memory, at + 1);
      } else {
        SetsApply(next, version, vbs[1..], values[1..], memory, at + 1, room - 1, free - Cost(row), n - 1);
      }
    }
  }

  lemma NothingApplied(store: seq<Handler>, version: int, vbs: seq<ReqVb>, values: seq<Value>, memory: Memory, at: nat)
    requires |values| == |vbs|
    ensures Applied(store, version, vbs, values, memory, at, 0) == store
  {}

  /** What is served of a binding: integers and counters as they are, a string or an opaque buffer up to the caps,
      constants and sketch functions as they are, and nothing of an unbound handler. */
  lemma ServedAs(h: Handler)
    ensures (h.cell.IntCell? ==> ReadCell(h) == Some(PInt(h.htype, h.cell.v)))
    ensures (h.cell.Counter64Cell? ==> ReadCell(h) == Some(PCounter64(h.cell.v64)))
    ensures (h.cell.StrCell? ==> ReadCell(h).Some? && ReadCell(h).value.POctets? && ReadCell(h).value.s <= h.cell.chars
                                 && (|h.cell.chars| <= STR ==> ReadCell(h).value.s == h.cell.chars)
                                 && (|h.cell.chars| > STR ==> |ReadCell(h).value.s| == STR))
    ensures (h.cell.OpaqueCell? ==> ReadCell(h).Some? && ReadCell(h).value.POpaque?
                                    && ReadCell(h).value.s <= h.cell.data
                                    && (|h.cell.data| <= OCTETS ==> ReadCell(h).value.s == h.cell.data)
                                    && (|h.cell.data| > OCTETS ==> |ReadCell(h).value.s| == OCTETS))
    ensures (h.cell.FixedCell? ==> ReadCell(h) == h.cell.fixed) && (h.cell.NullCell? ==> ReadCell(h) == None)
  {}
}
