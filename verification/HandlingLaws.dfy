/** What the request handler promises: which handlers a request can change, that every answer reads
    back as what was planned, when an answer fits, and that GETBULK is iterated GETNEXT. */
module HandlingLaws {
  import opened Bytes
  import opened Ber
  import opened Caps
  import opened Containers
  import opened BerView
  import opened Oids
  import opened Roster
  import opened Handling
  import opened PlanFacts
  import opened ResponseWriter

  // ------------------------------------------------------------ store frame

  /** Some varbind names the handler exactly and carries a value of its type. */
  predicate Targets(vbs: seq<ReqVb>, h: Handler) {
    exists i :: 0 <= i < |vbs| && vbs[i].oid == h.oid && vbs[i].tag == h.htype
  }

  lemma {:induction false} SetsFrame(store: seq<Handler>, version: int, vbs: seq<ReqVb>, values: seq<Value>,
                                     memory: Memory, at: nat, room: nat, free: nat, k: nat)
    requires |values| == |vbs| && k < |store|
    ensures var h := Sets(store, version, vbs, values, memory, at, room, free).1[k];
            && h.oid == store[k].oid && h.htype == store[k].htype && h.settable == store[k].settable
            && (h != store[k] ==> store[k].settable && Targets(vbs, store[k]))
    decreases vbs
  {
    hide SetRow, OidOk, Targets;
    if vbs != [] {
      var (row, next) := SetRow(store, version, vbs[0], values[0], memory(at), free);
      SetRowFrame(store, version, vbs[0], values[0], memory(at), free, k);
      TargetsFirst(vbs, store[k]);
      if room > 0 {
        SetsFrame(next, version, vbs[1..], values[1..], memory, at + 1, room - 1, free - Cost(row), k);
        TargetsRest(vbs, next[k], store[k]);
      }
    }
  }

  lemma TargetsFirst(vbs: seq<ReqVb>, h: Handler)
    requires vbs != []
    ensures vbs[0].oid == h.oid && vbs[0].tag == h.htype ==> Targets(vbs, h)
  {}

  lemma TargetsRest(vbs: seq<ReqVb>, h: Handler, h': Handler)
    requires vbs != [] && h.oid == h'.oid && h.htype == h'.htype
    ensures Targets(vbs[1..], h) ==> Targets(vbs, h')
  {
    if Targets(vbs[1..], h) {
      var i :| 0 <= i < |vbs[1..]| && vbs[1..][i].oid == h.oid && vbs[1..][i].tag == h.htype;
      assert vbs[i + 1] == vbs[1..][i];
    }
  }

  lemma SetRowFrame(store: seq<Handler>, version: int, vb: ReqVb, value: Value, rest: Residue, free: nat, k: nat)
    requires k < |store|
    ensures var h := SetRow(store, version, vb, value, rest, free).1[k];
            && h.oid == store[k].oid && h.htype == store[k].htype && h.settable == store[k].settable
            && (h != store[k] ==> store[k].settable && vb.oid == store[k].oid && vb.tag == store[k].htype)
  {
    hide FindFrom, ReadCell, WriteCell;
    GetIsExact(Names(store), vb.oid, 0);
  }

  /** What has to hold for a packet to be acted on at all. */
  predicate WellFormed(cfg: Settings, free: nat, s: bytes) {
    && Walk(s).Some? && cfg.max > 0 && !Walk(s).value.Truncated() && Walk(s).value.count <= VB
    && DecodeValues(RequestOf(s).vbs, free).Some?
  }

  function RequestOf(s: bytes): Request
    requires Walk(s).Some?
  {
    Read(s, Walk(s).value)
  }

  /** A handler changes only under a SET with the read-write community, once every value of the request
      has decoded, and only if it is settable and a varbind names exactly it with its own type. Its
      name, type and access never change. */
  lemma StoreFrame(cfg: Settings, store: seq<Handler>, memory: Memory, free: nat, s: bytes, k: nat)
    requires k < |store|
    ensures var h := Handle(cfg, store, memory, free, s).store[k];
            && h.oid == store[k].oid && h.htype == store[k].htype && h.settable == store[k].settable
            && (h != store[k] ==>
                  && WellFormed(cfg, free, s) && RequestOf(s).pduType == SET_REQUEST
                  && PermissionOf(cfg, RequestOf(s).community) == ReadWrite
                  && store[k].settable && Targets(RequestOf(s).vbs, store[k]))
  {
    hide Walk, Read, DecodeValues, PermissionOf, Sets, Gets, Bulk, Answer, Targets;
    if WellFormed(cfg, free, s) {
      var q := RequestOf(s);
      var values := DecodeValues(q.vbs, free).value;
      SetsFrame(store, q.version, q.vbs, values, memory, 0, VB, free - NodesAll(values), k);
    }
  }

  predicate DistinctNames(store: seq<Handler>) {
    forall i, j :: 0 <= i < j < |store| ==> store[i].oid != store[j].oid
  }

  /** A SET does what it says: a handler named by exactly one varbind ends up with that varbind's value if it
      is settable and of that type, and as it was otherwise, whatever the other varbinds do. */
  lemma {:induction false} SetsEffect(store: seq<Handler>, version: int, vbs: seq<ReqVb>, values: seq<Value>,
                                      memory: Memory, at: nat, room: nat, free: nat, k: nat, i: nat)
    requires |values| == |vbs| && k < |store| && i < |vbs| && DistinctNames(store)
    requires vbs[i].oid == store[k].oid && forall j :: 0 <= j < |vbs| && j != i ==> vbs[j].oid != store[k].oid
    requires Sets(store, version, vbs, values, memory, at, room, free).0.Some?
    ensures Sets(store, version, vbs, values, memory, at, room, free).1[k] ==
            if store[k].htype == vbs[i].tag && store[k].settable && values[i].Simple?
            then SetHandler(store[k], values[i].p, memory(at + i)).1 else store[k]
    decreases vbs
  {
    hide SetRow, OidOk, SetHandler, DistinctNames;
    var (row, next) := SetRow(store, version, vbs[0], values[0], memory(at), free);
    SetRowFrame(store, version, vbs[0], values[0], memory(at), free, k);
    SetRowNames(store, version, vbs[0], values[0], memory(at), free);
    if i == 0 {
      SetRowEffect(store, version, vbs[0], values[0], memory(at), free, k);
      SetsFrame(next, version, vbs[1..], values[1..], memory, at + 1, room - 1, free - Cost(row), k);
    } else {
      SetsEffect(next, version, vbs[1..], values[1..], memory, at + 1, room - 1, free - Cost(row), k, i - 1);
    }
  }

  lemma SetRowNames(store: seq<Handler>, version: int, vb: ReqVb, value: Value, rest: Residue, free: nat)
    requires DistinctNames(store)
    ensures DistinctNames(SetRow(store, version, vb, value, rest, free).1)
  {
    hide SetRow;
    forall k | 0 <= k < |store| ensures SetRow(store, version, vb, value, rest, free).1[k].oid == store[k].oid {
      SetRowFrame(store, version, vb, value, rest, free, k);
    }
  }

  lemma SetRowEffect(store: seq<Handler>, version: int, vb: ReqVb, value: Value, rest: Residue, free: nat, k: nat)
    requires k < |store| && DistinctNames(store) && vb.oid == store[k].oid
    ensures SetRow(store, version, vb, value, rest, free).1[k] ==
            if store[k].htype == vb.tag && store[k].settable && value.Simple?
            then SetHandler(store[k], value.p, rest).1 else store[k]
  {
    hide FindFrom, ReadCell, SetHandler;
    FoundAt(store, k);
  }

  lemma FoundAt(store: seq<Handler>, k: nat)
    requires k < |store| && DistinctNames(store)
    ensures FindFrom(Names(store), store[k].oid, false, 0) == Some(k)
  {
    hide FindFrom;
    GetIsExact(Names(store), store[k].oid, 0);
  }

  /** The rows of a GET or GETNEXT, one a varbind, each on its own. */
  lemma {:induction false} GetsAreRows(store: seq<Handler>, version: int, vbs: seq<ReqVb>, next: bool, room: nat,
                                       free: nat)
    requires Gets(store, version, vbs, next, room, free).Some? && free > room
    ensures var rows := Gets(store, version, vbs, next, room, free).value;
            |rows| == |vbs| && forall i :: 0 <= i < |vbs| ==> rows[i] == GetRow(store, version, vbs[i], next, 1)
    decreases vbs
  {
    hide FindFrom, ReadCell, OidOk;
    if vbs != [] {
      var row := GetRow(store, version, vbs[0], next, free);
      assert row == GetRow(store, version, vbs[0], next, 1);
      GetsAreRows(store, version, vbs[1..], next, room - 1, free - Cost(row));
    }
  }

  /** The handler of exactly the requested name is read, under that name; any other name is noSuchObject. */
  lemma GetServes(store: seq<Handler>, version: int, vbs: seq<ReqVb>, room: nat, free: nat)
    requires Gets(store, version, vbs, false, room, free).Some? && free > room && DistinctNames(store)
    ensures var rows := Gets(store, version, vbs, false, room, free).value;
            && |rows| == |vbs|
            && (forall i :: 0 <= i < |vbs| ==> rows[i].oid == vbs[i].oid)
            && (forall i, k :: 0 <= i < |vbs| && 0 <= k < |store| && store[k].oid == vbs[i].oid ==>
                  if ReadCell(store[k]).Some? then rows[i].value == ReadCell(store[k]) && rows[i].error == NO_ERROR
                  else rows[i].value.None? && rows[i].nullTag == NULLTYPE && rows[i].error == GEN_ERR)
            && (forall i :: 0 <= i < |vbs| && (forall k :: 0 <= k < |store| ==> store[k].oid != vbs[i].oid) ==>
                  rows[i].value.None? && rows[i].nullTag == NOSUCHOBJECT && rows[i].error == NO_ERROR)
  {
    hide Gets, FindFrom, ReadCell, DistinctNames;
    GetsAreRows(store, version, vbs, false, room, free);
    var rows := Gets(store, version, vbs, false, room, free).value;
    forall i | 0 <= i < |vbs| ensures rows[i].oid == vbs[i].oid { GetIsExact(Names(store), vbs[i].oid, 0); }
    forall i, k | 0 <= i < |vbs| && 0 <= k < |store| && store[k].oid == vbs[i].oid
      ensures if ReadCell(store[k]).Some? then rows[i].value == ReadCell(store[k]) && rows[i].error == NO_ERROR
              else rows[i].value.None? && rows[i].nullTag == NULLTYPE && rows[i].error == GEN_ERR
    {
      FoundAt(store, k);
    }
    forall i | 0 <= i < |vbs| && (forall k :: 0 <= k < |store| ==> store[k].oid != vbs[i].oid)
      ensures rows[i].value.None? && rows[i].nullTag == NOSUCHOBJECT && rows[i].error == NO_ERROR
    {
      GetIsExact(Names(store), vbs[i].oid, 0);
    }
  }

  /** On a sorted roster GETNEXT serves, under its own name, the least registered name after the requested
      one if that is registered or an ancestor of something registered, or genErr if that handler has no
      value to give; otherwise, or when there is none, it echoes the requested name with endOfMibView. */
  lemma NextServes(store: seq<Handler>, version: int, vbs: seq<ReqVb>, room: nat, free: nat, i: nat, k: nat)
    requires Gets(store, version, vbs, true, room, free).Some? && free > room && Sorted(Names(store))
    requires i < |vbs| && Canonical(vbs[i].oid)
    ensures var rows := Gets(store, version, vbs, true, room, free).value;
            var names := Names(store);
            && |rows| == |vbs|
            && (Anchored(names, vbs[i].oid) && IsNext(names, vbs[i].oid, k) ==>
                  rows[i] == if ReadCell(store[k]).Some? then Planned(names[k], ReadCell(store[k]), 0, NO_ERROR)
                             else Planned(names[k], None, NULLTYPE, GEN_ERR))
            && (!Anchored(names, vbs[i].oid) || (forall j :: 0 <= j < |names| ==> !Before(vbs[i].oid, names[j])) ==>
                  rows[i] == EndRow(vbs[i].oid))
  {
    hide Gets, FindFrom, ReadCell, Sorted, Anchored, Before;
    GetsAreRows(store, version, vbs, true, room, free);
    NextIsSuccessor(Names(store), vbs[i].oid);
    var r := FindFrom(Names(store), vbs[i].oid, true, 0);
    if r.Some? && Anchored(Names(store), vbs[i].oid) { assert IsNext(Names(store), vbs[i].oid, r.value); }
  }

  /** The value survives in the handler's binding: a string has no NUL, an opaque value fills the part of
      the buffer that is served. */
  predicate Survives(h: Handler, p: Prim) {
    match (h.cell, p)
    case (StrCell(_, _), POctets(s)) => 0 !in s
    case (OpaqueCell(data), POpaque(s)) => |s| == |Clamp(data, OCTETS)|
    case _ => true
  }

  /** A value that was set without error is what a read then serves if and only if it survives there. A
      string is cut at a NUL; a short opaque value is served with what the object held behind it. */
  lemma SetThenGet(h: Handler, p: Prim, rest: Residue)
    requires HandlerOk(h) && PrimOk(p) && PrimTag(p) == h.htype
    ensures SetHandler(h, p, rest).0 == NO_ERROR ==>
              (ReadCell(SetHandler(h, p, rest).1) == Some(p) <==> Survives(h, p))
  {
    if p.POctets? && 0 !in p.s { NoNul(p.s); }
    if p.POpaque? && h.cell.OpaqueCell? && |p.s| <= |h.cell.data| {
      var filled := Filled(p.s, |h.cell.data|, rest);
      assert Clamp(filled, OCTETS)[..|p.s|] == filled[..|p.s|] == p.s;
      assert |Clamp(filled, OCTETS)| == |Clamp(h.cell.data, OCTETS)|;
      assert Survives(h, p) ==> Clamp(filled, OCTETS) == p.s;
    }
  }

  lemma {:induction false} NoNul(s: bytes)
    requires 0 !in s
    ensures CStr(s) == s
  {
    if s != [] {
      assert s[0] in s;
      NoNul(s[1..]);
      assert s == [s[0]] + s[1..];
    }
  }

  // ---------------------------------------------------------- reading back

  lemma IntReadsBack(v: int)
    requires Is32(v)
    ensures IntContent(Int4(v)) == v
  {
    IntRoundTrip(v);
  }

  lemma {:induction false} RowsCount(ts: seq<Tlv>)
    ensures |ts| <= PeakAll(ts)
    decreases ts
  {
    if ts != [] { RowsCount(ts[1..]); }
  }

  /** Any reply that fits is accepted by the walk, which finds in it exactly what was written. */
  lemma ReplyReadsBack(q: Request, status: int, index: int, rows: seq<Row>, max: nat, rest: bytes)
    requires 0 <= q.version < 2 && Is32(q.requestID) && Is32(status) && Is32(index)
    requires RowsOk(rows) && |rows| <= VB && Fits(Reply(q, status, index, rows), max) && max < TWO16
    ensures var s := Enc(MessageTlv(Reply(q, status, index, rows))) + rest;
            && Walk(s).Some?
            && RequestOf(s) == Request(q.version, Clamp(q.community, STR), GET_RESPONSE, q.requestID, status, index,
                                       |rows|, RowsRead(rows))
  {
    hide Walk, Read, IntContent, Int4, Enc, Peak, RowsRead, RowsOk, MessageTlv, Clamp;
    var m := Reply(q, status, index, rows);
    IntReadsBack(q.version);
    IntReadsBack(q.requestID);
    IntReadsBack(status);
    IntReadsBack(index);
    PeakBounds(MessageTlv(m));
    MessageRoundTrip(m, rest);
  }

  lemma {:induction false} LastErrorRange(rows: seq<Planned>)
    requires forall i :: 0 <= i < |rows| ==> RowWell(rows[i])
    ensures 0 <= LastError(rows).0 <= NOT_WRITABLE && LastError(rows).1 <= |rows|
    ensures LastError(rows).1 > 0 ==> rows[LastError(rows).1 - 1].error == LastError(rows).0 != NO_ERROR
    ensures forall i :: LastError(rows).1 <= i < |rows| ==> rows[i].error == NO_ERROR
  {
    hide RowWell;
    if rows != [] {
      assert RowWell(rows[|rows| - 1]);
      LastErrorRange(rows[..|rows| - 1]);
      RowRange(rows[|rows| - 1]);
    }
  }

  lemma RowRange(p: Planned)
    requires RowWell(p)
    ensures 0 <= p.error <= NOT_WRITABLE
  {}

  /** The normal answer, read back by the walk: the request's version, id and community, the last
      error, and the planned names and values in order. */
  lemma NormalReadsBack(q: Request, rows: seq<Planned>, max: nat)
    requires 0 <= q.version < 2 && Is32(q.requestID) && RowsWell(rows) && max < TWO16
    requires Fits(NormalReply(q, rows), max)
    ensures var s := Enc(MessageTlv(NormalReply(q, rows)));
            && Walk(s).Some?
            && RequestOf(s) == Request(q.version, Clamp(q.community, STR), GET_RESPONSE, q.requestID,
                                       LastError(rows).0, LastError(rows).1, |rows|, RowsRead(PlannedRows(rows)))
  {
    hide Walk, Read, Enc, Peak, PeakAll, RowsRead, LastError, RequestOf, Clamp, Int4, MessageTlv, RowTlvs, Servable,
         Wrap;
    LastErrorRange(rows);
    var m := NormalReply(q, rows);
    ReplyPeak(q, LastError(rows).0, LastError(rows).1, PlannedRows(rows));
    RowsCount(RowTlvs(PlannedRows(rows)));
    assert RowsOk(PlannedRows(rows));
    ReplyReadsBack(q, LastError(rows).0, LastError(rows).1, PlannedRows(rows), max, []);
    assert Enc(MessageTlv(m)) + [] == Enc(MessageTlv(m));
  }

  lemma WalkedHeader(s: bytes)
    requires Walk(s).Some?
    ensures 0 <= RequestOf(s).version < 2 && Is32(RequestOf(s).requestID)
    ensures Is32(RequestOf(s).errorStatus) && Is32(RequestOf(s).errorIndex)
    ensures |RequestOf(s).vbs| <= RequestOf(s).count
  {
    hide Peek, IntContent, WalkList, ReadVbs;
    var v := Peek(s).value;
    var w := v.Of(s);
    var c := Peek(w[WalkInt(w).value.1..]).value;
    var w2 := c.After(w[WalkInt(w).value.1..]);
    var p := Peek(w2).value.Of(w2);
    PduIntsRange(p);
    var lo, hi, cuts := WalkSound(s);
  }

  lemma PduIntsRange(w: bytes)
    requires PduInts(w).Some?
    ensures var i := PduInts(w).value; Is32(i.requestID) && Is32(i.errorStatus) && Is32(i.errorIndex)
  {
    hide Peek, IntContent;
    var a := WalkInt(w).value.1;
    var b := WalkInt(w[a..]).value.1;
    IntRange(Peek(w).value.Of(w));
    IntRange(Peek(w[a..]).value.Of(w[a..]));
    IntRange(Peek(w[a..][b..]).value.Of(w[a..][b..]));
  }

  /** What the handler stages for a well-formed, permitted request. */
  function StagedFor(cfg: Settings, store: seq<Handler>, memory: Memory, free: nat, s: bytes): Staged
    requires WellFormed(cfg, free, s)
  {
    var q := RequestOf(s);
    var values := DecodeValues(q.vbs, free).value;
    Stage(PermissionOf(cfg, q.community), store, q, values, memory, free - NodesAll(values)).0
  }

  predicate Permitted(cfg: Settings, s: bytes)
    requires Walk(s).Some?
  {
    RequestOf(s).pduType != GET_RESPONSE && PermissionOf(cfg, RequestOf(s).community) != NoPermission
  }

  lemma Answered(cfg: Settings, store: seq<Handler>, memory: Memory, free: nat, s: bytes)
    requires WellFormed(cfg, free, s) && Permitted(cfg, s)
    ensures var o := Handle(cfg, store, memory, free, s);
            (o.code, o.response) == Answer(RequestOf(s), StagedFor(cfg, store, memory, free, s), cfg.max)
  {
    hide Walk, Read, DecodeValues, PermissionOf, Stage, Answer;
  }

  /** Every response octet string the engine leaves behind is accepted by the walk as a GetResponse to
      this request: either the planned rows in order under the last error, or no rows under a global
      error with index 0. */
  lemma ResponseReadsBack(cfg: Settings, store: seq<Handler>, memory: Memory, free: nat, s: bytes)
    requires StoreOk(store) && cfg.max < TWO16 && WellFormed(cfg, free, s) && Permitted(cfg, s)
    ensures var o := Handle(cfg, store, memory, free, s);
            var q := RequestOf(s);
            var staged := StagedFor(cfg, store, memory, free, s);
            var head := Request(q.version, Clamp(q.community, STR), GET_RESPONSE, q.requestID, 0, 0, 0, []);
            && (SNMP_GET_OCCURRED <= o.code <= SNMP_SET_OCCURRED ==>
                  && staged.Rows? && o.code == SuccessCode(q.pduType) && Walk(o.response).Some?
                  && RequestOf(o.response) ==
                     head.(errorStatus := LastError(staged.rows).0, errorIndex := LastError(staged.rows).1,
                           count := |staged.rows|, vbs := RowsRead(PlannedRows(staged.rows))))
            && (o.code == SNMP_ERROR_PACKET_SENT ==>
                  Walk(o.response).Some?
                  && RequestOf(o.response) == head.(errorStatus := if staged.Global? then staged.error else TOO_BIG))
  {
    hide Walk, Read, DecodeValues, PermissionOf, Stage, Fits, Enc, RowsWell, LastError, RowsRead, RequestOf, StagedFor;
    Answered(cfg, store, memory, free, s);
    WalkedHeader(s);
    var q := RequestOf(s);
    var staged := StagedFor(cfg, store, memory, free, s);
    StagedWell(cfg, store, memory, free, s);
    StagedForSuccess(cfg, store, memory, free, s);
    if staged.Rows? && Fits(NormalReply(q, staged.rows), cfg.max) {
      NormalReadsBack(q, staged.rows, cfg.max);
    } else {
      var e := if staged.Global? then staged.error else TOO_BIG;
      if Fits(ErrorReply(q, e), cfg.max) { ErrorReadsBack(q, e, cfg.max); }
    }
  }

  lemma StagedForSuccess(cfg: Settings, store: seq<Handler>, memory: Memory, free: nat, s: bytes)
    requires WellFormed(cfg, free, s)
    ensures StagedFor(cfg, store, memory, free, s).Rows? ==>
              SNMP_GET_OCCURRED <= SuccessCode(RequestOf(s).pduType) <= SNMP_SET_OCCURRED
  {
    hide Walk, Read, PermissionOf, Stage, DecodeValues, SuccessCode;
    var q := RequestOf(s);
    var values := DecodeValues(q.vbs, free).value;
    StagedSuccess(PermissionOf(cfg, q.community), store, q, values, memory, free - NodesAll(values));
  }

  lemma ErrorReadsBack(q: Request, e: int, max: nat)
    requires 0 <= q.version < 2 && Is32(q.requestID) && Is32(e) && Fits(ErrorReply(q, e), max) && max < TWO16
    ensures var s := Enc(MessageTlv(ErrorReply(q, e)));
            && Walk(s).Some?
            && RequestOf(s) == Request(q.version, Clamp(q.community, STR), GET_RESPONSE, q.requestID, e, 0, 0, [])
  {
    hide Walk, Read, Enc, Peak, RequestOf;
    ReplyReadsBack(q, e, 0, [], max, []);
    assert Enc(MessageTlv(ErrorReply(q, e))) + [] == Enc(MessageTlv(ErrorReply(q, e)));
  }

  lemma StagedWell(cfg: Settings, store: seq<Handler>, memory: Memory, free: nat, s: bytes)
    requires StoreOk(store) && WellFormed(cfg, free, s)
    ensures var staged := StagedFor(cfg, store, memory, free, s);
            (staged.Rows? ==> RowsWell(staged.rows)) && (staged.Global? ==> Is32(staged.error))
  {
    hide Walk, Read, PermissionOf, Gets, Bulk, Sets, RowsWell, DecodeValues, StoreOk;
    var q := RequestOf(s);
    var values := DecodeValues(q.vbs, free).value;
    DecodedTyped(q.vbs, free);
    StageWell(PermissionOf(cfg, q.community), store, q, values, memory, free - NodesAll(values));
  }

  // ---------------------------------------------------------------- capacity

  /** A well-formed, permitted request goes unanswered exactly when not even the empty error response
      fits, and that needs 36 octets and the community's own TLV. So 40 octets and the community are
      always enough for communities of up to 256 octets. */
  lemma AlwaysAnswered(cfg: Settings, store: seq<Handler>, memory: Memory, free: nat, s: bytes)
    requires WellFormed(cfg, free, s) && Permitted(cfg, s)
    ensures var o := Handle(cfg, store, memory, free, s);
            var community := Clamp(RequestOf(s).community, STR);
            && (o.code == SNMP_FAILED_SERIALISATION <==> cfg.max < 36 + |Wrap(STRING, community)|)
            && (o.code != SNMP_FAILED_SERIALISATION ==> o.code >= SNMP_GET_OCCURRED && 0 < |o.response| <= cfg.max)
            && (|RequestOf(s).community| <= 256 && cfg.max >= 40 + |RequestOf(s).community| ==>
                  o.code != SNMP_FAILED_SERIALISATION)
  {
    hide Walk, Read, DecodeValues, PermissionOf, StagedFor, Enc, Peak, PeakAll, LastError, RequestOf, LenBytes;
    Answered(cfg, store, memory, free, s);
    var q := RequestOf(s);
    var staged := StagedFor(cfg, store, memory, free, s);
    WrapLen(STRING, Clamp(q.community, STR));
    var e := if staged.Global? then staged.error else TOO_BIG;
    ReplyPeak(q, e, 0, []);
    NoRowsPeak();
    PeakBounds(MessageTlv(ErrorReply(q, e)));
    EncStart(MessageTlv(ErrorReply(q, e)));
    if staged.Rows? {
      ReplyPeak(q, LastError(staged.rows).0, LastError(staged.rows).1, PlannedRows(staged.rows));
      PeakBounds(MessageTlv(NormalReply(q, staged.rows)));
      EncStart(MessageTlv(NormalReply(q, staged.rows)));
    }
  }

  /** Version 1 statuses stay within 0 to 5, with one exception: a SET under the read-only community is
      refused with noAccess whatever the version. */
  lemma VersionOneStatus(cfg: Settings, store: seq<Handler>, memory: Memory, free: nat, s: bytes)
    requires WellFormed(cfg, free, s) && Permitted(cfg, s) && RequestOf(s).version == 0
    ensures var staged := StagedFor(cfg, store, memory, free, s);
            var status := if staged.Global? then staged.error else LastError(staged.rows).0;
            status > GEN_ERR <==>
            RequestOf(s).pduType == SET_REQUEST && PermissionOf(cfg, RequestOf(s).community) == ReadOnly
  {
    hide Walk, Read, DecodeValues, PermissionOf, LastError, RequestOf, Gets, Sets, Bulk;
    var q := RequestOf(s);
    var values := DecodeValues(q.vbs, free).value;
    var left: nat := free - NodesAll(values);
    var next := q.pduType == GETNEXT_REQUEST;
    GetsV1(store, q.vbs, next, VB, left);
    SetsV1(store, q.vbs, values, memory, 0, VB, left);
    if Gets(store, 0, q.vbs, next, VB, left).Some? { LastErrorV1(Gets(store, 0, q.vbs, next, VB, left).value); }
    if Sets(store, 0, q.vbs, values, memory, 0, VB, left).0.Some? {
      LastErrorV1(Sets(store, 0, q.vbs, values, memory, 0, VB, left).0.value);
    }
  }

  predicate V1(rows: seq<Planned>) { forall i :: 0 <= i < |rows| ==> rows[i].error <= GEN_ERR }

  lemma {:induction false} LastErrorV1(rows: seq<Planned>)
    requires V1(rows)
    ensures LastError(rows).0 <= GEN_ERR
  {
    if rows != [] { LastErrorV1(rows[..|rows| - 1]); }
  }

  lemma {:induction false} GetsV1(store: seq<Handler>, vbs: seq<ReqVb>, next: bool, room: nat, free: nat)
    ensures Gets(store, 0, vbs, next, room, free).Some? ==> V1(Gets(store, 0, vbs, next, room, free).value)
    decreases vbs
  {
    hide FindFrom, ReadCell, OidOk;
    if vbs != [] && room > 0 {
      GetsV1(store, vbs[1..], next, room - 1, free - Cost(GetRow(store, 0, vbs[0], next, free)));
    }
  }

  lemma {:induction false} SetsV1(store: seq<Handler>, vbs: seq<ReqVb>, values: seq<Value>, memory: Memory, at: nat,
                                  room: nat, free: nat)
    requires |values| == |vbs|
    ensures var r := Sets(store, 0, vbs, values, memory, at, room, free).0; r.Some? ==> V1(r.value)
    decreases vbs
  {
    hide SetRow, Sets, OidOk;
    if vbs == [] {
      SetsDone(store, 0, memory, at, room, free);
    } else {
      SetsUnfold(store, 0, vbs, values, memory, at, room, free);
      SetRowV1(store, vbs[0], values[0], memory(at), free);
      var (row, next) := SetRow(store, 0, vbs[0], values[0], memory(at), free);
      if room > 0 { SetsV1(next, vbs[1..], values[1..], memory, at + 1, room - 1, free - Cost(row)); }
    }
  }

  lemma SetRowV1(store: seq<Handler>, vb: ReqVb, value: Value, rest: Residue, free: nat)
    ensures SetRow(store, 0, vb, value, rest, free).0.error <= GEN_ERR
  {
    hide FindFrom, ReadCell, SetHandler;
  }
}
