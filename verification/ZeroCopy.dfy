/** The zero-copy request engine: the response overwrites the very octets the request slices point
    into, and yet equals the pure handler applied to the packet as it was on entry. */
module ZeroCopy {
  import opened Bytes
  import opened Ber
  import opened Caps
  import opened Containers
  import opened BerView
  import opened Roster
  import opened Pool
  import opened Writer
  import opened Handling
  import opened PlanFacts
  import opened ResponseWriter
  import opened Staging
  import ContainerPool

  // ---------------------------------------------------------------- phase B

  /** writeValue: the value's own serialiser into a slot-sized scratch, then copied out. */
  method WriteValue(w: BerWriter, p: Prim) returns (ok: bool)
    requires w.Valid() && !w.failed && Servable(p)
    modifies w, w.base
    ensures w.Valid() && w.Beyond() == old(w.Beyond())
    ensures ok == (old(w.pos) + |Enc(PrimTlv(p))| <= w.cap) == !w.failed
    ensures ok ==> w.Written() == old(w.Written()) + Enc(PrimTlv(p))
  {
    var scratch := new byte[SLOT_SIZE + 2];
    var used := SerialisePrim(scratch, 0, SLOT_SIZE, p);
    if used <= 0 { return false; }
    ok := w.PutBytes(scratch[..used]);
  }

  method WriteRow(w: BerWriter, item: Planned) returns (ok: bool)
    requires w.Valid() && !w.failed && RowWell(item)
    modifies w, w.base
    ensures w.Valid() && w.Beyond() == old(w.Beyond())
    ensures ok == (old(w.pos) + Peak(RowTlv(PlannedRow(item))) <= w.cap) == !w.failed
    ensures ok ==> w.Written() == old(w.Written()) + Enc(RowTlv(PlannedRow(item)))
  {
    hide Enc, Peak, Servable, LenBytes;
    ghost var r := PlannedRow(item);
    ghost var before := w.Written();
    RowPeak(r);
    RowEnc(r);
    ShortName(item.oid);
    LeafEnc(Leaf(r.tag, r.content));
    var varbind;
    ok, varbind := w.BeginScope(STRUCTURE);
    if !ok { return; }
    ok := w.PutBytes([OID, |item.oid|] + item.oid);
    if !ok { return; }
    if item.value.Some? {
      ok := WriteValue(w, item.value.value);
    } else {
      ok := w.PutNull(item.nullTag);
      NullLen(item.nullTag);
    }
    if !ok { return; }
    Assoc(Opened(before, STRUCTURE), Wrap(OID, r.oid), Wrap(r.tag, r.content));
    Closing(before, STRUCTURE, RowInner(r));
    ok := w.EndScope(varbind);
  }

  lemma ShortName(oid: bytes)
    requires OidOk(oid)
    ensures [OID, |oid|] + oid == Wrap(OID, oid)
  {}

  lemma NullLen(tag: byte)
    ensures |Wrap(tag, [])| == 2
  {}

  /** writeNormalResponse */
  method WriteNormalResponse(buffer: array<byte>, max: nat, version: int, rid: int, community: bytes,
                             plan: ResponsePlan, ghost q: Request)
    returns (ok: bool, length: nat)
    requires max <= buffer.Length && max < TWO16 && plan.Valid() && buffer as object != plan.varbinds
    requires RowsWell(plan.Rows())
    requires version == q.version && rid == q.requestID && community == Clamp(q.community, STR)
    modifies buffer
    ensures ok == Fits(NormalReply(q, plan.Rows()), max)
    ensures ok ==> length <= max && buffer[..length] == Enc(MessageTlv(NormalReply(q, plan.Rows())))
    ensures buffer[max..] == old(buffer[max..])
  {
    hide Enc, Peak, PeakAll, ToPdu, ToList, RowsWell, EncAll, LastError, RowTlvs, RowsOf, Wrap;
    ghost var rows := plan.Rows();
    ghost var m := NormalReply(q, rows);
    NoErrorIndex(rows);
    ReplyPeak(q, LastError(rows).0, LastError(rows).1, PlannedRows(rows));
    length := 0;
    var index := if plan.lastError == NO_ERROR then 0 else plan.lastErrorIndex;
    var w := new BerWriter(buffer, max);
    var root, pdu, list;
    ok, root, pdu, list := WriteEnvelopeHeader(w, version, rid, community, plan.lastError, index);
    if !ok { return; }
    ToListLen(version, community, rid, plan.lastError, index);
    assert w.pos == Envelope(community);
    ok := WriteRows(w, plan, rows);
    if !ok { return; }
    ok := CloseEnvelope(w, root, pdu, list, m, version, rid, plan.lastError, index);
    length := w.pos;
  }

  lemma {:induction false} NoErrorIndex(rows: seq<Planned>)
    ensures LastError(rows).0 == NO_ERROR ==> LastError(rows).1 == 0
  {
    if rows != [] { NoErrorIndex(rows[..|rows| - 1]); }
  }

  /** The row loop. */
  method WriteRows(w: BerWriter, plan: ResponsePlan, ghost rows: seq<Planned>) returns (ok: bool)
    requires w.Valid() && !w.failed && plan.Valid() && rows == plan.Rows() && RowsWell(rows)
    requires w.base as object != plan.varbinds
    modifies w, w.base
    ensures w.Valid() && w.Beyond() == old(w.Beyond())
    ensures ok == (old(w.pos) + PeakAll(RowTlvs(PlannedRows(rows))) <= w.cap) == !w.failed
    ensures ok ==> w.Written() == old(w.Written()) + EncAll(RowTlvs(PlannedRows(rows)))
  {
    hide Enc, Peak, PeakAll, RowsWell, RowWell, EncAll, LastError, RowTlv, RowTlvs, PlannedRow, PlannedRows;
    var i := 0;
    ghost var start := w.Written();
    ghost var ts := RowTlvs(PlannedRows(rows));
    TreeCount(rows);
    assert ts[0..] == ts && ts[..0] == [] && start + [] == start;
    EncNone();
    while i < plan.count
      invariant 0 <= i <= plan.count == |ts| && w.Valid() && !w.failed && w.Beyond() == old(w.Beyond())
      invariant w.Written() == start + EncAll(ts[..i])
      invariant |start| + PeakAll(ts) <= w.cap <==> w.pos + PeakAll(ts[i..]) <= w.cap
    {
      RestPeak(ts, i, w.pos, w.cap);
      TreeAt(rows, i);
      ok := WriteRow(w, plan.varbinds[i].row);
      if !ok { return; }
      EncNext(ts, i);
      Assoc(start, EncAll(ts[..i]), Enc(ts[i]));
      i := i + 1;
    }
    assert ts[i..] == [] && ts[..i] == ts;
    EncNone();
    return true;
  }

  lemma TreeCount(rows: seq<Planned>)
    ensures |RowTlvs(PlannedRows(rows))| == |rows|
  {}

  lemma TreeAt(rows: seq<Planned>, i: nat)
    requires RowsWell(rows) && i < |rows|
    ensures |RowTlvs(PlannedRows(rows))| == |rows| && RowTlvs(PlannedRows(rows))[i] == RowTlv(PlannedRow(rows[i]))
    ensures RowWell(rows[i])
  {}

  lemma EncNone()
    ensures EncAll([]) == [] && PeakAll([]) == 0
  {}

  lemma EncNext(ts: seq<Tlv>, i: nat)
    requires i < |ts|
    ensures EncAll(ts[..i + 1]) == EncAll(ts[..i]) + Enc(ts[i])
  {
    assert ts[..i + 1] == ts[..i] + [ts[i]] && [ts[i]][1..] == [];
    EncAllConcat(ts[..i], [ts[i]]);
    assert EncAll([ts[i]]) == Enc(ts[i]) + EncAll([]);
  }

  /** Writing one more tree succeeds if the rest fits, and then what is left still has to fit. */
  lemma RestPeak(ts: seq<Tlv>, i: nat, pos: nat, cap: nat)
    requires i < |ts|
    ensures pos + PeakAll(ts[i..]) <= cap <==>
            pos + Peak(ts[i]) <= cap && pos + |Enc(ts[i])| + PeakAll(ts[i + 1..]) <= cap
  {
    assert ts[i..][1..] == ts[i + 1..];
  }

  /** Phase B as a whole: the planned response, else the small error response, else nothing. */
  method WriteResponse(buffer: array<byte>, max: nat, request: HeaderView, community: bytes, plan: ResponsePlan,
                       globalError: Option<int>, success: int, ghost q: Request, ghost staged: Staged)
    returns (code: int, length: nat)
    requires max <= buffer.Length && max < TWO16 && plan.Valid() && buffer as object != plan.varbinds
    requires request.version == q.version && request.requestID == q.requestID && community == Clamp(q.community, STR)
    requires success == SuccessCode(q.pduType)
    requires if globalError.Some? then staged == Global(globalError.value)
             else staged == Rows(plan.Rows()) && RowsWell(plan.Rows())
    modifies buffer
    ensures length <= buffer.Length && (code, buffer[..length]) == Answer(q, staged, max)
    ensures buffer[max..] == old(buffer[max..])
  {
    hide Fits, Enc, RowWell, LastError;
    ErrorFits(q, max);
    var ok;
    if globalError.Some? {
      ok, length := WriteErrorResponse(buffer, max, request.version, request.requestID, community, globalError.value,
                                       q);
      if ok { return SNMP_ERROR_PACKET_SENT, length; }
      ok, length := WriteErrorResponse(buffer, max, request.version, request.requestID, community, TOO_BIG, q);
      if ok { return SNMP_ERROR_PACKET_SENT, length; }
      return SNMP_FAILED_SERIALISATION, 0;
    }
    ok, length := WriteNormalResponse(buffer, max, request.version, request.requestID, community, plan, q);
    if ok { return success, length; }
    ok, length := WriteErrorResponse(buffer, max, request.version, request.requestID, community, TOO_BIG, q);
    if ok { return SNMP_ERROR_PACKET_SENT, length; }
    return SNMP_FAILED_SERIALISATION, 0;
  }

  /** Error responses are all of one size. */
  lemma ErrorFits(q: Request, max: nat)
    ensures forall e :: Fits(ErrorReply(q, e), max) <==> Envelope(Clamp(q.community, STR)) <= max
  {
    hide Peak, PeakAll, Enc;
    NoRowsPeak();
    forall e ensures Peak(MessageTlv(ErrorReply(q, e))) == Envelope(Clamp(q.community, STR)) {
      ReplyPeak(q, e, 0, []);
    }
  }

  // ---------------------------------------------------------------- phase A

  /** The switch over the PDU types. */
  method StageRequest(pool: ASNPool, plan: ResponsePlan, callbacks: seq<ValueCallback>, buffer: array<byte>,
                      request: HeaderView, permission: Permission, values: seq<Value>, memory: Memory, ghost q: Request,
                      ghost b: Books)
    returns (globalError: Option<int>, success: int, ghost rows: seq<Planned>)
    requires Balanced(pool, plan, b, [], []) && Apart(buffer, b, plan)
    requires |values| == |q.vbs| == |request.vbs| && Typed(q.vbs, values) && Reads(buffer, request.vbs, q.vbs)
    requires q.pduType == request.pduType && q.version == request.version
    requires q.errorStatus == request.errorStatus && q.errorIndex == request.errorIndex
    requires Distinct(callbacks) && StoreOk(Snapshot(callbacks))
    modifies pool, pool.slots, plan, plan.varbinds, callbacks
    ensures Balanced(pool, plan, b, rows, []) && Room(b, []) >= 0 && success == SuccessCode(q.pduType)
    ensures var (staged, store) := Stage(permission, old(Snapshot(callbacks)), q, values, memory, Room(b, []));
            && Snapshot(callbacks) == store
            && staged == if globalError.Some? then Global(globalError.value) else Rows(rows)
  {
    hide Balanced, Gets, Bulk, Sets, Reads, Typed, Distinct, StoreOk, Room;
    BalancedRoom(pool, plan, b, []);
    var ok := true;
    globalError, success, rows := Some(GEN_ERR), SNMP_ERROR_PACKET_SENT, [];
    if request.pduType == GET_REQUEST || request.pduType == GETNEXT_REQUEST {
      ok, rows := StageGet(pool, plan, callbacks, buffer, request, request.pduType == GETNEXT_REQUEST, q.vbs, b);
      globalError := if ok then None else Some(TOO_BIG);
      success := if request.pduType == GET_REQUEST then SNMP_GET_OCCURRED else SNMP_GETNEXT_OCCURRED;
    } else if request.pduType == GETBULK_REQUEST {
      if request.version == 1 {
        ok, rows := StageGetBulk(pool, plan, callbacks, buffer, request, q, b);
        globalError := if ok then None else Some(TOO_BIG);
      }
      success := SNMP_GETBULK_OCCURRED;
    } else if request.pduType == SET_REQUEST {
      if permission != ReadWrite {
        globalError := Some(NO_ACCESS);
      } else {
        ok, rows := StageSet(pool, plan, callbacks, buffer, request, values, memory, q.vbs, b);
        globalError := if ok then None else Some(TOO_BIG);
      }
      success := SNMP_SET_OCCURRED;
    }
  }

  // ------------------------------------------------------------- the engine

  /** The slices of an accepted packet, as long as the buffer holds it. */
  lemma ReadsFromWalk(buffer: array<byte>, n: nat)
    requires n <= buffer.Length && n < TWO16 && Walk(buffer[..n]).Some?
    ensures var s := buffer[..n];
            var h := Walk(s).value;
            && Reads(buffer, h.vbs, ReadVbs(s, h.vbs)) && |h.vbs| <= h.count
            && h.community.In(buffer[..]) && Cut(s, h.community) == h.community.Of(buffer[..])
  {
    hide Walk, Tiles;
    var s := buffer[..n];
    var h := Walk(s).value;
    var lo, hi, cuts := WalkSound(s);
    SliceOf(buffer, n, h.community);
    forall i | 0 <= i < |h.vbs| ensures ReadsOne(buffer, h.vbs[i], ReadVb(s, h.vbs[i])) {
      CutsBounded(s, lo, hi, cuts, i + 1);
      assert Within(h.vbs[i], cuts[i], cuts[i + 1]);
      SliceOf(buffer, n, h.vbs[i].oid);
      SliceOf(buffer, n, h.vbs[i].tlv);
    }
  }

  lemma SliceOf(buffer: array<byte>, n: nat, v: Slice)
    requires n <= buffer.Length && v.at + v.len <= n
    ensures v.In(buffer[..n]) && v.In(buffer[..]) && v.Of(buffer[..]) == Cut(buffer[..n], v)
  {}

  lemma {:induction false} CutsBounded(s: bytes, lo: nat, hi: nat, cuts: seq<nat>, i: nat)
    requires Tiles(s, lo, hi, cuts) && i < |cuts|
    ensures cuts[i] <= |s|
  {
    if i + 1 < |cuts| { assert OneTlv(s, cuts[i], cuts[i + 1]); }
  }

  predicate SameHeader(q: Request, h: HeaderView) {
    && q.version == h.version && q.pduType == h.pduType && q.requestID == h.requestID
    && q.errorStatus == h.errorStatus && q.errorIndex == h.errorIndex
  }

  /** A permitted request: phase A into a plan, phase B over the buffer, and the plan's destructor. */
  method AnswerInPlace(buffer: array<byte>, max: nat, request: HeaderView, communityWire: bytes, permission: Permission,
                       values: seq<Value>, memory: Memory, callbacks: seq<ValueCallback>, pool: ASNPool,
                       ghost q: Request, ghost base: set<nat>, ghost used: nat, ghost owned: seq<nat>)
    returns (code: int, length: nat)
    requires max <= buffer.Length && max < TWO16 && buffer as object != pool.slots
    requires pool.Holds(base, used, owned) && used + |owned| <= pool.slots.Length
    requires |values| == |q.vbs| == |request.vbs| && Typed(q.vbs, values) && NamesOk(q.vbs)
    requires Reads(buffer, request.vbs, q.vbs) && SameHeader(q, request) && communityWire == Clamp(q.community, STR)
    requires Distinct(callbacks) && StoreOk(Snapshot(callbacks))
    modifies buffer, pool, pool.slots, callbacks
    ensures pool.slots == old(pool.slots) && pool.Holds(base, used, owned)
    ensures pool.doubleReleaseAlarms == old(pool.doubleReleaseAlarms)
    ensures pool.usedCountPeak <= Max(old(pool.usedCountPeak), used + |owned| + VB + 1)
    ensures buffer[max..] == old(buffer[max..]) && length <= buffer.Length
    ensures var free := pool.slots.Length - used - |owned|;
            var (staged, store) := Stage(permission, old(Snapshot(callbacks)), q, values, memory, free);
            Snapshot(callbacks) == store && (code, buffer[..length]) == Answer(q, staged, max)
  {
    hide ASNPool.Holds, Balanced, Stage, Answer, Reads, Typed, NamesOk, StoreOk, Distinct, RowsWell, Clamp, SuccessCode;
    var plan, globalError, success;
    ghost var b, rows, staged;
    plan, globalError, success, b, rows, staged :=
      StagePlan(buffer, request, permission, values, memory, callbacks, pool, q, base, used, owned);
    code, length := WriteAndDrop(buffer, max, request, communityWire, pool, plan, globalError, success, q, staged, b,
                                 rows);
  }

  /** Phase A into a fresh plan. */
  method StagePlan(buffer: array<byte>, request: HeaderView, permission: Permission, values: seq<Value>, memory: Memory,
                   callbacks: seq<ValueCallback>, pool: ASNPool, ghost q: Request,
                   ghost base: set<nat>, ghost used: nat, ghost owned: seq<nat>)
    returns (plan: ResponsePlan, globalError: Option<int>, success: int, ghost b: Books, ghost rows: seq<Planned>,
             ghost staged: Staged)
    requires buffer as object != pool.slots
    requires pool.Holds(base, used, owned) && used + |owned| <= pool.slots.Length
    requires |values| == |q.vbs| == |request.vbs| && Typed(q.vbs, values) && NamesOk(q.vbs)
    requires Reads(buffer, request.vbs, q.vbs) && SameHeader(q, request)
    requires Distinct(callbacks) && StoreOk(Snapshot(callbacks))
    modifies pool, pool.slots, callbacks
    ensures pool.slots == old(pool.slots) && fresh(plan) && fresh(plan.varbinds)
    ensures b == Books(pool.slots, base, used, owned, old(pool.usedCountPeak), old(pool.doubleReleaseAlarms))
    ensures Balanced(pool, plan, b, rows, []) && Apart(buffer, b, plan) && success == SuccessCode(q.pduType)
    ensures if globalError.Some? then staged == Global(globalError.value) else staged == Rows(rows) && RowsWell(rows)
    ensures (staged, Snapshot(callbacks)) ==
            Stage(permission, old(Snapshot(callbacks)), q, values, memory, pool.slots.Length - used - |owned|)
  {
    hide ASNPool.Holds, Balanced, Room, Stage, Reads, Typed, NamesOk, StoreOk, Distinct, RowsWell, SuccessCode,
         LastError;
    plan := new ResponsePlan();
    ghost var store := Snapshot(callbacks);
    b := Books(pool.slots, base, used, owned, pool.usedCountPeak, pool.doubleReleaseAlarms);
    BooksOpen(pool, plan, b);
    globalError, success, rows := StageRequest(pool, plan, callbacks, buffer, request, permission, values, memory, q,
                                               b);
    BooksRead(pool, plan, b, rows);
    staged := Stage(permission, store, q, values, memory, Room(b, [])).0;
    StageWell(permission, store, q, values, memory, Room(b, []));
  }

  /** Phase B, then the destructor of the plan. */
  method WriteAndDrop(buffer: array<byte>, max: nat, request: HeaderView, communityWire: bytes, pool: ASNPool,
                      plan: ResponsePlan, globalError: Option<int>, success: int, ghost q: Request,
                      ghost staged: Staged, ghost b: Books, ghost rows: seq<Planned>)
    returns (code: int, length: nat)
    requires max <= buffer.Length && max < TWO16 && Balanced(pool, plan, b, rows, []) && Apart(buffer, b, plan)
    requires SameHeader(q, request) && communityWire == Clamp(q.community, STR) && success == SuccessCode(q.pduType)
    requires if globalError.Some? then staged == Global(globalError.value) else staged == Rows(rows) && RowsWell(rows)
    modifies buffer, pool, pool.slots
    ensures pool.slots == old(pool.slots) && pool.Holds(b.base, b.used, b.owned)
    ensures pool.doubleReleaseAlarms == b.alarms && pool.usedCountPeak <= Max(b.peak, b.used + |b.owned| + VB + 1)
    ensures buffer[max..] == old(buffer[max..]) && length <= buffer.Length
            && (code, buffer[..length]) == Answer(q, staged, max)
  {
    hide ASNPool.Holds, Balanced, Answer, RowsWell, Clamp, SuccessCode;
    BooksRead(pool, plan, b, rows);
    code, length := WriteResponse(buffer, max, request, communityWire, plan, globalError, success, q, staged);
    ghost var written := buffer[..];
    DropPlan(pool, plan, b, rows);
    assert buffer[..] == written;
  }

  lemma BooksOpen(pool: ASNPool, plan: ResponsePlan, b: Books)
    requires plan.Valid() && plan.Rows() == [] && plan.Slots() == [] && b.slots == pool.slots
    requires pool.Holds(b.base, b.used, b.owned)
    requires b.peak == pool.usedCountPeak && b.alarms == pool.doubleReleaseAlarms
    ensures Balanced(pool, plan, b, [], []) && Room(b, []) == pool.slots.Length - b.used - |b.owned|
  {
    hide ASNPool.Holds, LastError;
    assert b.owned + [] + [] == b.owned;
  }

  lemma BooksRead(pool: ASNPool, plan: ResponsePlan, b: Books, rows: seq<Planned>)
    requires Balanced(pool, plan, b, rows, [])
    ensures plan.Valid() && plan.Rows() == rows && pool.slots == b.slots && pool.doubleReleaseAlarms == b.alarms
    ensures pool.usedCountPeak <= Max(b.peak, b.used + |b.owned| + VB + 1)
  {}

  /** The permission of a community on the wire, compared as a C string. */
  method PermissionInPlace(cfg: Settings, community: bytes) returns (permission: Permission)
    ensures permission == PermissionOf(cfg, community)
  {
    var communityText := if |community| > COMMUNITY then [] else CStr(community);
    permission := NoPermission;
    if cfg.readOnly.Some? && CStr(cfg.readOnly.value) != [] && CStr(cfg.readOnly.value) == communityText {
      permission := ReadOnly;
    }
    if cfg.readWrite.Some? && CStr(cfg.readWrite.value) == communityText { permission := ReadWrite; }
  }

  /** What follows the decode pass: callbacks answered, permission checked, phase A, phase B. */
  method DispatchInPlace(buffer: array<byte>, max: nat, request: HeaderView, values: seq<Value>, memory: Memory,
                         callbacks: seq<ValueCallback>, cfg: Settings, pool: ASNPool, ghost q: Request,
                         ghost base: set<nat>, ghost used: nat, ghost owned: seq<nat>)
    returns (code: int, length: nat, acked: Option<(int, bool)>)
    requires max == cfg.max <= buffer.Length && max < TWO16 && buffer as object != pool.slots
    requires pool.Holds(base, used, owned) && used + |owned| <= pool.slots.Length
    requires |values| == |q.vbs| == |request.vbs| && Typed(q.vbs, values) && NamesOk(q.vbs)
    requires Reads(buffer, request.vbs, q.vbs)
    requires request.community.In(buffer[..]) && q.community == request.community.Of(buffer[..])
    requires SameHeader(q, request)
    requires Distinct(callbacks) && StoreOk(Snapshot(callbacks))
    modifies buffer, pool, pool.slots, callbacks
    ensures pool.slots == old(pool.slots) && pool.Holds(base, used, owned)
    ensures pool.doubleReleaseAlarms == old(pool.doubleReleaseAlarms)
    ensures pool.usedCountPeak <= Max(old(pool.usedCountPeak), used + |owned| + VB + 1)
    ensures buffer[max..] == old(buffer[max..]) && length <= buffer.Length
    ensures Outcome(code, buffer[..length], Snapshot(callbacks), acked) ==
            Dispatch(cfg, old(Snapshot(callbacks)), q, values, memory, pool.slots.Length - used - |owned|)
  {
    hide ASNPool.Holds, Stage, Answer, PermissionOf, Reads, Typed, NamesOk, StoreOk, Distinct, RowsWell;
    length, acked := 0, None;
    if request.pduType == GET_RESPONSE {
      acked := if cfg.informCallback then Some((U32(request.requestID), request.errorStatus == 0)) else None;
      return SNMP_INFORM_RESPONSE_OCCURRED, length, acked;
    }
    var at, len := request.community.at, request.community.len;
    var community := buffer[at..at + len];
    assert community == q.community;
    var communityWire := Clamp(community, STR);
    var permission := PermissionInPlace(cfg, community);
    if permission == NoPermission { return SNMP_REQUEST_INVALID_COMMUNITY, length, acked; }
    code, length := AnswerInPlace(buffer, max, request, communityWire, permission, values, memory, callbacks, pool, q,
                                  base, used, owned);
  }

  /** The destructor of decoded[], which touches neither the response nor the handlers. */
  method DropDecoded(pool: ASNPool, owners: seq<Owner>, ghost buffer: array<byte>, ghost callbacks: seq<ValueCallback>,
                     ghost base: set<nat>, ghost used: nat)
    requires pool.Holds(base, used, FlatAll(owners)) && buffer as object != pool.slots
    modifies pool, pool.slots
    ensures pool.slots == old(pool.slots) && pool.Holds(base, used, [])
    ensures pool.usedCountPeak == old(pool.usedCountPeak) && pool.doubleReleaseAlarms == old(pool.doubleReleaseAlarms)
    ensures buffer[..] == old(buffer[..]) && Snapshot(callbacks) == old(Snapshot(callbacks))
  {
    hide ASNPool.Holds, FlatAll;
    DropValues(pool, owners, base, used);
  }

  /** The answer to a request whose values decoded, and the destructor of decoded[]. */
  method DispatchAndDrop(buffer: array<byte>, max: nat, request: HeaderView, values: seq<Value>, owners: seq<Owner>,
                         memory: Memory, callbacks: seq<ValueCallback>, cfg: Settings, pool: ASNPool, ghost q: Request,
                         ghost base: set<nat>, ghost used: nat)
    returns (code: int, length: nat, acked: Option<(int, bool)>)
    requires max == cfg.max <= buffer.Length && max < TWO16 && buffer as object != pool.slots
    requires pool.Holds(base, used, FlatAll(owners)) && used + |FlatAll(owners)| <= pool.slots.Length
    requires |values| == |q.vbs| == |request.vbs| && Typed(q.vbs, values) && NamesOk(q.vbs)
    requires Reads(buffer, request.vbs, q.vbs)
    requires request.community.In(buffer[..]) && q.community == request.community.Of(buffer[..])
    requires SameHeader(q, request)
    requires Distinct(callbacks) && StoreOk(Snapshot(callbacks))
    modifies buffer, pool, pool.slots, callbacks
    ensures pool.slots == old(pool.slots) && pool.Holds(base, used, [])
    ensures pool.doubleReleaseAlarms == old(pool.doubleReleaseAlarms)
    ensures pool.usedCountPeak <= Max(old(pool.usedCountPeak), used + |FlatAll(owners)| + VB + 1)
    ensures buffer[max..] == old(buffer[max..]) && length <= buffer.Length
    ensures Outcome(code, buffer[..length], Snapshot(callbacks), acked) ==
            Dispatch(cfg, old(Snapshot(callbacks)), q, values, memory, pool.slots.Length - used - |FlatAll(owners)|)
  {
    hide Dispatch, Reads, Typed, NamesOk, ASNPool.Holds, StoreOk, Distinct, FlatAll, SameHeader;
    code, length, acked :=
      DispatchInPlace(buffer, max, request, values, memory, callbacks, cfg, pool, q, base, used, FlatAll(owners));
    DropDecoded(pool, owners, buffer, callbacks, base, used);
  }

  lemma AfterDecode(cfg: Settings, store: seq<Handler>, q: Request, memory: Memory, free: nat)
    ensures var r := DecodeValues(q.vbs, free);
            && (r.None? ==>
                  DecodeThenDispatch(cfg, store, q, memory, free) == Outcome(SNMP_REQUEST_INVALID, [], store, None))
            && (r.Some? ==>
                  && Typed(q.vbs, r.value) && NamesOk(q.vbs) && |r.value| == |q.vbs| && NodesAll(r.value) <= free
                  && (AllPrim(q.vbs) ==> NodesAll(r.value) == |q.vbs|)
                  && DecodeThenDispatch(cfg, store, q, memory, free) ==
                     Dispatch(cfg, store, q, r.value, memory, free - NodesAll(r.value)))
  {
    hide Dispatch, DecodeValues, Typed, NamesOk, AllPrim;
    if DecodeValues(q.vbs, free).Some? {
      DecodedTyped(q.vbs, free);
      if AllPrim(q.vbs) { PrimNodes(q.vbs, free); }
    }
  }

  /** Decode pass, answer, destructors. */
  method Process(buffer: array<byte>, max: nat, request: HeaderView, memory: Memory, callbacks: seq<ValueCallback>,
                 cfg: Settings, pool: ASNPool, ghost q: Request, ghost base: set<nat>, ghost used: nat)
    returns (code: int, length: nat, acked: Option<(int, bool)>)
    requires max == cfg.max <= buffer.Length && max < TWO16 && buffer as object != pool.slots
    requires pool.Holds(base, used, []) && used <= pool.slots.Length
    requires |q.vbs| == |request.vbs| <= VB && Reads(buffer, request.vbs, q.vbs)
    requires request.community.In(buffer[..]) && q.community == request.community.Of(buffer[..])
    requires SameHeader(q, request)
    requires Distinct(callbacks) && StoreOk(Snapshot(callbacks))
    modifies buffer, pool, pool.slots, callbacks
    ensures pool.slots == old(pool.slots) && pool.Holds(base, used, [])
    ensures pool.doubleReleaseAlarms == old(pool.doubleReleaseAlarms)
    ensures AllPrim(q.vbs) ==> pool.usedCountPeak <= Max(old(pool.usedCountPeak), used + 2 * VB + 1)
    ensures buffer[max..] == old(buffer[max..]) && length <= buffer.Length
    ensures Outcome(code, buffer[..length], Snapshot(callbacks), acked) ==
            DecodeThenDispatch(cfg, old(Snapshot(callbacks)), q, memory, pool.slots.Length - used)
  {
    hide DecodeThenDispatch, Dispatch, DecodeValues, Reads, Typed, NamesOk, ASNPool.Holds, StoreOk, Distinct, FlatAll,
         NodesAll, AllPrim, SameHeader;
    length, acked := 0, None;
    ghost var free: nat := pool.slots.Length - used;
    AfterDecode(cfg, Snapshot(callbacks), q, memory, free);
    var ok, values, owners := DecodeRequestValues(pool, buffer, request, q.vbs, base, used);
    if !ok {
      DropDecoded(pool, owners, buffer, callbacks, base, used);
      return SNMP_REQUEST_INVALID, length, acked;
    }
    code, length, acked := DispatchAndDrop(buffer, max, request, values, owners, memory, callbacks, cfg, pool, q, base,
                                           used);
  }

  /** handlePacketInPlace. The return code, the response octets, the handlers and the inform callback
      are what Handle says of the packet as it was on entry; nothing beyond the packet capacity is
      touched; and on every path the pool ends with exactly the slots it had, every decoded tree and
      planned value deleted once. memory is what the slots the decoded values get held before. */
  method HandlePacketInPlace(buffer: array<byte>, packetLength: int, maxPacketSize: int,
                             memory: Memory, callbacks: seq<ValueCallback>, cfg: Settings, pool: ASNPool)
    returns (code: int, responseLength: nat, acked: Option<(int, bool)>)
    requires packetLength <= buffer.Length && maxPacketSize <= buffer.Length < TWO16
    requires cfg.max == Max(0, maxPacketSize)
    requires Distinct(callbacks) && StoreOk(Snapshot(callbacks))
    requires pool.Valid() && 0 <= pool.usedCount <= pool.slots.Length && buffer as object != pool.slots
    modifies buffer, pool, pool.slots, callbacks
    ensures responseLength <= buffer.Length && buffer[cfg.max..] == old(buffer[cfg.max..])
    ensures pool.Valid() && pool.slots == old(pool.slots) && pool.usedCount == old(pool.usedCount)
    ensures forall k :: 0 <= k < pool.slots.Length ==> pool.slots[k].occupied == old(pool.slots[k].occupied)
    ensures pool.doubleReleaseAlarms == old(pool.doubleReleaseAlarms)
    ensures Outcome(code, buffer[..responseLength], Snapshot(callbacks), acked) ==
            Handle(cfg, old(Snapshot(callbacks)), memory, pool.slots.Length - old(pool.usedCount),
                   old(buffer[..Max(0, packetLength)]))
    ensures PrimitiveRequest(old(buffer[..Max(0, packetLength)])) ==>
              pool.usedCountPeak <= Max(old(pool.usedCountPeak), old(pool.usedCount) + 2 * VB + 1)
  {
    hide Walk, DecodeThenDispatch, Reads, ASNPool.Holds, ASNPool.Valid, StoreOk, Distinct;
    NothingExtra(pool);
    ghost var base := pool.Live();
    ghost var used: nat := pool.usedCount;
    responseLength, acked := 0, None;
    if packetLength <= 0 || maxPacketSize <= 0 {
      assert packetLength <= 0 ==> Walk([]).None? by { EmptyPacket(); }
      return SNMP_REQUEST_INVALID, responseLength, acked;
    }
    ghost var s := buffer[..packetLength];
    var got, request := PeekPacket(buffer, packetLength);
    if !got || request.Truncated() || request.count > VB { return SNMP_REQUEST_INVALID, responseLength, acked; }
    ghost var q := Read(s, request);
    ReadsFromWalk(buffer, packetLength);
    code, responseLength, acked := Process(buffer, maxPacketSize, request, memory, callbacks, cfg, pool, q, base, used);
    NothingLeft(pool, base, used);
  }

  lemma EmptyPacket()
    ensures Walk([]).None?
  {}
}
