/** What a manager sees: from the octets of a request to the octets of its answer and the handlers afterwards, in
    the numbers of the protocol. */
module EndToEnd {
  import opened Bytes
  import opened Ber
  import opened Caps
  import opened Containers
  import opened BerView
  import opened Oids
  import opened Roster
  import opened Handling
  import opened PlanFacts
  import opened HandlingLaws
  import opened BulkLaws
  import opened SetLaws

  // ------------------------------------------------------------------- access

  /** Communities as they are meant: C strings within the cap. */
  predicate Plain(cfg: Settings, community: bytes) {
    && 0 !in community && |community| <= COMMUNITY
    && (cfg.readWrite.Some? ==> 0 !in cfg.readWrite.value) && (cfg.readOnly.Some? ==> 0 !in cfg.readOnly.value)
  }

  /** The community is the read-write one. */
  predicate MayWrite(cfg: Settings, community: bytes) { cfg.readWrite == Some(community) }

  /** It is the read-write one, or the read-only one, which must not be empty. */
  predicate MayRead(cfg: Settings, community: bytes) {
    MayWrite(cfg, community) || (community != [] && cfg.readOnly == Some(community))
  }

  /** Access is decided by equality with the two communities, octet for octet. */
  lemma PermissionIs(cfg: Settings, community: bytes)
    requires Plain(cfg, community)
    ensures PermissionOf(cfg, community) == ReadWrite <==> MayWrite(cfg, community)
    ensures PermissionOf(cfg, community) == ReadOnly <==> MayRead(cfg, community) && !MayWrite(cfg, community)
    ensures PermissionOf(cfg, community) == NoPermission <==> !MayRead(cfg, community)
  {
    NoNul(community);
    if cfg.readWrite.Some? { NoNul(cfg.readWrite.value); }
    if cfg.readOnly.Some? { NoNul(cfg.readOnly.value); }
  }

  /** Any other community counts as what a C string comparison sees of it: up to its first NUL, and nothing of one
      beyond the cap. So do the agent's own. */
  lemma SeenAs(cfg: Settings, community: bytes)
    ensures var seen := if |community| > COMMUNITY then [] else CStr(community);
            var own := cfg.(readWrite := if cfg.readWrite.Some? then Some(CStr(cfg.readWrite.value)) else None,
                            readOnly := if cfg.readOnly.Some? then Some(CStr(cfg.readOnly.value)) else None);
            Plain(own, seen) && PermissionOf(cfg, community) == PermissionOf(own, seen)
  {
    var seen := if |community| > COMMUNITY then [] else CStr(community);
    NoNul(seen);
    if cfg.readWrite.Some? { NoNul(CStr(cfg.readWrite.value)); }
    if cfg.readOnly.Some? { NoNul(CStr(cfg.readOnly.value)); }
  }

  // ---------------------------------------------------- what is not answered

  /** A packet that is not a well-formed request is dropped with code -4. */
  lemma Dropped(cfg: Settings, store: seq<Handler>, memory: Memory, free: nat, s: bytes)
    ensures !WellFormed(cfg, free, s) ==> Handle(cfg, store, memory, free, s) == Outcome(-4, [], store, None)
  {
    hide Walk, Read, DecodeValues, Dispatch;
  }

  /** So is, with code -3, one under a community that is neither of the two. */
  lemma Stranger(cfg: Settings, store: seq<Handler>, memory: Memory, free: nat, s: bytes)
    requires WellFormed(cfg, free, s) && RequestOf(s).pduType != 0xA2 && Plain(cfg, RequestOf(s).community)
    ensures !MayRead(cfg, RequestOf(s).community) ==>
              Handle(cfg, store, memory, free, s) == Outcome(-3, [], store, None)
  {
    hide Walk, Read, DecodeValues, Stage, Answer, PermissionOf;
    PermissionIs(cfg, RequestOf(s).community);
  }

  /** A GetResponse is an acknowledgement, under any community: code 7, no answer, and the callback gets its
      unsigned request id and whether its error-status is 0. */
  lemma Acknowledged(cfg: Settings, store: seq<Handler>, memory: Memory, free: nat, s: bytes)
    requires WellFormed(cfg, free, s) && RequestOf(s).pduType == 0xA2
    ensures var q := RequestOf(s);
            var id := if q.requestID < 0 then q.requestID + 0x1_0000_0000 else q.requestID;
            Handle(cfg, store, memory, free, s) ==
            Outcome(7, [], store, if cfg.informCallback then Some((id, q.errorStatus == 0)) else None)
  {
    hide Walk, Read, DecodeValues, Stage, Answer, PermissionOf;
    hide RequestOf;
    WalkedHeader(s);
    assert RequestOf(s) == Read(s, Walk(s).value) by { ReadIs(s); }
  }

  lemma ReadIs(s: bytes)
    requires Walk(s).Some?
    ensures RequestOf(s) == Read(s, Walk(s).value)
  {}

  /** Well-formed is: accepted by the walk, with at most the cap of varbinds, each of whose values decodes, and
      room in the buffer for an answer. */
  lemma WellFormedIs(cfg: Settings, free: nat, s: bytes)
    ensures WellFormed(cfg, free, s) <==>
            && cfg.max > 0 && Walk(s).Some? && Walk(s).value.count <= VB && DecodeValues(RequestOf(s).vbs, free).Some?
  {
    hide Walk, DecodeValues, Read;
  }

  /** A GET or GETNEXT is planned exactly if each of its rows has a name of at most 127 octets that fits its buffer;
      otherwise it is too big. */
  lemma GetsPlanned(store: seq<Handler>, version: int, vbs: seq<ReqVb>, next: bool, free: nat)
    requires |vbs| <= VB < free
    ensures Gets(store, version, vbs, next, VB, free).Some? <==>
            forall i :: 0 <= i < |vbs| ==>
              var name := GetRow(store, version, vbs[i], next, 1).oid; |name| <= 127 && |name| <= OID_DATA
  {
    hide GetRow;
    PlannedFrom(store, version, vbs, next, VB, free);
  }

  lemma {:induction false} PlannedFrom(store: seq<Handler>, version: int, vbs: seq<ReqVb>, next: bool, room: nat,
                                       free: nat)
    requires |vbs| <= room < free
    ensures Gets(store, version, vbs, next, room, free).Some? <==>
            forall i :: 0 <= i < |vbs| ==>
              var name := GetRow(store, version, vbs[i], next, 1).oid; |name| <= 127 && |name| <= OID_DATA
    decreases vbs
  {
    hide GetRow, Gets;
    if vbs == [] {
      GetsDone(store, version, next, room, free);
    } else {
      GetsUnfold(store, version, vbs, next, room, free);
      EnoughForRow(store, version, vbs[0], next, free);
      var row := GetRow(store, version, vbs[0], next, free);
      PlannedFrom(store, version, vbs[1..], next, room - 1, free - Cost(row));
      var rest := vbs[1..];
      assert forall i :: 0 <= i < |rest| ==> rest[i] == vbs[i + 1];
    }
  }

  lemma EnoughForRow(store: seq<Handler>, version: int, vb: ReqVb, next: bool, free: nat)
    requires free > 0
    ensures GetRow(store, version, vb, next, free) == GetRow(store, version, vb, next, 1)
  {
    hide FindFrom, ReadCell;
  }

  // ------------------------------------------------------- what is answered

  /** A request that gets an answer: its values are all of primitive types and there are pool slots for them and the
      answer's. */
  predicate Answerable(cfg: Settings, store: seq<Handler>, free: nat, s: bytes) {
    && WellFormed(cfg, free, s) && RequestOf(s).pduType != 0xA2 && AllPrim(RequestOf(s).vbs)
    && Plain(cfg, RequestOf(s).community) && MayRead(cfg, RequestOf(s).community)
    && StoreOk(store) && free > 2 * VB && cfg.max < TWO16
  }

  lemma Accepted(cfg: Settings, store: seq<Handler>, free: nat, s: bytes)
    requires Answerable(cfg, store, free, s)
    ensures Walk(s).Some? && WellFormed(cfg, free, s)
  {
    hide Walk, DecodeValues;
  }

  /** The answer r to the request q has its version, id and community. */
  predicate Answers(q: Request, r: Request) {
    && r.version == q.version && r.community == Clamp(q.community, STR) && r.pduType == 0xA2
    && r.requestID == q.requestID && r.count == |r.vbs|
  }

  /** An answer without rows, under one status. */
  predicate Refuses(q: Request, response: bytes, status: int) {
    && Walk(response).Some?
    && var r := RequestOf(response); Answers(q, r) && r.errorStatus == status && r.errorIndex == 0 && r.vbs == []
  }

  /** An answer with the planned rows, under the status and index of the last one in error. */
  predicate Carries(q: Request, response: bytes, rows: seq<Planned>) {
    && Walk(response).Some?
    && var r := RequestOf(response);
       && Answers(q, r) && |r.vbs| == |rows| && (forall i :: 0 <= i < |rows| ==> r.vbs[i] == RowOf(rows[i]))
       && (forall i :: 0 <= i < |rows| && LastInError(rows, i) ==>
             r.errorStatus == rows[i].error && r.errorIndex == i + 1)
       && ((forall i :: 0 <= i < |rows| ==> rows[i].error == 0) ==> r.errorStatus == 0 && r.errorIndex == 0)
  }

  predicate LastInError(rows: seq<Planned>, i: nat) {
    i < |rows| && rows[i].error != 0 && forall j :: i < j < |rows| ==> rows[j].error == 0
  }

  /** A row on the wire: name and value, or name and an empty value of the row's kind. */
  function RowOf(p: Planned): ReqVb {
    if p.value.Some? then
      ReqVb(p.oid, PrimTag(p.value.value), Wrap(PrimTag(p.value.value), PrimContent(p.value.value)))
    else ReqVb(p.oid, p.nullTag, [p.nullTag, 0])
  }

  lemma {:induction false} LastErrorIs(rows: seq<Planned>)
    ensures forall i :: 0 <= i < |rows| && LastInError(rows, i) ==> LastError(rows) == (rows[i].error, i + 1)
    ensures (forall i :: 0 <= i < |rows| ==> rows[i].error == 0) ==> LastError(rows) == (0, 0)
  {
    if rows != [] {
      var n := |rows| - 1;
      LastErrorIs(rows[..n]);
      forall i | 0 <= i < |rows| && LastInError(rows, i) ensures LastError(rows) == (rows[i].error, i + 1) {
        if i < n {
          assert rows[n].error == 0;
          assert LastInError(rows[..n], i);
        }
      }
    }
  }

  /** The four success codes. */
  function CodeOf(pduType: byte): int {
    if pduType == 0xA0 then 2 else if pduType == 0xA1 then 3 else if pduType == 0xA5 then 4 else 5
  }

  /** What the answer to q says of what was planned: the rows, or that they are too big, or the global error, or, if
      there is no room for that, nothing. */
  predicate AnswerSays(q: Request, staged: Staged, code: int, response: bytes) {
    && (code == -2 ==> response == [])
    && match staged
       case Rows(rows) =>
         && q.pduType in {0xA0, 0xA1, 0xA3, 0xA5} && code in {CodeOf(q.pduType), 6, -2}
         && (code == CodeOf(q.pduType) ==> Carries(q, response, rows)) && (code == 6 ==> Refuses(q, response, 1))
       case Global(e) => code in {6, -2} && (code == 6 ==> Refuses(q, response, e))
  }

  /** Whatever is planned for a request reaches the manager so. */
  lemma AnswerIs(cfg: Settings, store: seq<Handler>, memory: Memory, free: nat, s: bytes)
    requires Answerable(cfg, store, free, s)
    ensures var o := Handle(cfg, store, memory, free, s);
            o.acked == None && AnswerSays(RequestOf(s), StagedFor(cfg, store, memory, free, s), o.code, o.response)
  {
    hide Walk, Read, DecodeValues, PermissionOf, Stage, Answer, RowsWell, RequestOf, StagedFor, Plain, AllPrim,
         WellFormed, StoreOk, AnswerSays, SuccessCode;
    Accepted(cfg, store, free, s);
    var q, staged := RequestOf(s), StagedFor(cfg, store, memory, free, s);
    PermissionIs(cfg, q.community);
    assert Permitted(cfg, s);
    Answered(cfg, store, memory, free, s);
    NoAck(cfg, store, memory, free, s);
    StagedForSuccess(cfg, store, memory, free, s);
    WalkedHeader(s);
    StagedWell(cfg, store, memory, free, s);
    AnswerOf(q, staged, cfg.max);
  }

  lemma AnswerOf(q: Request, staged: Staged, max: nat)
    requires 0 <= q.version < 2 && Is32(q.requestID) && max < TWO16
    requires staged.Rows? ==>
               RowsWell(staged.rows) && SNMP_GET_OCCURRED <= SuccessCode(q.pduType) <= SNMP_SET_OCCURRED
    requires staged.Global? ==> Is32(staged.error)
    ensures AnswerSays(q, staged, Answer(q, staged, max).0, Answer(q, staged, max).1)
  {
    hide Fits, Enc, RowsWell, Carries, Refuses, NormalReply, ErrorReply, SuccessCode;
    CodesAre(q.pduType);
    if staged.Rows? && Fits(NormalReply(q, staged.rows), max) {
      CarriesIs(q, staged.rows, max);
    } else {
      var e := if staged.Global? then staged.error else TOO_BIG;
      if Fits(ErrorReply(q, e), max) { RefusesIs(q, e, max); }
    }
  }

  lemma CarriesIs(q: Request, rows: seq<Planned>, max: nat)
    requires 0 <= q.version < 2 && Is32(q.requestID) && RowsWell(rows) && max < TWO16
    requires Fits(NormalReply(q, rows), max)
    ensures Carries(q, Enc(MessageTlv(NormalReply(q, rows))), rows)
  {
    hide Walk, Fits, Enc, MessageTlv, NormalReply, RowsWell, LastError, RowsRead, RequestOf, RowOf, Clamp, LastInError;
    NormalReadsBack(q, rows, max);
    LastErrorIs(rows);
    RowsOnWire(rows);
  }

  lemma RefusesIs(q: Request, e: int, max: nat)
    requires 0 <= q.version < 2 && Is32(q.requestID) && Is32(e) && Fits(ErrorReply(q, e), max) && max < TWO16
    ensures Refuses(q, Enc(MessageTlv(ErrorReply(q, e))), e)
  {
    hide Walk, Fits, Enc, MessageTlv, ErrorReply, RequestOf, Clamp;
    ErrorReadsBack(q, e, max);
  }

  lemma NoAck(cfg: Settings, store: seq<Handler>, memory: Memory, free: nat, s: bytes)
    requires WellFormed(cfg, free, s) && RequestOf(s).pduType != 0xA2
    ensures Handle(cfg, store, memory, free, s).acked == None
  {
    hide Walk, Read, DecodeValues, PermissionOf, Stage, Answer;
  }

  lemma CodesAre(pduType: byte)
    ensures SuccessCode(pduType) == if pduType in {0xA0, 0xA1, 0xA3, 0xA5} then CodeOf(pduType) else 6
    ensures SNMP_FAILED_SERIALISATION == -2 && SNMP_GET_OCCURRED == 2 && SNMP_SET_OCCURRED == 5
    ensures SNMP_ERROR_PACKET_SENT == 6
  {}

  lemma RowsOnWire(rows: seq<Planned>)
    ensures forall i :: 0 <= i < |rows| ==> RowsRead(PlannedRows(rows))[i] == RowOf(rows[i])
  {
    forall tag: byte ensures Wrap(tag, []) == [tag, 0] {}
  }

  /** What is planned for the request, and with which slots. */
  function Left(free: nat, s: bytes): nat
    requires Walk(s).Some? && |RequestOf(s).vbs| <= free
  {
    free - |RequestOf(s).vbs|
  }

  lemma PlannedFor(cfg: Settings, store: seq<Handler>, memory: Memory, free: nat, s: bytes)
    requires Answerable(cfg, store, free, s)
    ensures var q := RequestOf(s);
            && DecodeValues(q.vbs, free).Some? && |q.vbs| <= VB && Left(free, s) > VB
            && var values := DecodeValues(q.vbs, free).value;
               var permission := if MayWrite(cfg, q.community) then ReadWrite else ReadOnly;
               && (StagedFor(cfg, store, memory, free, s), Handle(cfg, store, memory, free, s).store) ==
                  Stage(permission, store, q, values, memory, Left(free, s))
               && PrimValues(q.vbs, values) && 0 <= q.version < 2
  {
    hide Walk, Read, DecodeValues, PermissionOf, Stage, Answer, RequestOf, StoreOk, PrimOk, Plain;
    var q := RequestOf(s);
    PermissionIs(cfg, q.community);
    WalkedHeader(s);
    CountIs(cfg, free, s);
    PrimNodes(q.vbs, free);
    DecodedTyped(q.vbs, free);
    ReadIs(s);
    var values := DecodeValues(q.vbs, free).value;
    forall i | 0 <= i < |q.vbs|
      ensures values[i].Simple? && PrimOk(values[i].p) && PrimTag(values[i].p) == q.vbs[i].tag
    {
      assert TypedOne(q.vbs[i], values[i]);
    }
  }

  lemma CountIs(cfg: Settings, free: nat, s: bytes)
    requires WellFormed(cfg, free, s)
    ensures RequestOf(s).count <= VB
  {
    hide Walk, DecodeValues;
  }

  // ---------------------------------------------------------------------- SET

  /** A SET under the read-only community changes nothing and is refused with noAccess, whatever the version. */
  lemma ReadOnlySet(cfg: Settings, store: seq<Handler>, memory: Memory, free: nat, s: bytes)
    requires Answerable(cfg, store, free, s) && RequestOf(s).pduType == 0xA3
    requires !MayWrite(cfg, RequestOf(s).community)
    ensures var o := Handle(cfg, store, memory, free, s);
            && o.store == store && o.code in {6, -2}
            && (cfg.max >= 36 + |Wrap(0x04, Clamp(RequestOf(s).community, STR))| ==>
                  o.code == 6 && Refuses(RequestOf(s), o.response, 6))
  {
    hide Handle, StagedFor, Refuses, Carries, Plain, AllPrim, WellFormed, RequestOf, DecodeValues, Wrap;
    Accepted(cfg, store, free, s);
    AnswerIs(cfg, store, memory, free, s);
    PlannedFor(cfg, store, memory, free, s);
    PermissionIs(cfg, RequestOf(s).community);
    AlwaysAnswered(cfg, store, memory, free, s);
  }

  /** A SET under the read-write community, of different names: the answer has a row for each, which says what the
      handler of that name did with the value. The handlers it does not name stay as they were. */
  lemma SetAnswered(cfg: Settings, store: seq<Handler>, memory: Memory, free: nat, s: bytes)
    requires Answerable(cfg, store, free, s) && RequestOf(s).pduType == 0xA3
    requires MayWrite(cfg, RequestOf(s).community) && DistinctNames(store) && DistinctRequest(RequestOf(s).vbs)
    ensures var values := DecodeValues(RequestOf(s).vbs, free);
            values.Some? && PrimValues(RequestOf(s).vbs, values.value)
    ensures var o, q := Handle(cfg, store, memory, free, s), RequestOf(s);
            && o.code in {5, 6, -2} && (o.code == 6 ==> Refuses(q, o.response, 1)) && Untouched(store, q.vbs, o.store)
            && (o.code == 5 ==>
                  exists rows :: Carries(q, o.response, rows)
                                 && SetAnswer(store, q, DecodeValues(q.vbs, free).value, rows, o.store))
  {
    hide Handle, StagedFor, Refuses, Carries, Plain, AllPrim, WellFormed, RequestOf, DecodeValues, PrimValues, Sets,
         DistinctNames, DistinctRequest, StoreOk, SetAnswer, Untouched;
    Accepted(cfg, store, free, s);
    AnswerIs(cfg, store, memory, free, s);
    PlannedFor(cfg, store, memory, free, s);
    var q := RequestOf(s);
    var values := DecodeValues(q.vbs, free).value;
    LengthsAgree(q.vbs, values);
    SetsOutcome(store, q, values, memory, Left(free, s));
  }

  /** The handlers no varbind names stay as they were. */
  predicate Untouched(store: seq<Handler>, vbs: seq<ReqVb>, next: seq<Handler>) {
    && |next| == |store|
    && forall k :: 0 <= k < |store| && (forall i :: 0 <= i < |vbs| ==> vbs[i].oid != store[k].oid) ==>
         next[k] == store[k]
  }

  lemma SetsOutcome(store: seq<Handler>, q: Request, values: seq<Value>, memory: Memory, free: nat)
    requires StoreOk(store) && DistinctNames(store) && DistinctRequest(q.vbs) && PrimValues(q.vbs, values) && free > VB
    ensures |values| == |q.vbs|
    ensures var (rows, next) := Sets(store, q.version, q.vbs, values, memory, 0, VB, free);
            Untouched(store, q.vbs, next) && (rows.Some? ==> SetAnswer(store, q, values, rows.value, next))
  {
    hide Sets, DistinctNames, DistinctRequest, StoreOk, PrimValues, RowSays, RowShape;
    LengthsAgree(q.vbs, values);
    var (rows, next) := Sets(store, q.version, q.vbs, values, memory, 0, VB, free);
    forall k | 0 <= k < |store| && (forall i :: 0 <= i < |q.vbs| ==> q.vbs[i].oid != store[k].oid)
      ensures next[k] == store[k]
    {
      SetsFrame(store, q.version, q.vbs, values, memory, 0, VB, free, k);
      assert !Targets(q.vbs, store[k]);
    }
    if rows.Some? {
      forall i | 0 <= i < |q.vbs| ensures SetAnswerRow(store, q, values, rows.value, next, i) {
        SetsSay(store, q.version, q.vbs, values, memory, 0, VB, free, i);
      }
      SetsLength(store, q.version, q.vbs, values, memory, 0, VB, free);
    }
  }

  lemma LengthsAgree(vbs: seq<ReqVb>, values: seq<Value>)
    requires PrimValues(vbs, values)
    ensures |values| == |vbs| && forall i :: 0 <= i < |vbs| ==> values[i].Simple?
  {}

  /** The rows of a SET of the values, and the handlers after it. */
  predicate SetAnswer(store: seq<Handler>, q: Request, values: seq<Value>, rows: seq<Planned>, next: seq<Handler>) {
    && |rows| == |values| == |q.vbs| && |next| == |store|
    && forall i :: 0 <= i < |q.vbs| ==> SetAnswerRow(store, q, values, rows, next, i)
  }

  predicate SetAnswerRow(store: seq<Handler>, q: Request, values: seq<Value>, rows: seq<Planned>, next: seq<Handler>,
                         i: nat)
  {
    && i < |rows| && i < |values| && i < |q.vbs| && |next| == |store| && values[i].Simple?
    && RowShape(q.vbs[i], rows[i])
    && ((forall k :: 0 <= k < |store| ==> store[k].oid != q.vbs[i].oid) ==>
          rows[i].error == ForManager(q.version, 17, 2))
    && forall k :: 0 <= k < |store| && store[k].oid == q.vbs[i].oid ==>
         RowSays(store[k], q.version, q.vbs[i].tag, values[i].p, rows[i], next[k])
  }

  // ------------------------------------------------------------- GET, GETNEXT

  /** A GET changes nothing and answers each name with the value of the handler of exactly that name, an empty value
      and genErr if that has none to give, or noSuchObject. */
  lemma GetAnswered(cfg: Settings, store: seq<Handler>, memory: Memory, free: nat, s: bytes)
    requires Answerable(cfg, store, free, s) && RequestOf(s).pduType == 0xA0 && DistinctNames(store)
    ensures var o, q := Handle(cfg, store, memory, free, s), RequestOf(s);
            && o.store == store && o.code in {2, 6, -2} && (o.code == 6 ==> Refuses(q, o.response, 1))
            && (o.code == 2 ==>
                  exists rows :: Carries(q, o.response, rows) && |rows| == |q.vbs|
                                 && forall i :: 0 <= i < |rows| ==> GetSays(store, q.vbs[i].oid, rows[i]))
  {
    hide Handle, StagedFor, Refuses, Carries, Plain, AllPrim, WellFormed, RequestOf, DecodeValues, PrimValues, Gets,
         DistinctNames, StoreOk, ReadCell;
    Accepted(cfg, store, free, s);
    AnswerIs(cfg, store, memory, free, s);
    PlannedFor(cfg, store, memory, free, s);
    var q := RequestOf(s);
    var staged := StagedFor(cfg, store, memory, free, s);
    if staged.Rows? {
      GetsSay(store, q.version, q.vbs, VB, Left(free, s));
    }
  }

  predicate GetSays(store: seq<Handler>, name: bytes, row: Planned) {
    && row.oid == name
    && (forall k :: 0 <= k < |store| && store[k].oid == name ==> ServesRow(store[k], row))
    && ((forall k :: 0 <= k < |store| ==> store[k].oid != name) ==> row == Planned(name, None, 0x80, 0))
  }

  /** The row of handler h: its value, or genErr. */
  predicate ServesRow(h: Handler, row: Planned) {
    row.oid == h.oid && row.value == ReadCell(h)
    && (if row.value.Some? then row.error == 0 else row.error == 5 && row.nullTag == 0x05)
  }

  lemma GetsSay(store: seq<Handler>, version: int, vbs: seq<ReqVb>, room: nat, free: nat)
    requires Gets(store, version, vbs, false, room, free).Some? && free > room && DistinctNames(store)
    ensures var rows := Gets(store, version, vbs, false, room, free).value;
            |rows| == |vbs| && forall i :: 0 <= i < |vbs| ==> GetSays(store, vbs[i].oid, rows[i])
  {
    hide Gets, GetRow, DistinctNames, GetSays;
    GetsAreRows(store, version, vbs, false, room, free);
    forall i | 0 <= i < |vbs| ensures GetSays(store, vbs[i].oid, GetRow(store, version, vbs[i], false, 1)) {
      GetRowSays(store, version, vbs[i]);
    }
  }

  lemma GetRowSays(store: seq<Handler>, version: int, vb: ReqVb)
    requires DistinctNames(store)
    ensures GetSays(store, vb.oid, GetRow(store, version, vb, false, 1))
  {
    hide FindFrom, ReadCell, DistinctNames;
    GetIsExact(Names(store), vb.oid, 0);
    forall k | 0 <= k < |store| && store[k].oid == vb.oid ensures FindFrom(Names(store), vb.oid, false, 0) == Some(k) {
      FoundAt(store, k);
    }
  }

  /** A GETNEXT on a sorted roster likewise answers each name with the handler of the least name after it, under that
      name, or with endOfMibView under the name that was asked for. */
  lemma NextAnswered(cfg: Settings, store: seq<Handler>, memory: Memory, free: nat, s: bytes)
    requires Answerable(cfg, store, free, s) && RequestOf(s).pduType == 0xA1 && Sorted(Names(store))
    ensures var o, q := Handle(cfg, store, memory, free, s), RequestOf(s);
            && o.store == store && o.code in {3, 6, -2} && (o.code == 6 ==> Refuses(q, o.response, 1))
            && (o.code == 3 ==>
                  exists rows :: Carries(q, o.response, rows) && |rows| == |q.vbs|
                                 && forall i :: 0 <= i < |rows| && Canonical(q.vbs[i].oid) ==>
                                      NextSays(store, q.vbs[i].oid, rows[i]))
  {
    hide Handle, StagedFor, Refuses, Carries, Plain, AllPrim, WellFormed, RequestOf, DecodeValues, PrimValues, Gets,
         StoreOk, ReadCell, Sorted, Anchored, IsNext, Before, Canonical;
    Accepted(cfg, store, free, s);
    AnswerIs(cfg, store, memory, free, s);
    PlannedFor(cfg, store, memory, free, s);
    var q := RequestOf(s);
    var staged := StagedFor(cfg, store, memory, free, s);
    if staged.Rows? {
      NextsSay(store, q.version, q.vbs, VB, Left(free, s));
    }
  }

  lemma NextsSay(store: seq<Handler>, version: int, vbs: seq<ReqVb>, room: nat, free: nat)
    requires Gets(store, version, vbs, true, room, free).Some? && free > room && Sorted(Names(store))
    ensures var rows := Gets(store, version, vbs, true, room, free).value;
            && |rows| == |vbs|
            && forall i :: 0 <= i < |vbs| && Canonical(vbs[i].oid) ==> NextSays(store, vbs[i].oid, rows[i])
  {
    hide Gets, Sorted, Anchored, IsNext, Before, Canonical, ReadCell, GetRow;
    GetsAreRows(store, version, vbs, true, room, free);
    var rows := Gets(store, version, vbs, true, room, free).value;
    forall i | 0 <= i < |vbs| && Canonical(vbs[i].oid) ensures NextSays(store, vbs[i].oid, rows[i]) {
      forall k | 0 <= k < |store|
        ensures Anchored(Names(store), vbs[i].oid) && IsNext(Names(store), vbs[i].oid, k) ==>
                  ServesRow(store[k], rows[i])
      {
        NextServes(store, version, vbs, room, free, i, k);
      }
      NextServes(store, version, vbs, room, free, i, 0);
    }
  }

  predicate NextSays(store: seq<Handler>, name: bytes, row: Planned) {
    && (Anchored(Names(store), name) ==>
          forall k :: 0 <= k < |store| && IsNext(Names(store), name, k) ==> ServesRow(store[k], row))
    && (!Anchored(Names(store), name) || (forall j :: 0 <= j < |store| ==> !Before(name, store[j].oid)) ==>
          row == Planned(name, None, 0x82, 0))
  }

  // --------------------------------------------------------- GETBULK, the rest

  /** A version 2c GETBULK on a sorted roster changes nothing and answers with all its rows, or tooBig. */
  lemma BulkAnswered(cfg: Settings, store: seq<Handler>, memory: Memory, free: nat, s: bytes)
    requires Answerable(cfg, store, free, s) && RequestOf(s).pduType == 0xA5 && RequestOf(s).version == 1
    requires Sorted(Names(store)) && NamesHold(store) && RequestHolds(RequestOf(s).vbs)
    ensures var o, q := Handle(cfg, store, memory, free, s), RequestOf(s);
            && o.store == store && o.code in {4, 6, -2} && (o.code == 6 ==> Refuses(q, o.response, 1))
            && (o.code == 4 ==> |BulkRows(store, q)| <= VB && Carries(q, o.response, BulkRows(store, q)))
  {
    hide Handle, StagedFor, Refuses, Carries, Plain, AllPrim, WellFormed, RequestOf, DecodeValues, PrimValues, Bulk,
         StoreOk, Sorted, NamesHold, RequestHolds, BulkRows;
    Accepted(cfg, store, free, s);
    AnswerIs(cfg, store, memory, free, s);
    PlannedFor(cfg, store, memory, free, s);
    BulkNeverTruncates(store, RequestOf(s), Left(free, s));
  }

  /** The rows of a GETBULK: for each of the first varbinds, as many as its non-repeater count says or all of them, the
      least name after it, and for each of the rest the rows of as many GETNEXTs as its repetition count says. Both
      counts are taken as unsigned. */
  lemma BulkRowsAre(store: seq<Handler>, q: Request, i: nat)
    requires Sorted(Names(store)) && Is32(q.errorStatus) && Is32(q.errorIndex) && i < |q.vbs| < TWO31
    requires Canonical(q.vbs[i].oid)
    ensures var repetitions: nat := if q.errorIndex < 0 then q.errorIndex + 0x1_0000_0000 else q.errorIndex;
            var n: nat := if 0 <= q.errorStatus < |q.vbs| then q.errorStatus else |q.vbs|;
            && BulkRows(store, q) == FirstRows(store, q.vbs[..n]) + NextAll(store, q.vbs[n..], repetitions)
            && |FirstRows(store, q.vbs[..n])| == n
            && (i < n ==> FirstSays(store, q.vbs[i].oid, FirstRows(store, q.vbs[..n])[i]))
  {
    hide Sorted, NextAll, FirstRows, NonRepeaterRow, Canonical, FirstSays, U32;
    Unsigned(q.errorStatus);
    Unsigned(q.errorIndex);
    var n: nat := if 0 <= q.errorStatus < |q.vbs| then q.errorStatus else |q.vbs|;
    FirstAt(store, q.vbs[..n], if i < n then i else 0);
    if i < n { NonRepeaterSays(store, q.vbs[i]); }
  }

  lemma Unsigned(v: int)
    requires Is32(v)
    ensures U32(v) == if v < 0 then v + 0x1_0000_0000 else v
  {}

  lemma {:induction false} FirstAt(store: seq<Handler>, vbs: seq<ReqVb>, i: nat)
    ensures |FirstRows(store, vbs)| == |vbs|
    ensures i < |vbs| ==> FirstRows(store, vbs)[i] == NonRepeaterRow(store, vbs[i], 1)
    decreases vbs
  {
    hide NonRepeaterRow;
    if vbs != [] { FirstAt(store, vbs[1..], if i > 0 then i - 1 else 0); }
  }

  /** A non-repeater's row has the value of the least name after the one asked for, under the name asked for. */
  predicate FirstSays(store: seq<Handler>, name: bytes, row: Planned) {
    && (Anchored(Names(store), name) ==>
          forall k :: 0 <= k < |store| && IsNext(Names(store), name, k) ==>
            if ReadCell(store[k]).Some? then row == Planned(name, ReadCell(store[k]), 0, 0)
            else row == Planned(store[k].oid, None, 0x05, 5))
    && (!Anchored(Names(store), name) || (forall j :: 0 <= j < |store| ==> !Before(name, store[j].oid)) ==>
          row == Planned(name, None, 0x82, 0))
  }

  lemma NonRepeaterSays(store: seq<Handler>, vb: ReqVb)
    requires Sorted(Names(store)) && Canonical(vb.oid)
    ensures FirstSays(store, vb.oid, NonRepeaterRow(store, vb, 1))
  {
    hide Sorted, Anchored, Before, FindFrom, ReadCell;
    NextIsSuccessor(Names(store), vb.oid);
    var r := FindFrom(Names(store), vb.oid, true, 0);
    forall k | 0 <= k < |store| && Anchored(Names(store), vb.oid) && IsNext(Names(store), vb.oid, k)
      ensures r == Some(k)
    {}
    if r.Some? && Anchored(Names(store), vb.oid) { assert IsNext(Names(store), vb.oid, r.value); }
  }

  /** The rows a walk ends with, in the numbers of the protocol. */
  lemma WalkEnds(store: seq<Handler>, u: nat)
    requires u <= |store| && store != []
    ensures LastRow(store, u) == if u < |store| then Planned(store[u].oid, None, 0x05, 5)
                                 else Planned(store[|store| - 1].oid, None, 0x82, 0)
    ensures forall oid :: EndRow(oid) == Planned(oid, None, 0x82, 0)
  {}

  /** Any other request, a version 1 GETBULK among them, changes nothing and is refused with genErr. */
  lemma OtherAnswered(cfg: Settings, store: seq<Handler>, memory: Memory, free: nat, s: bytes)
    requires Answerable(cfg, store, free, s)
    requires var q := RequestOf(s);
             q.pduType !in {0xA0, 0xA1, 0xA3, 0xA5} || (q.pduType == 0xA5 && q.version == 0)
    ensures var o, q := Handle(cfg, store, memory, free, s), RequestOf(s);
            o.store == store && o.code in {6, -2} && (o.code == 6 ==> Refuses(q, o.response, 5))
  {
    hide Handle, StagedFor, Refuses, Carries, Plain, AllPrim, WellFormed, RequestOf, DecodeValues, PrimValues, StoreOk;
    Accepted(cfg, store, free, s);
    AnswerIs(cfg, store, memory, free, s);
    PlannedFor(cfg, store, memory, free, s);
  }
}
