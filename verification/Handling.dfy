/** What a request is answered with and what it does to the handlers, as functions of the packet's
    octets, the handlers' state and the free pool slots. */
module Handling {
  import opened Bytes
  import opened Ber
  import opened Caps
  import opened Containers
  import opened BerView
  import opened Roster

  // ------------------------------------------------------------ decode pass

  /** Every request value, decoded before anything else happens. */
  function DecodeValues(vbs: seq<ReqVb>, free: nat): (r: Option<seq<Value>>)
    ensures r.Some? ==> |r.value| == |vbs| && NodesAll(r.value) <= free
  {
    if vbs == [] then Some([])
    else
      match DecodeValue(vbs[0], free)
      case None => None
      case Some(v) =>
        match DecodeValues(vbs[1..], free - Nodes(v))
        case None => None
        case Some(rest) => Some([v] + rest)
  }

  function DecodeValue(vb: ReqVb, free: nat): (r: Option<Value>)
    ensures r.Some? ==> Nodes(r.value) <= free
  {
    if vb.oid == [] || |vb.oid| > OID_DATA || vb.oid[0] != 0x2b || vb.tlv == [] then None
    else if !(IsPrimTag(vb.tag) || IsComplexTag(vb.tag)) || free == 0 then None
    else
      match Decode(vb.tag, vb.tlv, free - 1)
      case None => None
      case Some(d) => if d.used != |vb.tlv| then None else Some(d.value)
  }

  lemma NoValues(free: nat)
    ensures DecodeValues([], free) == Some([])
  {}

  lemma DecodeUnfold(vbs: seq<ReqVb>, free: nat)
    requires vbs != []
    ensures DecodeValue(vbs[0], free).None? ==> DecodeValues(vbs, free) == None
    ensures DecodeValue(vbs[0], free).Some? ==>
              var v := DecodeValue(vbs[0], free).value;
              var rest := DecodeValues(vbs[1..], free - Nodes(v));
              DecodeValues(vbs, free) == if rest.None? then None else Some([v] + rest.value)
  {
    hide DecodeValue;
  }

  // ---------------------------------------------------------- response plan

  datatype Planned = Planned(oid: bytes, value: Option<Prim>, nullTag: byte, error: int)

  /** makeOidWire: names the plan can hold. */
  predicate OidOk(c: bytes) { |c| <= OID_DATA && |c| < 0x80 }

  /** Pool slots a row holds. */
  function Cost(p: Planned): nat { if p.value.Some? then 1 else 0 }

  function CostAll(rows: seq<Planned>): nat {
    if rows == [] then 0 else CostAll(rows[..|rows| - 1]) + Cost(rows[|rows| - 1])
  }

  lemma {:induction false} CostAtMost(rows: seq<Planned>)
    ensures CostAll(rows) <= |rows|
  {
    if rows != [] { CostAtMost(rows[..|rows| - 1]); }
  }

  /** Status and one-based index of the last row in error, (NO_ERROR, 0) without one. */
  function LastError(rows: seq<Planned>): (int, nat) {
    if rows == [] then (NO_ERROR, 0)
    else if rows[|rows| - 1].error != NO_ERROR then (rows[|rows| - 1].error, |rows|)
    else LastError(rows[..|rows| - 1])
  }

  /** One more row in front of the rest, if it can be held and there is room for it. */
  function Put(row: Planned, room: nat, rest: Option<seq<Planned>>): Option<seq<Planned>> {
    if !OidOk(row.oid) || room == 0 || rest.None? then None else Some([row] + rest.value)
  }

  /** SNMP_ERROR_VERSION_CTRL */
  function ForVersion(error: int, version: int): int {
    if version == 0 && error > GEN_ERR then GEN_ERR else error
  }

  /** SNMP_ERROR_VERSION_CTRL_DEF */
  function ForVersionElse(error: int, version: int, elseError: int): int {
    if version == 0 && error > GEN_ERR then ForVersion(elseError, version) else error
  }

  /** getValueForCallback: every value takes a pool slot. */
  function ReadValue(h: Handler, free: nat): (r: Option<Prim>)
    ensures r.Some? ==> free > 0
  {
    if free == 0 then None else ReadCell(h)
  }

  // ------------------------------------------------------------ GET, GETNEXT

  function GetRow(store: seq<Handler>, version: int, vb: ReqVb, next: bool, free: nat): (row: Planned)
    ensures Cost(row) <= free
  {
    match FindFrom(Names(store), vb.oid, next, 0)
    case None => Planned(vb.oid, None, if next then ENDOFMIBVIEW else NOSUCHOBJECT, NO_ERROR)
    case Some(i) =>
      match ReadValue(store[i], free)
      case None => Planned(store[i].oid, None, NULLTYPE, ForVersion(GEN_ERR, version))
      case Some(p) => Planned(store[i].oid, Some(p), 0, NO_ERROR)
  }

  /** The rows of a GET or GETNEXT; None when a row cannot be held. */
  function Gets(store: seq<Handler>, version: int, vbs: seq<ReqVb>, next: bool, room: nat,
                free: nat): Option<seq<Planned>>
  {
    if vbs == [] then Some([])
    else
      var row := GetRow(store, version, vbs[0], next, free);
      if room == 0 then None
      else Put(row, room, Gets(store, version, vbs[1..], next, room - 1, free - Cost(row)))
  }

  lemma GetsDone(store: seq<Handler>, version: int, next: bool, room: nat, free: nat)
    ensures Gets(store, version, [], next, room, free) == Some([])
  {}

  lemma GetsUnfold(store: seq<Handler>, version: int, vbs: seq<ReqVb>, next: bool, room: nat, free: nat)
    requires vbs != []
    ensures var row := GetRow(store, version, vbs[0], next, free);
            var ok := OidOk(row.oid) && room > 0;
            && (!ok ==> Gets(store, version, vbs, next, room, free) == None)
            && (ok ==> var rest := Gets(store, version, vbs[1..], next, room - 1, free - Cost(row));
                       Gets(store, version, vbs, next, room, free) ==
                       if rest.None? then None else Some([row] + rest.value))
  {
    hide GetRow, OidOk;
  }

  // ---------------------------------------------------------------- GETBULK

  /** A non-repeater walks like GETNEXT but echoes the name that was asked for. */
  function NonRepeaterRow(store: seq<Handler>, vb: ReqVb, free: nat): (row: Planned)
    ensures Cost(row) <= free
  {
    match FindFrom(Names(store), vb.oid, true, 0)
    case None => Planned(vb.oid, None, ENDOFMIBVIEW, NO_ERROR)
    case Some(i) =>
      match ReadValue(store[i], free)
      case None => Planned(store[i].oid, None, NULLTYPE, GEN_ERR)
      case Some(p) => Planned(vb.oid, Some(p), 0, NO_ERROR)
  }

  function NonRepeaters(store: seq<Handler>, vbs: seq<ReqVb>, room: nat, free: nat): Option<seq<Planned>>
  {
    if vbs == [] then Some([])
    else
      var row := NonRepeaterRow(store, vbs[0], free);
      if room == 0 then None
      else Put(row, room, NonRepeaters(store, vbs[1..], room - 1, free - Cost(row)))
  }

  lemma NonRepeatersDone(store: seq<Handler>, room: nat, free: nat)
    ensures NonRepeaters(store, [], room, free) == Some([])
  {}

  lemma NonRepeatersUnfold(store: seq<Handler>, vbs: seq<ReqVb>, room: nat, free: nat)
    requires vbs != []
    ensures var row := NonRepeaterRow(store, vbs[0], free);
            var ok := OidOk(row.oid) && room > 0;
            && (!ok ==> NonRepeaters(store, vbs, room, free) == None)
            && (ok ==> var rest := NonRepeaters(store, vbs[1..], room - 1, free - Cost(row));
                       NonRepeaters(store, vbs, room, free) ==
                       if rest.None? then None else Some([row] + rest.value))
  {
    hide NonRepeaterRow, OidOk;
  }

  function EndRow(oid: bytes): Planned { Planned(oid, None, ENDOFMIBVIEW, NO_ERROR) }

  /** One repeater from the name cursor on, resuming the search at foundAt. */
  function Repeat(store: seq<Handler>, cursor: bytes, foundAt: nat, reps: nat, room: nat,
                  free: nat): Option<seq<Planned>>
    decreases reps
  {
    if reps == 0 then Some([])
    else
      match FindFrom(Names(store), cursor, true, foundAt)
      case None => Put(EndRow(cursor), room, Some([]))
      case Some(i) =>
        match ReadValue(store[i], free)
        case None => Put(Planned(store[i].oid, None, NULLTYPE, GEN_ERR), room, Some([]))
        case Some(p) =>
          if room == 0 then None
          else Put(Planned(store[i].oid, Some(p), 0, NO_ERROR), room,
                   Repeat(store, store[i].oid, i, reps - 1, room - 1, free - 1))
  }

  /** The repeaters one after the other: their rows are not interleaved. */
  function Repeaters(store: seq<Handler>, vbs: seq<ReqVb>, reps: nat, room: nat, free: nat): Option<seq<Planned>>
  {
    if vbs == [] then Some([])
    else if !OidOk(vbs[0].oid) then None
    else
      match Repeat(store, vbs[0].oid, 0, reps, room, free)
      case None => None
      case Some(rows) =>
        match Repeaters(store, vbs[1..], reps, Less(room, |rows|), Less(free, CostAll(rows)))
        case None => None
        case Some(more) => Some(rows + more)
  }

  lemma RepeatersDone(store: seq<Handler>, reps: nat, room: nat, free: nat)
    ensures Repeaters(store, [], reps, room, free) == Some([])
  {}

  lemma RepeatersUnfold(store: seq<Handler>, vbs: seq<ReqVb>, reps: nat, room: nat, free: nat)
    requires vbs != []
    ensures var first := if OidOk(vbs[0].oid) then Repeat(store, vbs[0].oid, 0, reps, room, free) else None;
            && (first.None? ==> Repeaters(store, vbs, reps, room, free) == None)
            && (first.Some? && |first.value| <= room && CostAll(first.value) <= free ==>
                  var rest := Repeaters(store, vbs[1..], reps, room - |first.value|, free - CostAll(first.value));
                  Repeaters(store, vbs, reps, room, free) ==
                  if rest.None? then None else Some(first.value + rest.value))
  {
    hide Repeat, OidOk, CostAll;
  }

  function Less(a: nat, b: nat): nat { if b <= a then a - b else 0 }

  /** GETBULK. Both counts arrive as INTEGERs and are taken as unsigned. */
  function Bulk(store: seq<Handler>, q: Request, free: nat): Option<seq<Planned>> {
    var nonRepeaters := U32(q.errorStatus);
    var n := if nonRepeaters < |q.vbs| then nonRepeaters else |q.vbs|;
    match NonRepeaters(store, q.vbs[..n], VB, free)
    case None => None
    case Some(first) =>
      match Repeaters(store, q.vbs[n..], U32(q.errorIndex), Less(VB, |first|), Less(free, CostAll(first)))
      case None => None
      case Some(more) => Some(first + more)
  }

  // -------------------------------------------------------------------- SET

  function SetRow(store: seq<Handler>, version: int, vb: ReqVb, value: Value, rest: Residue, free: nat)
    : (r: (Planned, seq<Handler>))
    ensures Cost(r.0) <= free && |r.1| == |store|
  {
    match FindFrom(Names(store), vb.oid, false, 0)
    case None => (Planned(vb.oid, None, NULLTYPE, ForVersionElse(NOT_WRITABLE, version, NO_SUCH_NAME)), store)
    case Some(i) =>
      if store[i].htype != vb.tag then
        (Planned(vb.oid, None, NULLTYPE, ForVersionElse(WRONG_TYPE, version, BAD_VALUE)), store)
      else if !store[i].settable then
        (Planned(vb.oid, None, NULLTYPE, ForVersion(READ_ONLY, version)), store)
      else if value.Complex? then (Planned(store[i].oid, None, NULLTYPE, ForVersion(GEN_ERR, version)), store)
      else ChangeRow(store, version, i, value.p, rest, free)
  }

  /** A settable handler of the right type: set it, then read it back. */
  function ChangeRow(store: seq<Handler>, version: int, i: nat, p: Prim, rest: Residue, free: nat)
    : (r: (Planned, seq<Handler>))
    requires i < |store|
    ensures Cost(r.0) <= free && |r.1| == |store|
  {
    var (status, h) := SetHandler(store[i], p, rest);
    var row :=
      if status != NO_ERROR then Planned(store[i].oid, None, NULLTYPE, ForVersion(status, version))
      else
        (match ReadValue(h, free)
         case None => Planned(store[i].oid, None, NULLTYPE, ForVersion(GEN_ERR, version))
         case Some(v) => Planned(store[i].oid, Some(v), 0, NO_ERROR));
    (row, store[i := h])
  }

  /** The rows of a SET and the handlers after it, vbs being the varbinds from number at on. A row that
      cannot be held stops the work but undoes nothing. */
  function Sets(store: seq<Handler>, version: int, vbs: seq<ReqVb>, values: seq<Value>, memory: Memory, at: nat,
                room: nat, free: nat)
    : (r: (Option<seq<Planned>>, seq<Handler>))
    requires |values| == |vbs|
    ensures |r.1| == |store|
    decreases vbs
  {
    if vbs == [] then (Some([]), store)
    else
      var (row, store') := SetRow(store, version, vbs[0], values[0], memory(at), free);
      if !OidOk(row.oid) || room == 0 then (None, store')
      else
        var rest := Sets(store', version, vbs[1..], values[1..], memory, at + 1, room - 1, free - Cost(row));
        (Put(row, room, rest.0), rest.1)
  }

  lemma SetsDone(store: seq<Handler>, version: int, memory: Memory, at: nat, room: nat, free: nat)
    ensures Sets(store, version, [], [], memory, at, room, free) == (Some([]), store)
  {}

  lemma SetsUnfold(store: seq<Handler>, version: int, vbs: seq<ReqVb>, values: seq<Value>, memory: Memory, at: nat,
                   room: nat, free: nat)
    requires vbs != [] && |values| == |vbs|
    ensures var (row, next) := SetRow(store, version, vbs[0], values[0], memory(at), free);
            var ok := OidOk(row.oid) && room > 0;
            var r := Sets(store, version, vbs, values, memory, at, room, free);
            && (!ok ==> r == (None, next))
            && (ok ==> var rest := Sets(next, version, vbs[1..], values[1..], memory, at + 1, room - 1,
                                        free - Cost(row));
                       r == (if rest.0.None? then None else Some([row] + rest.0.value), rest.1))
  {
    hide SetRow, OidOk;
  }

  // ---------------------------------------------------------------- answers

  datatype Permission = NoPermission | ReadOnly | ReadWrite

  /** Communities are compared as C strings; an over-long one counts as the empty string. The
      read-only community must not be empty, the read-write one may be. */
  function PermissionOf(cfg: Settings, community: bytes): Permission {
    var text := if |community| > COMMUNITY then [] else CStr(community);
    if cfg.readWrite.Some? && CStr(cfg.readWrite.value) == text then ReadWrite
    else if cfg.readOnly.Some? && CStr(cfg.readOnly.value) != [] && CStr(cfg.readOnly.value) == text then ReadOnly
    else NoPermission
  }

  datatype Settings = Settings(readWrite: Option<bytes>, readOnly: Option<bytes>, informCallback: bool, max: nat)

  const SNMP_REQUEST_INVALID: int := -4
  const SNMP_REQUEST_INVALID_COMMUNITY: int := -3
  const SNMP_FAILED_SERIALISATION: int := -2
  const SNMP_GET_OCCURRED: int := 2
  const SNMP_GETNEXT_OCCURRED: int := 3
  const SNMP_GETBULK_OCCURRED: int := 4
  const SNMP_SET_OCCURRED: int := 5
  const SNMP_ERROR_PACKET_SENT: int := 6
  const SNMP_INFORM_RESPONSE_OCCURRED: int := 7

  datatype Staged = Rows(rows: seq<Planned>) | Global(error: int)

  function OrTooBig(rows: Option<seq<Planned>>): Staged {
    if rows.None? then Global(TOO_BIG) else Rows(rows.value)
  }

  /** What the request asks for, before anything is written: the rows or a global error, and the
      handlers afterwards. */
  function Stage(permission: Permission, store: seq<Handler>, q: Request, values: seq<Value>, memory: Memory, free: nat)
    : (r: (Staged, seq<Handler>))
    requires |values| == |q.vbs|
    ensures |r.1| == |store|
  {
    if q.pduType == GET_REQUEST || q.pduType == GETNEXT_REQUEST then
      (OrTooBig(Gets(store, q.version, q.vbs, q.pduType == GETNEXT_REQUEST, VB, free)), store)
    else if q.pduType == GETBULK_REQUEST then
      (if q.version != 1 then Global(GEN_ERR) else OrTooBig(Bulk(store, q, free)), store)
    else if q.pduType == SET_REQUEST then
      if permission != ReadWrite then (Global(NO_ACCESS), store)
      else
        var r := Sets(store, q.version, q.vbs, values, memory, 0, VB, free);
        (OrTooBig(r.0), r.1)
    else (Global(GEN_ERR), store)
  }

  function SuccessCode(pduType: byte): int {
    if pduType == GET_REQUEST then SNMP_GET_OCCURRED
    else if pduType == GETNEXT_REQUEST then SNMP_GETNEXT_OCCURRED
    else if pduType == GETBULK_REQUEST then SNMP_GETBULK_OCCURRED
    else if pduType == SET_REQUEST then SNMP_SET_OCCURRED
    else SNMP_ERROR_PACKET_SENT
  }

  function Int4(v: int): bytes { BigEndian(U32(v), 4) }

  function Reply(q: Request, status: int, index: int, rows: seq<Row>): Message {
    Message(Int4(q.version), Clamp(q.community, STR), GET_RESPONSE, Int4(q.requestID), Int4(status), Int4(index), rows)
  }

  function PlannedRow(p: Planned): Row {
    if p.value.Some? then Row(p.oid, PrimTag(p.value.value), PrimContent(p.value.value))
    else Row(p.oid, p.nullTag, [])
  }

  function PlannedRows(rows: seq<Planned>): (r: seq<Row>)
    ensures |r| == |rows| && forall i :: 0 <= i < |rows| ==> r[i] == PlannedRow(rows[i])
  {
    seq(|rows|, i requires 0 <= i < |rows| => PlannedRow(rows[i]))
  }

  function ErrorReply(q: Request, error: int): Message { Reply(q, error, 0, []) }

  function NormalReply(q: Request, rows: seq<Planned>): Message {
    Reply(q, LastError(rows).0, LastError(rows).1, PlannedRows(rows))
  }

  /** The scope writer can emit the message into max octets. */
  predicate Fits(m: Message, max: nat) { Peak(MessageTlv(m)) <= max }

  /** The return code and the octets left in the buffer. */
  function Answer(q: Request, staged: Staged, max: nat): (int, bytes) {
    if staged.Rows? && Fits(NormalReply(q, staged.rows), max) then
      (SuccessCode(q.pduType), Enc(MessageTlv(NormalReply(q, staged.rows))))
    else
      var e := if staged.Global? then staged.error else TOO_BIG;
      if Fits(ErrorReply(q, e), max) then (SNMP_ERROR_PACKET_SENT, Enc(MessageTlv(ErrorReply(q, e))))
      else (SNMP_FAILED_SERIALISATION, [])
  }

  datatype Outcome = Outcome(code: int, response: bytes, store: seq<Handler>, acked: Option<(int, bool)>)

  /** A request whose values decoded. */
  function Dispatch(cfg: Settings, store: seq<Handler>, q: Request, values: seq<Value>, memory: Memory,
                    free: nat): (r: Outcome)
    requires |values| == |q.vbs|
    ensures |r.store| == |store|
  {
    if q.pduType == GET_RESPONSE then
      Outcome(SNMP_INFORM_RESPONSE_OCCURRED, [], store,
              if cfg.informCallback then Some((U32(q.requestID), q.errorStatus == 0)) else None)
    else
      var permission := PermissionOf(cfg, q.community);
      if permission == NoPermission then Outcome(SNMP_REQUEST_INVALID_COMMUNITY, [], store, None)
      else
        var (staged, store') := Stage(permission, store, q, values, memory, free);
        var (code, response) := Answer(q, staged, cfg.max);
        Outcome(code, response, store', None)
  }

  /** handlePacketInPlace on the packet s, with free pool slots and the given octets in them. */
  function Handle(cfg: Settings, store: seq<Handler>, memory: Memory, free: nat, s: bytes): (r: Outcome)
    ensures |r.store| == |store|
  {
    var invalid := Outcome(SNMP_REQUEST_INVALID, [], store, None);
    match Walk(s)
    case None => invalid
    case Some(h) =>
      if cfg.max == 0 || h.Truncated() || h.count > VB then invalid
      else DecodeThenDispatch(cfg, store, Read(s, h), memory, free)
  }

  function DecodeThenDispatch(cfg: Settings, store: seq<Handler>, q: Request, memory: Memory, free: nat): (r: Outcome)
    ensures |r.store| == |store|
  {
    match DecodeValues(q.vbs, free)
    case None => Outcome(SNMP_REQUEST_INVALID, [], store, None)
    case Some(values) => Dispatch(cfg, store, q, values, memory, free - NodesAll(values))
  }
}
