/** The classic request engine over owning container trees: what it parses, answers and serialises. */
module Classic {
  import opened Bytes
  import opened Ber
  import opened Caps
  import opened Containers
  import opened BerView
  import opened Roster
  import opened Handling

  datatype VarBind = VarBind(oid: bytes, value: Prim, error: int)

  // ---------------------------------------------------------------- parsing

  datatype ParsingState = SNMPVERSION | COMMUNITY_STRING | PDU | REQUESTID | ERRORSTATUS | ERRORID | VARBINDS | VARBIND

  datatype Packet = Packet(version: int, community: bytes, pduType: byte, requestID: int, errorStatus: int,
                           errorIndex: int, varbinds: seq<VarBind>)

  const EMPTY_PACKET: Packet := Packet(0, [], 0, 0, 0, 0, [])

  predicate IsInteger(v: Value) { v.Simple? && v.p.PInt? && v.p.tag == INTEGER }

  /** cloneValueOrNull: a constructed value is cloned into a NULL. */
  function Clone(v: Value): Prim { if v.Simple? then v.p else PNull(NULLTYPE) }

  /** parsePacket: the children of one structure, met in the given state. A PDU and a varbind list are
      entered and whatever stands behind them is not looked at. */
  function Parse(kids: seq<Value>, state: ParsingState, p: Packet): Option<Packet>
    decreases kids
  {
    if kids == [] then Some(p)
    else
      var v := kids[0];
      match state
      case SNMPVERSION =>
        if !IsInteger(v) || v.p.v < 0 || v.p.v >= 2 then None
        else Parse(kids[1..], COMMUNITY_STRING, p.(version := v.p.v))
      case COMMUNITY_STRING =>
        if !(v.Simple? && v.p.POctets?) then None else Parse(kids[1..], PDU, p.(community := v.p.s))
      case PDU =>
        if !(v.Complex? && IsPduTag(v.ctag)) then None else Parse(v.kids, REQUESTID, p.(pduType := v.ctag))
      case REQUESTID =>
        if !IsInteger(v) then None else Parse(kids[1..], ERRORSTATUS, p.(requestID := v.p.v))
      case ERRORSTATUS =>
        if !IsInteger(v) then None else Parse(kids[1..], ERRORID, p.(errorStatus := v.p.v))
      case ERRORID =>
        if !IsInteger(v) then None else Parse(kids[1..], VARBINDS, p.(errorIndex := v.p.v))
      case VARBINDS =>
        if !(v.Complex? && v.ctag == STRUCTURE) then None else Parse(v.kids, VARBIND, p)
      case VARBIND =>
        if !IsVarBind(v) || |p.varbinds| >= VB then None
        else
          var b := VarBind(v.kids[0].p.s, Clone(v.kids[1]), NO_ERROR);
          Parse(kids[1..], VARBIND, p.(varbinds := p.varbinds + [b]))
  }

  predicate IsVarBind(v: Value) {
    v.Complex? && v.ctag == STRUCTURE && |v.kids| == 2 && v.kids[0].Simple? && v.kids[0].p.POid?
  }

  /** parseFrom, with free pool slots for the tree; the clones of what it parses are taken to succeed. */
  function ParseFrom(s: bytes, free: nat): Option<Packet> {
    if s == [] || s[0] != STRUCTURE || free == 0 then None
    else
      match Decode(STRUCTURE, s, free - 1)
      case None => None
      case Some(d) => if d.value.Complex? then Parse(d.value.kids, SNMPVERSION, EMPTY_PACKET) else None
  }

  // --------------------------------------------------------------- handlers

  /** appendResponseVarBind: no row beyond the cap. */
  function Append(out: seq<VarBind>, row: VarBind): seq<VarBind> { if |out| >= VB then out else out + [row] }

  function GetBind(store: seq<Handler>, version: int, vb: VarBind, next: bool): VarBind {
    match FindFrom(Names(store), vb.oid, next, 0)
    case None => VarBind(vb.oid, PNull(if next then ENDOFMIBVIEW else NOSUCHOBJECT), NO_ERROR)
    case Some(i) =>
      match ReadCell(store[i])
      case None => VarBind(store[i].oid, PNull(NULLTYPE), ForVersion(GEN_ERR, version))
      case Some(p) => VarBind(store[i].oid, p, NO_ERROR)
  }

  /** handleGetRequestPDU after the rows in out. */
  function HandleGet(store: seq<Handler>, version: int, vbs: seq<VarBind>, next: bool, out: seq<VarBind>): seq<VarBind>
    decreases vbs
  {
    if vbs == [] then out
    else HandleGet(store, version, vbs[1..], next, Append(out, GetBind(store, version, vbs[0], next)))
  }

  /** rest is what the slot of the cloned value held before. */
  function SetBind(store: seq<Handler>, version: int, vb: VarBind, rest: Residue): (r: (VarBind, seq<Handler>))
    ensures |r.1| == |store|
  {
    match FindFrom(Names(store), vb.oid, false, 0)
    case None => (VarBind(vb.oid, PNull(NULLTYPE), ForVersionElse(NOT_WRITABLE, version, NO_SUCH_NAME)), store)
    case Some(i) =>
      if store[i].htype != PrimTag(vb.value) then
        (VarBind(vb.oid, PNull(NULLTYPE), ForVersionElse(WRONG_TYPE, version, BAD_VALUE)), store)
      else if !store[i].settable then (VarBind(vb.oid, PNull(NULLTYPE), ForVersion(READ_ONLY, version)), store)
      else
        var (status, h) := SetHandler(store[i], vb.value, rest);
        var row :=
          if status != NO_ERROR then VarBind(store[i].oid, PNull(NULLTYPE), ForVersion(status, version))
          else
            (match ReadCell(h)
             case None => VarBind(store[i].oid, PNull(NULLTYPE), ForVersion(GEN_ERR, version))
             case Some(v) => VarBind(store[i].oid, v, NO_ERROR));
        (row, store[i := h])
  }

  /** handleSetRequestPDU from varbind number at on, after the rows in out. */
  function HandleSet(store: seq<Handler>, version: int, vbs: seq<VarBind>, memory: Memory, at: nat, out: seq<VarBind>)
    : (r: (seq<VarBind>, seq<Handler>))
    ensures |r.1| == |store|
    decreases vbs
  {
    if vbs == [] then (out, store)
    else
      var (row, next) := SetBind(store, version, vbs[0], memory(at));
      HandleSet(next, version, vbs[1..], memory, at + 1, Append(out, row))
  }

  function NonRepeaterBind(store: seq<Handler>, vb: VarBind): VarBind {
    match FindFrom(Names(store), vb.oid, true, 0)
    case None => VarBind(vb.oid, PNull(ENDOFMIBVIEW), NO_ERROR)
    case Some(i) =>
      match ReadCell(store[i])
      case None => VarBind(store[i].oid, PNull(NULLTYPE), GEN_ERR)
      case Some(p) => VarBind(vb.oid, p, NO_ERROR)
  }

  /** The first loop of handleGetBulkRequestPDU; None is overflow. */
  function BulkFirst(store: seq<Handler>, vbs: seq<VarBind>, out: seq<VarBind>): Option<seq<VarBind>>
    decreases vbs
  {
    if vbs == [] then Some(out)
    else if |out| >= VB then None
    else BulkFirst(store, vbs[1..], out + [NonRepeaterBind(store, vbs[0])])
  }

  /** Its inner loop: one repeater from the name oid on. */
  function BulkRepeat(store: seq<Handler>, oid: bytes, foundAt: nat, reps: nat, out: seq<VarBind>): Option<seq<VarBind>>
    decreases reps
  {
    if reps == 0 then Some(out)
    else
      match FindFrom(Names(store), oid, true, foundAt)
      case None => if |out| >= VB then None else Some(out + [VarBind(oid, PNull(ENDOFMIBVIEW), NO_ERROR)])
      case Some(i) =>
        if |out| >= VB then None
        else
          match ReadCell(store[i])
          case None => Some(out + [VarBind(store[i].oid, PNull(NULLTYPE), GEN_ERR)])
          case Some(p) => BulkRepeat(store, store[i].oid, i, reps - 1, out + [VarBind(store[i].oid, p, NO_ERROR)])
  }

  function BulkRest(store: seq<Handler>, vbs: seq<VarBind>, reps: nat, out: seq<VarBind>): Option<seq<VarBind>>
    decreases vbs
  {
    if vbs == [] then Some(out)
    else
      match BulkRepeat(store, vbs[0].oid, 0, reps, out)
      case None => None
      case Some(more) => BulkRest(store, vbs[1..], reps, more)
  }

  /** How many rounds the repeater loop is to do, and the index it uses in round i: unsigned ints. */
  function Rounds(n: nat, nonRepeaters: nat): nat { U32(n - nonRepeaters) }

  function IndexIn(i: nat, nonRepeaters: nat): nat { U32(i + nonRepeaters) }

  /** The index stays inside a list of n varbinds in every round; the loop is guarded by a comparison of ints. */
  predicate RepeatersInside(n: nat, nonRepeaters: nat) {
    n > S32(nonRepeaters) ==> forall i: nat :: i < Rounds(n, nonRepeaters) ==> IndexIn(i, nonRepeaters) < n
  }

  /** It does exactly when the count of non-repeaters, which arrives as an INTEGER, is not negative; then the
      rounds take the varbinds behind the non-repeaters one by one. */
  lemma RepeatersInsideIff(n: nat, errorStatus: int)
    requires n < TWO31 && Is32(errorStatus)
    ensures RepeatersInside(n, U32(errorStatus)) <==> errorStatus >= 0
    ensures errorStatus >= 0 ==> U32(errorStatus) == S32(U32(errorStatus)) == errorStatus
    ensures n > errorStatus >= 0 ==>
              Rounds(n, errorStatus) == n - errorStatus
              && forall i: nat :: i < n - errorStatus ==> IndexIn(i, errorStatus) == i + errorStatus
  {
    if errorStatus < 0 {
      var first: nat := 0;
      assert first < Rounds(n, U32(errorStatus)) && IndexIn(first, U32(errorStatus)) >= n;
    }
  }

  /** handleGetBulkRequestPDU, whose answer is only defined while that index stays inside. */
  function HandleBulk(store: seq<Handler>, vbs: seq<VarBind>, nonRepeaters: nat, reps: nat): Option<seq<VarBind>> {
    var n := if nonRepeaters < |vbs| then nonRepeaters else |vbs|;
    match BulkFirst(store, vbs[..n], [])
    case None => None
    case Some(out) => BulkRest(store, vbs[n..], reps, out)
  }

  // --------------------------------------------------------------- response

  /** errorStatus and errorIndex after addResponse and addErrorResponse of every row. */
  function LastBindError(rows: seq<VarBind>): (int, nat) {
    if rows == [] then (NO_ERROR, 0)
    else if rows[|rows| - 1].error != NO_ERROR then (rows[|rows| - 1].error, |rows|)
    else LastBindError(rows[..|rows| - 1])
  }

  function IntValue(v: int): Value { Simple(PInt(INTEGER, v)) }

  function BindValue(r: VarBind): Value { Complex(STRUCTURE, [Simple(POid(r.oid)), Simple(r.value)]) }

  function BindValues(rows: seq<VarBind>): (r: seq<Value>)
    ensures |r| == |rows| && forall i :: 0 <= i < |rows| ==> r[i] == BindValue(rows[i])
  {
    if rows == [] then [] else [BindValue(rows[0])] + BindValues(rows[1..])
  }

  /** A list node takes no more children than its cap. */
  function Kept(rows: seq<VarBind>): seq<VarBind> { if |rows| > CHILDREN then rows[..CHILDREN] else rows }

  function PduTree(tag: byte, rid: int, status: int, index: int, rows: seq<VarBind>): Value {
    Complex(tag, [IntValue(rid), IntValue(status), IntValue(index), Complex(STRUCTURE, BindValues(Kept(rows)))])
  }

  /** _build_pdu_envelope */
  function ResponseTree(p: Packet, status: int, index: int, rows: seq<VarBind>): Value {
    Complex(STRUCTURE, [IntValue(p.version), Simple(POctets(p.community)),
                        PduTree(GET_RESPONSE, p.requestID, status, index, rows)])
  }

  datatype Served = Served(rows: seq<VarBind>) | Refused(error: int)

  /** The switch over the PDU types: rows or a global error, and the handlers afterwards. */
  function Serve(permission: Permission, store: seq<Handler>, memory: Memory, p: Packet): (r: (Served, seq<Handler>))
    ensures |r.1| == |store|
  {
    if p.pduType == GET_REQUEST || p.pduType == GETNEXT_REQUEST then
      (Served(HandleGet(store, p.version, p.varbinds, p.pduType == GETNEXT_REQUEST, [])), store)
    else if p.pduType == GETBULK_REQUEST then
      if p.version != 1 then (Refused(GEN_ERR), store)
      else
        (match HandleBulk(store, p.varbinds, U32(p.errorStatus), U32(p.errorIndex))
         case None => (Refused(TOO_BIG), store)
         case Some(rows) => (Served(rows), store))
    else if p.pduType == SET_REQUEST then
      if permission != ReadWrite then (Refused(NO_ACCESS), store)
      else var r := HandleSet(store, p.version, p.varbinds, memory, 0, []); (Served(r.0), r.1)
    else (Refused(GEN_ERR), store)
  }

  function ServedTree(p: Packet, r: Served): Value {
    match r
    case Served(rows) => ResponseTree(p, LastBindError(rows).0, LastBindError(rows).1, rows)
    case Refused(e) => ResponseTree(p, e, 0, [])
  }

  /** serialiseInto, and the tooBig rebuild when that fails. */
  function Respond(p: Packet, r: Served, max: nat): (int, bytes) {
    var first := Enc(ValueTlv(ServedTree(p, r)));
    var tooBig := Enc(ValueTlv(ServedTree(p, Refused(TOO_BIG))));
    if |first| <= max then (if r.Served? then SuccessCode(p.pduType) else SNMP_ERROR_PACKET_SENT, first)
    else if |tooBig| <= max then (SNMP_ERROR_PACKET_SENT, tooBig)
    else (SNMP_FAILED_SERIALISATION, [])
  }

  /** The packet is no GETBULK to be served with a negative count of non-repeaters. */
  predicate ServedDefined(cfg: Settings, p: Packet) {
    p.pduType == GETBULK_REQUEST && p.version == 1 && PermissionOf(cfg, p.community) != NoPermission ==>
      U32(p.errorStatus) < TWO31
  }

  predicate BulkDefined(cfg: Settings, free: nat, s: bytes) {
    ParseFrom(s, free).Some? ==> ServedDefined(cfg, ParseFrom(s, free).value)
  }

  /** What handlePacket does with a parsed packet; memory is what the slots of the cloned values held before. */
  function HandleParsed(cfg: Settings, store: seq<Handler>, memory: Memory, p: Packet): Outcome {
    if p.pduType == GET_RESPONSE then
      Outcome(SNMP_INFORM_RESPONSE_OCCURRED, [], store,
              if cfg.informCallback then Some((U32(p.requestID), p.errorStatus == 0)) else None)
    else
      var permission := PermissionOf(cfg, p.community);
      if permission == NoPermission then Outcome(SNMP_REQUEST_INVALID_COMMUNITY, [], store, None)
      else
        var (served, store') := Serve(permission, store, memory, p);
        var (code, response) := Respond(p, served, cfg.max);
        Outcome(code, response, store', None)
  }

  /** handlePacket on the packet s, with free pool slots for its tree. The slots the engine takes beside that tree,
      for the header containers, the two clones of a varbind, the response rows and the response tree, are not
      counted: those copies are taken to succeed, where the code on a dry pool dereferences null. */
  function ClassicHandle(cfg: Settings, store: seq<Handler>, memory: Memory, free: nat, s: bytes): Outcome {
    match ParseFrom(s, free)
    case None => Outcome(SNMP_REQUEST_INVALID, [], store, None)
    case Some(p) => HandleParsed(cfg, store, memory, p)
  }
}
