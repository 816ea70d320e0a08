/** What a trap or inform says on the wire, field by field, when the pool has room for all of it. */
module TrapWire {
  import opened Bytes
  import opened Ber
  import opened Caps
  import opened Containers
  import opened BerView
  import opened Roster
  import opened Trap
  import HandlingLaws
  import opened DecodeLaws

  /** The time a trap carries: what its clock shows, 0 without one. */
  function TimeOf(t: TrapData): int {
    if t.uptime.Some? && t.uptime.value.cell.IntCell? then t.uptime.value.cell.v else 0
  }

  /** Four octets of two's complement, of a number that may be out of their range. */
  function Word(v: int): bytes { BigEndian(v % 0x1_0000_0000, 4) }

  /** Name and value of a handler, or name and NULL. */
  function HandlerRow(h: Handler): Row {
    match ReadCell(h)
    case Some(p) => Row(h.oid, PrimTag(p), PrimContent(p))
    case None => Row(h.oid, 0x05, [])
  }

  function HandlerRows(hs: seq<Handler>): (r: seq<Row>)
    ensures |r| == |hs| && forall i :: 0 <= i < |hs| ==> r[i] == HandlerRow(hs[i])
  {
    seq(|hs|, i requires 0 <= i < |hs| => HandlerRow(hs[i]))
  }

  /** sysUpTime.0 with the time, snmpTrapOID.0 with the trap's name, then the handlers' values (RFC 3416 section
      4.2.6). */
  function VersionTwoRows(t: TrapData): seq<Row>
    requires t.oid.Some?
  {
    [Row([0x2b, 6, 1, 2, 1, 1, 3, 0], 0x43, Word(TimeOf(t))),
     Row([0x2b, 6, 1, 6, 3, 1, 1, 4, 1, 0], 0x06, t.oid.value)]
    + HandlerRows(t.callbacks)
  }

  function VersionTwoMessage(t: TrapData, requestID: int): Message
    requires t.oid.Some?
  {
    Message(Word(t.version), t.community, if t.inform then 0xA6 else 0xA7, Word(requestID), Word(0), Word(0),
            VersionTwoRows(t))
  }

  /** Enterprise, agent address, generic-trap, specific-trap, time-stamp and the handlers' values (RFC 1157 section
      4.1.6). */
  function VersionOneTlv(t: TrapData): Tlv
    requires t.oid.Some?
  {
    var pdu := [Leaf(0x06, t.oid.value), Leaf(0x40, t.agentIP), Leaf(0x02, Word(t.generic)),
                Leaf(0x02, Word(t.specific)), Leaf(0x43, Word(TimeOf(t))),
                Node(0x30, RowTlvs(HandlerRows(t.callbacks)))];
    Node(0x30, [Leaf(0x02, Word(0)), Leaf(0x04, t.community), Node(0xA4, pdu)])
  }

  // -------------------------------------------------------------------- proof

  lemma TlvsFirst(v: Value, vs: seq<Value>)
    ensures ValueTlvs([v] + vs) == [ValueTlv(v)] + ValueTlvs(vs) && ValueTlvs([]) == []
  {
    assert ([v] + vs)[1..] == vs;
  }

  lemma RowTlvsFirst(r: Row, rs: seq<Row>)
    ensures RowTlvs([r] + rs) == [RowTlv(r)] + RowTlvs(rs) && RowTlvs([]) == []
  {
    assert ([r] + rs)[1..] == rs;
  }

  function BindRow(b: Bind): Row {
    var p := if b.source.Some? then b.source.value else b.default;
    Row(b.name, PrimTag(p), PrimContent(p))
  }

  lemma BindIsRow(b: Bind)
    ensures ValueTlv(WholeBind(b)) == RowTlv(BindRow(b))
  {
    hide ValueTlvs;
    var p := if b.source.Some? then b.source.value else b.default;
    TlvsFirst(Simple(p), []);
    TlvsFirst(Simple(POid(b.name)), [Simple(p)]);
    assert [Simple(p)] + [] == [Simple(p)] && [Simple(POid(b.name))] + [Simple(p)] == [Simple(POid(b.name)), Simple(p)];
  }

  lemma {:induction false} HandlersAreRows(hs: seq<Handler>)
    ensures ValueTlvs(WholeBinds(CallbackBinds(hs))) == RowTlvs(HandlerRows(hs))
    decreases hs
  {
    hide ValueTlvs, RowTlvs, WholeBind, ValueTlv, RowTlv, WholeBinds, CallbackBinds;
    if hs == [] {
      NoHandlers();
    } else {
      var b := Bind(hs[0].oid, ReadCell(hs[0]), PNull(NULLTYPE));
      CallbackBindsFirst(hs);
      WholeBindsFirst(b, CallbackBinds(hs[1..]));
      BindIsRow(b);
      HandlersAreRows(hs[1..]);
      TlvsFirst(WholeBind(b), WholeBinds(CallbackBinds(hs[1..])));
      RowTlvsFirst(HandlerRow(hs[0]), HandlerRows(hs[1..]));
      assert HandlerRows(hs) == [HandlerRow(hs[0])] + HandlerRows(hs[1..]);
      assert BindRow(b) == HandlerRow(hs[0]);
    }
  }

  lemma NoHandlers()
    ensures ValueTlvs(WholeBinds(CallbackBinds([]))) == RowTlvs(HandlerRows([])) == []
  {}

  lemma ClockServes(t: TrapData)
    ensures (if Served(t.uptime).Some? then Served(t.uptime).value else NO_TIME) == PInt(TIMESTAMP, TimeOf(t))
  {}

  lemma VersionTwoBinds(t: TrapData)
    requires t.oid.Some? && t.version != 0
    ensures ValueTlvs(WholeBinds(Binds(t))) == RowTlvs(VersionTwoRows(t))
  {
    hide ValueTlvs, RowTlvs, WholeBind, ValueTlv, RowTlv, WholeBinds, CallbackBinds, Served, HandlerRows;
    var a, b := Bind(TIME_NAME, Served(t.uptime), NO_TIME), Bind(TRAP_NAME, None, POid(t.oid.value));
    var rest := CallbackBinds(t.callbacks);
    assert Binds(t) == [a] + ([b] + rest);
    WholeBindsFirst(a, [b] + rest);
    WholeBindsFirst(b, rest);
    TlvsFirst(WholeBind(a), [WholeBind(b)] + WholeBinds(rest));
    TlvsFirst(WholeBind(b), WholeBinds(rest));
    BindIsRow(a);
    BindIsRow(b);
    ClockServes(t);
    HandlersAreRows(t.callbacks);
    RowTlvsFirst(BindRow(b), HandlerRows(t.callbacks));
    RowTlvsFirst(BindRow(a), [BindRow(b)] + HandlerRows(t.callbacks));
    assert BindRow(a) == Row(TIME_NAME, TIMESTAMP, Word(TimeOf(t))) && BindRow(b) == Row(TRAP_NAME, OID, t.oid.value);
    assert VersionTwoRows(t) == [BindRow(a)] + ([BindRow(b)] + HandlerRows(t.callbacks));
  }

  lemma RootTlv(a: Prim, b: Prim, tag: byte, kids: seq<Value>)
    ensures ValueTlv(Complex(STRUCTURE, [Simple(a), Simple(b), Complex(tag, kids)])) ==
            Node(STRUCTURE, [PrimTlv(a), PrimTlv(b), Node(tag, ValueTlvs(kids))])
  {
    hide ValueTlvs;
    var pdu := Complex(tag, kids);
    TlvsFirst(pdu, []);
    TlvsFirst(Simple(b), [pdu]);
    TlvsFirst(Simple(a), [Simple(b), pdu]);
    assert [pdu] + [] == [pdu] && [Simple(b)] + [pdu] == [Simple(b), pdu]
           && [Simple(a)] + [Simple(b), pdu] == [Simple(a), Simple(b), pdu];
  }

  lemma VersionTwoWhole(t: TrapData, requestID: int)
    requires t.oid.Some? && t.version != 0
    ensures ValueTlv(WholeTree(t, requestID)) == MessageTlv(VersionTwoMessage(t, requestID))
  {
    hide ValueTlvs, RowTlvs, WholeBinds, Binds, VersionTwoRows, ValueTlv;
    VersionTwoBinds(t);
    var x, y, z := PInt(INTEGER, requestID), PInt(INTEGER, 0), PInt(INTEGER, 0);
    var list := Complex(STRUCTURE, WholeBinds(Binds(t)));
    ThreeSimples(x, y, z);
    assert WholeHeader(t, requestID) == [Simple(x), Simple(y), Simple(z)];
    assert WholeHeader(t, requestID) + [list] == [Simple(x), Simple(y), Simple(z), list];
    RootTlv(PInt(INTEGER, t.version), POctets(t.community), PduTag(t), [Simple(x), Simple(y), Simple(z), list]);
    FourTlvs(x, y, z, list);
    ListTlv(WholeBinds(Binds(t)));
  }

  lemma ListTlv(vs: seq<Value>)
    ensures ValueTlv(Complex(STRUCTURE, vs)) == Node(STRUCTURE, ValueTlvs(vs))
  {}

  lemma ThreeSimples(a: Prim, b: Prim, c: Prim)
    ensures Simples([a, b, c]) + [] == [Simple(a), Simple(b), Simple(c)]
  {
    assert [a, b, c][1..] == [b, c];
    TwoSimples(b, c);
  }

  lemma FourTlvs(a: Prim, b: Prim, c: Prim, v: Value)
    ensures ValueTlvs([Simple(a), Simple(b), Simple(c), v]) == [PrimTlv(a), PrimTlv(b), PrimTlv(c), ValueTlv(v)]
  {
    hide ValueTlvs;
    TlvsFirst(v, []);
    TlvsFirst(Simple(c), [v]);
    TlvsFirst(Simple(b), [Simple(c), v]);
    TlvsFirst(Simple(a), [Simple(b), Simple(c), v]);
    assert [v] + [] == [v] && [Simple(c)] + [v] == [Simple(c), v]
           && [Simple(b)] + [Simple(c), v] == [Simple(b), Simple(c), v]
           && [Simple(a)] + [Simple(b), Simple(c), v] == [Simple(a), Simple(b), Simple(c), v];
  }

  lemma VersionOneWhole(t: TrapData, requestID: int)
    requires t.oid.Some? && t.version == 0
    ensures ValueTlv(WholeTree(t, requestID)) == VersionOneTlv(t)
  {
    hide ValueTlvs, RowTlvs, WholeBinds, HandlerRows, CallbackBinds, Served, PrimContent;
    HandlersAreRows(t.callbacks);
    ClockServes(t);
    assert Binds(t) == CallbackBinds(t.callbacks);
    var list := Complex(STRUCTURE, WholeBinds(CallbackBinds(t.callbacks)));
    ListTlv(WholeBinds(CallbackBinds(t.callbacks)));
    var a, b, c, d := POid(t.oid.value), PAddress(t.agentIP), PInt(INTEGER, t.generic), PInt(INTEGER, t.specific);
    var e := PInt(TIMESTAMP, TimeOf(t));
    FourSimples(a, b, c, d);
    var kids := [Simple(a), Simple(b), Simple(c), Simple(d), Simple(e), list];
    assert WholeHeader(t, requestID) + [list] == kids;
    RootTlv(PInt(INTEGER, 0), POctets(t.community), TRAP_V1, kids);
    FourTlvs(c, d, e, list);
    TlvsFirst(Simple(b), [Simple(c), Simple(d), Simple(e), list]);
    TlvsFirst(Simple(a), [Simple(b), Simple(c), Simple(d), Simple(e), list]);
    assert kids == [Simple(a)] + [Simple(b), Simple(c), Simple(d), Simple(e), list];
    assert [Simple(b), Simple(c), Simple(d), Simple(e), list] == [Simple(b)] + [Simple(c), Simple(d), Simple(e), list];
    assert ValueTlvs(kids) == [PrimTlv(a), PrimTlv(b), PrimTlv(c), PrimTlv(d), PrimTlv(e), ValueTlv(list)];
    Contents(a, b, c, d, e);
  }

  lemma Contents(a: Prim, b: Prim, c: Prim, d: Prim, e: Prim)
    ensures a.POid? ==> PrimContent(a) == a.s
    ensures b.PAddress? ==> PrimContent(b) == b.ip
    ensures forall p: Prim :: p.PInt? ==> PrimContent(p) == Word(p.v)
    ensures forall p: Prim :: p.POctets? ==> PrimContent(p) == p.s
  {}

  lemma FourSimples(a: Prim, b: Prim, c: Prim, d: Prim)
    ensures Simples([a, b, c, d]) == [Simple(a), Simple(b), Simple(c), Simple(d)]
  {
    assert [a, b, c, d][1..] == [b, c, d];
    ThreeSimples(b, c, d);
    assert Simples([b, c, d]) + [] == Simples([b, c, d]);
  }

  // ------------------------------------------------------------------ results

  /** With 15 slots and three a handler, what goes out of a version 1 trap is exactly this, if it fits. */
  lemma VersionOneSent(t: TrapData, requestID: int, f: nat, max: nat)
    requires t.oid.Some? && t.version == 0 && f >= 15 + 3 * |t.callbacks|
    ensures SentOctets(t, requestID, f, max) ==
            if |Enc(VersionOneTlv(t))| <= max then Some(Enc(VersionOneTlv(t))) else None
  {
    hide Build, Enc, VersionOneTlv, Need, Low, WholeTree, ValueTlv;
    BuildSlots(t, requestID, f);
    VersionOneWhole(t, requestID);
  }

  lemma VersionTwoSent(t: TrapData, requestID: int, f: nat, max: nat)
    requires t.oid.Some? && t.version != 0 && f >= 15 + 3 * |t.callbacks|
    ensures var e := Enc(MessageTlv(VersionTwoMessage(t, requestID)));
            SentOctets(t, requestID, f, max) == if |e| <= max then Some(e) else None
  {
    hide Build, Enc, MessageTlv, VersionTwoMessage, Need, Low, WholeTree, ValueTlv;
    BuildSlots(t, requestID, f);
    VersionTwoWhole(t, requestID);
  }

  /** Names the receiver's walk takes. */
  predicate Named(t: TrapData) {
    t.oid.Some? && forall i :: 0 <= i < |t.callbacks| ==> RowOk(HandlerRow(t.callbacks[i]))
  }

  /** A receiver reads a version 2c trap as what it is: the version, community and id it was sent under, an inform or a
      trap, no error, the time, the trap's name, and each handler's name and value in order. */
  lemma VersionTwoReads(t: TrapData, requestID: int, f: nat, max: nat, rest: bytes)
    requires Named(t) && t.version == 1 && f >= 15 + 3 * |t.callbacks| && |t.callbacks| + 2 <= VIEW_TABLE
    requires Is32(requestID) && max < TWO16 && SentOctets(t, requestID, f, max).Some?
    ensures var s := SentOctets(t, requestID, f, max).value + rest;
            && Walk(s).Some?
            && var q := HandlingLaws.RequestOf(s);
               && q.version == 1 && q.community == t.community && q.pduType == (if t.inform then 0xA6 else 0xA7)
               && q.requestID == requestID && q.errorStatus == 0 && q.errorIndex == 0
               && q.count == |q.vbs| == 2 + |t.callbacks|
               && q.vbs[0] == ReqVb([0x2b, 6, 1, 2, 1, 1, 3, 0], 0x43, Wrap(0x43, Word(TimeOf(t))))
               && q.vbs[1] == ReqVb([0x2b, 6, 1, 6, 3, 1, 1, 4, 1, 0], 0x06, Wrap(0x06, t.oid.value))
               && forall i :: 0 <= i < |t.callbacks| ==>
                    var r := HandlerRow(t.callbacks[i]); q.vbs[2 + i] == ReqVb(r.oid, r.tag, Wrap(r.tag, r.content))
  {
    hide Walk, Read, Enc, MessageTlv, SentOctets, MessageOk, MessageRead, VersionTwoMessage;
    VersionTwoSent(t, requestID, f, max);
    VersionTwoOk(t, requestID);
    MessageRoundTrip(VersionTwoMessage(t, requestID), rest);
  }

  /** The message is one the walk reads, and this is what it reads. */
  lemma VersionTwoOk(t: TrapData, requestID: int)
    requires Named(t) && t.version == 1 && |t.callbacks| + 2 <= VIEW_TABLE && Is32(requestID)
    requires |Enc(MessageTlv(VersionTwoMessage(t, requestID)))| < TWO16
    ensures var m := VersionTwoMessage(t, requestID);
            && MessageOk(m)
            && var q := MessageRead(m);
               && q.version == 1 && q.community == t.community && q.pduType == (if t.inform then 0xA6 else 0xA7)
               && q.requestID == requestID && q.errorStatus == 0 && q.errorIndex == 0
               && q.count == |q.vbs| == 2 + |t.callbacks|
               && q.vbs[0] == ReqVb([0x2b, 6, 1, 2, 1, 1, 3, 0], 0x43, Wrap(0x43, Word(TimeOf(t))))
               && q.vbs[1] == ReqVb([0x2b, 6, 1, 6, 3, 1, 1, 4, 1, 0], 0x06, Wrap(0x06, t.oid.value))
               && forall i :: 0 <= i < |t.callbacks| ==>
                    var r := HandlerRow(t.callbacks[i]); q.vbs[2 + i] == ReqVb(r.oid, r.tag, Wrap(r.tag, r.content))
  {
    hide Enc, MessageTlv, IntContent, BigEndian, Wrap, HandlerRow, TimeOf;
    WordReads(1);
    WordReads(requestID);
    WordReads(0);
    assert RowsOk(VersionTwoRows(t));
  }

  lemma WordReads(v: int)
    requires Is32(v)
    ensures IntContent(Word(v)) == v
  {
    IntRoundTrip(v);
  }
}
