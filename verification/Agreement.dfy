/** The two request engines on canonical requests: one return code, response and store, except when the
    packet capacity falls between the length of the answer and the room the scope writer needs for it, or
    when a SET leaves octets of a pool slot where they can be seen. */
module Agreement {
  import opened Bytes
  import opened Ber
  import opened Caps
  import opened Containers
  import opened BerView
  import opened Roster
  import opened Handling
  import opened PlanFacts
  import opened BulkLaws
  import opened Classic
  import opened Unwritten
  import ResponseWriter

  // ------------------------------------------------------ canonical requests

  /** A value both decoders take in full; an IpAddress is not among them. */
  predicate RowCanonical(r: Row) {
    && IsPrimTag(r.tag) && r.tag != NETWORK_ADDRESS && Meaning(Leaf(r.tag, r.content)).Some?
    && OidOk(r.oid) && RowOk(r)
  }

  predicate RowsCanonical(rows: seq<Row>) { forall i :: 0 <= i < |rows| ==> RowCanonical(rows[i]) }

  predicate CanonicalRequest(m: Message) {
    && MessageOk(m) && m.pduType != TRAP_V1 && RowsCanonical(m.rows) && |m.rows| <= VB
    && |m.community| <= OCTETS && |m.community| <= STR
    && (m.pduType == GETBULK_REQUEST && IntContent(m.version) == 1 ==> IntContent(m.errorStatus) >= 0)
  }

  function RowPrim(r: Row): Prim
    requires RowCanonical(r)
  {
    Meaning(Leaf(r.tag, r.content)).value.p
  }

  function Binds(rows: seq<Row>): (r: seq<VarBind>)
    requires RowsCanonical(rows)
    ensures |r| == |rows|
    ensures forall i :: 0 <= i < |rows| ==> r[i] == VarBind(rows[i].oid, RowPrim(rows[i]), NO_ERROR)
  {
    if rows == [] then [] else [VarBind(rows[0].oid, RowPrim(rows[0]), NO_ERROR)] + Binds(rows[1..])
  }

  function PacketOf(m: Message): Packet
    requires RowsCanonical(m.rows)
  {
    Packet(IntContent(m.version), m.community, m.pduType, IntContent(m.requestID), IntContent(m.errorStatus),
           IntContent(m.errorIndex), Binds(m.rows))
  }

  // ----------------------------------------------------- both parse the same

  lemma LeafMeaning(tag: byte, c: bytes)
    requires |c| < TWO16
    ensures tag == INTEGER ==> Meaning(Leaf(tag, c)) == Some(IntValue(IntContent(c)))
    ensures tag == STRING && |c| <= OCTETS && |c| <= STR ==> Meaning(Leaf(tag, c)) == Some(Simple(POctets(c)))
    ensures tag == OID && c != [] && c[0] == 0x2b && |c| <= OID_DATA ==> Meaning(Leaf(tag, c)) == Some(Simple(POid(c)))
  {
    assert c[..|c|] == c;
  }

  lemma MeaningCons(t: Tlv, ts: seq<Tlv>)
    requires Creatable(t.tag) && Meaning(t).Some? && MeaningAll(ts).Some?
    ensures MeaningAll([t] + ts) == Some([Meaning(t).value] + MeaningAll(ts).value)
  {
    assert ([t] + ts)[1..] == ts;
  }

  lemma MeaningNode(tag: byte, kids: seq<Tlv>)
    requires IsComplexTag(tag) && |kids| <= CHILDREN && |EncAll(kids)| < TWO16 && MeaningAll(kids).Some?
    ensures Meaning(Node(tag, kids)) == Some(Complex(tag, MeaningAll(kids).value))
  {}

  function RowValue(r: Row): Value
    requires RowCanonical(r)
  {
    Complex(STRUCTURE, [Simple(POid(r.oid)), Simple(RowPrim(r))])
  }

  function RowValues(rows: seq<Row>): (r: seq<Value>)
    requires RowsCanonical(rows)
    ensures |r| == |rows|
  {
    if rows == [] then [] else [RowValue(rows[0])] + RowValues(rows[1..])
  }

  lemma RowMeaning(r: Row)
    requires RowCanonical(r) && |Enc(RowTlv(r))| < TWO16
    ensures Meaning(RowTlv(r)) == Some(RowValue(r))
  {
    hide Enc, Meaning, MeaningAll;
    var a, b := Leaf(OID, r.oid), Leaf(r.tag, r.content);
    RowLength(r);
    LeafMeaning(OID, r.oid);
    PrimLeaf(r);
    NoMeaning();
    assert [a, b] == [a] + [b] && [b] == [b] + [];
    MeaningCons(b, []);
    MeaningCons(a, [b]);
    var u, v := Simple(POid(r.oid)), Simple(RowPrim(r));
    assert [u] + ([v] + []) == [u, v];
    MeaningNode(STRUCTURE, [a, b]);
  }

  lemma PrimLeaf(r: Row)
    requires RowCanonical(r)
    ensures Creatable(r.tag) && Meaning(Leaf(r.tag, r.content)) == Some(Simple(RowPrim(r)))
  {}

  lemma NoMeaning()
    ensures MeaningAll([]) == Some([])
  {}

  lemma RowLength(r: Row)
    ensures |r.oid| + |EncAll([Leaf(OID, r.oid), Leaf(r.tag, r.content)])| < |Enc(RowTlv(r))| + |r.oid|
    ensures |r.oid| < |Enc(RowTlv(r))|
  {
    EncTwo(Leaf(OID, r.oid), Leaf(r.tag, r.content));
  }

  lemma {:induction false} RowsMeaning(rows: seq<Row>)
    requires RowsCanonical(rows) && |EncAll(RowTlvs(rows))| < TWO16
    ensures MeaningAll(RowTlvs(rows)) == Some(RowValues(rows))
  {
    hide Enc, Meaning, MeaningAll, RowCanonical;
    if rows == [] {
      NoMeaning();
    } else {
      var ts := RowTlvs(rows);
      assert ts == [RowTlv(rows[0])] + RowTlvs(rows[1..]) && ts[1..] == RowTlvs(rows[1..]);
      assert RowCanonical(rows[0]);
      RowMeaning(rows[0]);
      RowsMeaning(rows[1..]);
      MeaningCons(RowTlv(rows[0]), RowTlvs(rows[1..]));
    }
  }

  function MessageValue(m: Message): Value
    requires RowsCanonical(m.rows)
  {
    Complex(STRUCTURE, [IntValue(IntContent(m.version)), Simple(POctets(m.community)), PduValue(m)])
  }

  function PduValue(m: Message): Value
    requires RowsCanonical(m.rows)
  {
    Complex(m.pduType, [IntValue(IntContent(m.requestID)), IntValue(IntContent(m.errorStatus)),
                        IntValue(IntContent(m.errorIndex)), Complex(STRUCTURE, RowValues(m.rows))])
  }

  lemma PduMeaning(m: Message)
    requires CanonicalRequest(m) && VB <= CHILDREN && |Enc(PduTlv(m))| < TWO16
    ensures Meaning(PduTlv(m)) == Some(PduValue(m))
  {
    hide Enc, EncAll, Meaning, MeaningAll, IntContent, RowTlvs, RowCanonical;
    var x, y, z, l := Leaf(INTEGER, m.requestID), Leaf(INTEGER, m.errorStatus), Leaf(INTEGER, m.errorIndex),
                      Node(STRUCTURE, RowTlvs(m.rows));
    PduLengths(m);
    LeafMeaning(INTEGER, m.requestID);
    LeafMeaning(INTEGER, m.errorStatus);
    LeafMeaning(INTEGER, m.errorIndex);
    RowsMeaning(m.rows);
    MeaningNode(STRUCTURE, RowTlvs(m.rows));
    NoMeaning();
    assert [x, y, z, l] == [x] + [y, z, l] && [y, z, l] == [y] + [z, l] && [z, l] == [z] + [l] && [l] == [l] + [];
    MeaningCons(l, []);
    MeaningCons(z, [l]);
    MeaningCons(y, [z, l]);
    MeaningCons(x, [y, z, l]);
    var k := PduValue(m).kids;
    assert [k[0]] + ([k[1]] + ([k[2]] + ([k[3]] + []))) == k;
    MeaningNode(m.pduType, [x, y, z, l]);
  }

  lemma PduLengths(m: Message)
    ensures var n := |Enc(PduTlv(m))|;
            && |m.requestID| < n && |m.errorStatus| < n && |m.errorIndex| < n && |EncAll(RowTlvs(m.rows))| < n
            && |EncAll([Leaf(INTEGER, m.requestID), Leaf(INTEGER, m.errorStatus), Leaf(INTEGER, m.errorIndex),
                        Node(STRUCTURE, RowTlvs(m.rows))])| < n
  {
    hide EncAll, RowTlvs;
    EncFour(Leaf(INTEGER, m.requestID), Leaf(INTEGER, m.errorStatus), Leaf(INTEGER, m.errorIndex),
            Node(STRUCTURE, RowTlvs(m.rows)));
  }

  lemma MessageLengths(m: Message)
    ensures var n := |Enc(MessageTlv(m))|;
            && |m.version| < n && |m.community| < n && |Enc(PduTlv(m))| < n
            && |EncAll([Leaf(INTEGER, m.version), Leaf(STRING, m.community), PduTlv(m)])| < n
  {
    hide EncAll, RowTlvs, PduTlv;
    EncThree(Leaf(INTEGER, m.version), Leaf(STRING, m.community), PduTlv(m));
  }

  lemma MessageMeaning(m: Message)
    requires CanonicalRequest(m) && VB <= CHILDREN
    ensures Meaning(MessageTlv(m)) == Some(MessageValue(m))
  {
    hide Enc, EncAll, Meaning, MeaningAll, IntContent, PduTlv, RowsCanonical;
    var a, b, p := Leaf(INTEGER, m.version), Leaf(STRING, m.community), PduTlv(m);
    MessageLengths(m);
    LeafMeaning(INTEGER, m.version);
    LeafMeaning(STRING, m.community);
    PduMeaning(m);
    PduTag(m);
    NoMeaning();
    assert [a, b, p] == [a] + [b, p] && [b, p] == [b] + [p] && [p] == [p] + [];
    MeaningCons(p, []);
    MeaningCons(b, [p]);
    MeaningCons(a, [b, p]);
    var k := MessageValue(m).kids;
    assert [k[0]] + ([k[1]] + ([k[2]] + [])) == k;
    MeaningNode(STRUCTURE, [a, b, p]);
  }

  lemma PduTag(m: Message)
    ensures PduTlv(m).tag == m.pduType
  {}

  /** The tree of a message takes three slots a row and eight more. */
  lemma MessageNodes(m: Message)
    requires RowsCanonical(m.rows)
    ensures Nodes(MessageValue(m)) == 8 + 3 * |m.rows|
  {
    hide RowValues, RowsCanonical;
    RowsNodes(m.rows);
    var l := Complex(STRUCTURE, RowValues(m.rows));
    var x, y, z := IntValue(IntContent(m.requestID)), IntValue(IntContent(m.errorStatus)),
        IntValue(IntContent(m.errorIndex));
    NodesCons(x, [y, z, l]); NodesCons(y, [z, l]); NodesCons(z, [l]); NodesCons(l, []);
    assert [x, y, z, l] == [x] + [y, z, l] && [y, z, l] == [y] + [z, l] && [z, l] == [z] + [l] && [l] == [l] + [];
    var a, b, p := IntValue(IntContent(m.version)), Simple(POctets(m.community)), PduValue(m);
    assert p.kids == [x, y, z, l];
    NodesCons(a, [b, p]); NodesCons(b, [p]); NodesCons(p, []);
    assert [a, b, p] == [a] + [b, p] && [b, p] == [b] + [p] && [p] == [p] + [];
    assert MessageValue(m).kids == [a, b, p];
  }

  lemma NodesCons(v: Value, vs: seq<Value>)
    ensures NodesAll([v] + vs) == Nodes(v) + NodesAll(vs) && NodesAll([]) == 0
  {
    assert ([v] + vs)[1..] == vs;
  }

  lemma {:induction false} RowsNodes(rows: seq<Row>)
    requires RowsCanonical(rows)
    ensures NodesAll(RowValues(rows)) == 3 * |rows|
    decreases |rows|
  {
    hide RowCanonical, RowPrim;
    if rows != [] {
      RowsSplit(rows);
      RowsNodes(rows[1..]);
      var a, b := Simple(POid(rows[0].oid)), Simple(RowPrim(rows[0]));
      NodesCons(a, [b]); NodesCons(b, []);
      assert [a, b] == [a] + [b] && [b] == [b] + [];
      NodesCons(RowValue(rows[0]), RowValues(rows[1..]));
    }
  }

  lemma {:induction false} ParseRows(rows: seq<Row>, p: Packet)
    requires RowsCanonical(rows) && |p.varbinds| + |rows| <= VB
    ensures Parse(RowValues(rows), VARBIND, p) == Some(p.(varbinds := p.varbinds + Binds(rows)))
    decreases |rows|
  {
    hide RowCanonical, RowPrim, RowValue, RowValues, Parse, RowsCanonical, Binds;
    if rows == [] {
      NoBinds(p.varbinds);
      ParseDone(p);
    } else {
      RowsSplit(rows);
      var r := VarBind(rows[0].oid, RowPrim(rows[0]), NO_ERROR);
      BindsCons(p.varbinds, rows);
      ParseOne(rows[0], RowValues(rows[1..]), p);
      ParseRows(rows[1..], p.(varbinds := p.varbinds + [r]));
    }
  }

  lemma NoBinds(bs: seq<VarBind>)
    ensures RowValues([]) == [] && bs + Binds([]) == bs
  {}

  lemma BindsCons(bs: seq<VarBind>, rows: seq<Row>)
    requires RowsCanonical(rows) && rows != []
    ensures RowCanonical(rows[0]) && RowsCanonical(rows[1..])
    ensures RowValues(rows) == [RowValue(rows[0])] + RowValues(rows[1..])
    ensures bs + [VarBind(rows[0].oid, RowPrim(rows[0]), NO_ERROR)] + Binds(rows[1..]) == bs + Binds(rows)
  {
    hide RowCanonical, RowPrim, RowValue;
  }

  lemma RowsSplit(rows: seq<Row>)
    requires RowsCanonical(rows) && rows != []
    ensures RowCanonical(rows[0]) && RowsCanonical(rows[1..])
  {
    hide RowCanonical;
  }

  lemma ParseDone(p: Packet)
    ensures Parse([], VARBIND, p) == Some(p)
  {}

  lemma ParseOne(r: Row, rest: seq<Value>, p: Packet)
    requires RowCanonical(r) && |p.varbinds| < VB
    ensures Parse([RowValue(r)] + rest, VARBIND, p) ==
            Parse(rest, VARBIND, p.(varbinds := p.varbinds + [VarBind(r.oid, RowPrim(r), NO_ERROR)]))
  {
    hide RowCanonical, RowPrim;
    assert ([RowValue(r)] + rest)[1..] == rest;
  }

  lemma ParsePdu(m: Message, p: Packet)
    requires RowsCanonical(m.rows) && |m.rows| <= VB && p.varbinds == []
    ensures Parse(PduValue(m).kids, REQUESTID, p) ==
            Some(p.(requestID := IntContent(m.requestID), errorStatus := IntContent(m.errorStatus),
                    errorIndex := IntContent(m.errorIndex), varbinds := Binds(m.rows)))
  {
    hide IntContent, RowCanonical, RowValues;
    var k := PduValue(m).kids;
    var p1 := p.(requestID := IntContent(m.requestID));
    var p2 := p1.(errorStatus := IntContent(m.errorStatus));
    var p3 := p2.(errorIndex := IntContent(m.errorIndex));
    assert k[1..][1..][1..] == [k[3]] && k[1..][0] == k[1] && k[1..][1..][0] == k[2];
    assert Parse(k, REQUESTID, p) == Parse(k[1..], ERRORSTATUS, p1);
    assert Parse(k[1..], ERRORSTATUS, p1) == Parse(k[1..][1..], ERRORID, p2);
    assert Parse(k[1..][1..], ERRORID, p2) == Parse([k[3]], VARBINDS, p3);
    assert Parse([k[3]], VARBINDS, p3) == Parse(RowValues(m.rows), VARBIND, p3);
    ParseRows(m.rows, p3);
    assert p3.varbinds + Binds(m.rows) == Binds(m.rows);
  }

  /** The classic parser reads a canonical message, whatever follows it. */
  lemma ClassicParses(m: Message, rest: bytes, free: nat)
    requires CanonicalRequest(m) && VB <= CHILDREN && free >= 8 + 3 * |m.rows|
    ensures ParseFrom(Enc(MessageTlv(m)) + rest, free) == Some(PacketOf(m))
  {
    hide Enc, Meaning, IntContent, RowsCanonical, PduValue, Decode, Nodes;
    var t := MessageTlv(m);
    MessageMeaning(m);
    MessageNodes(m);
    EncStart(t);
    DecodeTree(t, rest, free - 1);
    var k := MessageValue(m).kids;
    assert k[1..][1..] == [k[2]] && k[1..][0] == k[1];
    var p1 := EMPTY_PACKET.(version := IntContent(m.version));
    var p2 := p1.(community := m.community);
    assert Parse(k, SNMPVERSION, EMPTY_PACKET) == Parse(k[1..], COMMUNITY_STRING, p1);
    assert Parse(k[1..], COMMUNITY_STRING, p1) == Parse([k[2]], PDU, p2);
    PduKids(m);
    assert Parse([k[2]], PDU, p2) == Parse(PduValue(m).kids, REQUESTID, p2.(pduType := m.pduType));
    ParsePdu(m, p2.(pduType := m.pduType));
  }

  lemma PduKids(m: Message)
    requires RowsCanonical(m.rows)
    ensures PduValue(m).Complex? && PduValue(m).ctag == m.pduType
  {}

  /** The zero-copy decode pass on the same message. */
  lemma {:induction false} ZeroCopyDecodes(rows: seq<Row>, free: nat)
    requires RowsCanonical(rows) && free >= |rows|
    ensures DecodeValues(RowsRead(rows), free) == Some(Simples(Binds(rows)))
  {
    hide RowCanonical, RowsCanonical, DecodeValue;
    if rows != [] {
      RowsSplit(rows);
      OneDecodes(rows[0], free);
      ZeroCopyDecodes(rows[1..], free - 1);
      assert RowsRead(rows)[1..] == RowsRead(rows[1..]);
      assert Binds(rows)[1..] == Binds(rows[1..]);
    }
  }

  lemma OneDecodes(r: Row, free: nat)
    requires RowCanonical(r) && free > 0
    ensures DecodeValue(ReqVb(r.oid, r.tag, Wrap(r.tag, r.content)), free) == Some(Simple(RowPrim(r)))
  {
    hide Meaning, DecodePrim;
    PrimLeaf(r);
    LeafDecode(r.tag, r.content, []);
    assert Wrap(r.tag, r.content) + [] == Wrap(r.tag, r.content);
  }

  function Simples(bs: seq<VarBind>): (r: seq<Value>)
    ensures |r| == |bs| && forall i :: 0 <= i < |bs| ==> r[i] == Simple(bs[i].value)
  {
    if bs == [] then [] else [Simple(bs[0].value)] + Simples(bs[1..])
  }

  lemma {:induction false} SimpleNodes(bs: seq<VarBind>)
    ensures NodesAll(Simples(bs)) == |bs|
  {
    if bs != [] {
      SimpleNodes(bs[1..]);
      assert Simples(bs)[1..] == Simples(bs[1..]);
    }
  }

  // ---------------------------------------------------- both stage the same

  /** A planned row as the classic engine holds it. */
  function AsBind(p: Planned): VarBind {
    VarBind(p.oid, if p.value.Some? then p.value.value else PNull(p.nullTag), p.error)
  }

  function AsBinds(rows: seq<Planned>): (r: seq<VarBind>)
    ensures |r| == |rows| && forall i :: 0 <= i < |rows| ==> r[i] == AsBind(rows[i])
  {
    seq(|rows|, i requires 0 <= i < |rows| => AsBind(rows[i]))
  }

  lemma AsBindsAppend(a: seq<Planned>, b: seq<Planned>)
    ensures AsBinds(a + b) == AsBinds(a) + AsBinds(b)
  {}

  lemma AsBindsCons(out: seq<VarBind>, row: Planned, rest: seq<Planned>)
    ensures out + [AsBind(row)] + AsBinds(rest) == out + AsBinds([row] + rest)
  {}

  lemma OneBind()
    ensures forall row: Planned :: AsBinds([row]) == [AsBind(row)]
  {
    forall row: Planned ensures AsBinds([row]) == [AsBind(row)] {
      var s := AsBinds([row]);
      assert |s| == 1 && s[0] == AsBind(row);
    }
  }

  /** The same varbinds, as slices and as clones. */
  predicate Same(vbs: seq<ReqVb>, bs: seq<VarBind>) {
    |vbs| == |bs| && forall i :: 0 <= i < |vbs| ==> SameOne(vbs[i], bs[i])
  }

  predicate SameOne(vb: ReqVb, b: VarBind) { vb.oid == b.oid && vb.tag == PrimTag(b.value) && OidOk(vb.oid) }

  lemma SameRest(vbs: seq<ReqVb>, bs: seq<VarBind>)
    requires Same(vbs, bs) && vbs != []
    ensures SameOne(vbs[0], bs[0]) && Same(vbs[1..], bs[1..])
  {}

  lemma {:induction false} GetsAgree(store: seq<Handler>, version: int, vbs: seq<ReqVb>, bs: seq<VarBind>, next: bool,
                                     room: nat, free: nat, out: seq<VarBind>)
    requires Same(vbs, bs) && NamesHold(store) && |vbs| <= room < free && |out| + room == VB
    ensures var r := Gets(store, version, vbs, next, room, free);
            r.Some? && |r.value| == |vbs| && HandleGet(store, version, bs, next, out) == out + AsBinds(r.value)
    decreases vbs
  {
    hide FindFrom, ReadCell, OidOk, Same, NamesHold, ForVersion;
    SameLength(vbs, bs);
    if vbs == [] {
      assert out + [] == out;
    } else {
      SameRest(vbs, bs);
      GetBinds(store, version, vbs[0], bs[0], next, free);
      var row := GetRow(store, version, vbs[0], next, free);
      GetsAgree(store, version, vbs[1..], bs[1..], next, room - 1, free - Cost(row), out + [AsBind(row)]);
      AsBindsCons(out, row, Gets(store, version, vbs[1..], next, room - 1, free - Cost(row)).value);
    }
  }

  lemma GetBinds(store: seq<Handler>, version: int, vb: ReqVb, b: VarBind, next: bool, free: nat)
    requires SameOne(vb, b) && NamesHold(store) && free > 0
    ensures var row := GetRow(store, version, vb, next, free);
            GetBind(store, version, b, next) == AsBind(row) && OidOk(row.oid)
  {
    hide FindFrom, ReadCell, OidOk;
  }

  lemma {:induction false} SetsAgree(store: seq<Handler>, version: int, vbs: seq<ReqVb>, bs: seq<VarBind>,
                                     memory: Memory, at: nat, room: nat, free: nat, out: seq<VarBind>)
    requires Same(vbs, bs) && NamesHold(store) && |vbs| <= room < free && |out| + room == VB
    ensures |Simples(bs)| == |vbs|
    ensures var r := Sets(store, version, vbs, Simples(bs), memory, at, room, free);
            && r.0.Some? && |r.0.value| == |vbs|
            && HandleSet(store, version, bs, memory, at, out) == (out + AsBinds(r.0.value), r.1)
    decreases vbs
  {
    hide FindFrom, ReadCell, OidOk, Same, NamesHold, ForVersion, SetRow, SetBind;
    SameLength(vbs, bs);
    if vbs == [] {
      assert out + [] == out;
    } else {
      SameRest(vbs, bs);
      SetBinds(store, version, vbs[0], bs[0], memory(at), free);
      var (row, next) := SetRow(store, version, vbs[0], Simple(bs[0].value), memory(at), free);
      assert Simples(bs)[1..] == Simples(bs[1..]);
      SetsAgree(next, version, vbs[1..], bs[1..], memory, at + 1, room - 1, free - Cost(row), out + [AsBind(row)]);
      AsBindsCons(out, row, Sets(next, version, vbs[1..], Simples(bs[1..]), memory, at + 1, room - 1,
                                 free - Cost(row)).0.value);
    }
  }

  lemma SameLength(vbs: seq<ReqVb>, bs: seq<VarBind>)
    requires Same(vbs, bs)
    ensures |bs| == |vbs|
  {}

  lemma SetBinds(store: seq<Handler>, version: int, vb: ReqVb, b: VarBind, rest: Residue, free: nat)
    requires SameOne(vb, b) && NamesHold(store) && free > 0
    ensures var (row, next) := SetRow(store, version, vb, Simple(b.value), rest, free);
            SetBind(store, version, b, rest) == (AsBind(row), next) && OidOk(row.oid) && NamesHold(next)
  {
    hide FindFrom, ReadCell, OidOk, WriteCell;
  }

  lemma {:induction false} FirstAgree(store: seq<Handler>, vbs: seq<ReqVb>, bs: seq<VarBind>, room: nat, free: nat,
                                      out: seq<VarBind>)
    requires Same(vbs, bs) && NamesHold(store) && room < free && |out| + room == VB
    ensures var r := NonRepeaters(store, vbs, room, free);
            BulkFirst(store, bs, out) == (if r.None? then None else Some(out + AsBinds(r.value)))
    decreases vbs
  {
    hide FindFrom, ReadCell, OidOk, Same, NamesHold, NonRepeaterRow, NonRepeaterBind;
    SameLength(vbs, bs);
    if vbs == [] {
      assert out + [] == out;
    } else if room > 0 {
      SameRest(vbs, bs);
      FirstBinds(store, vbs[0], bs[0], free);
      var row := NonRepeaterRow(store, vbs[0], free);
      FirstAgree(store, vbs[1..], bs[1..], room - 1, free - Cost(row), out + [AsBind(row)]);
      var rest := NonRepeaters(store, vbs[1..], room - 1, free - Cost(row));
      if rest.Some? { AsBindsCons(out, row, rest.value); }
    }
  }

  lemma FirstBinds(store: seq<Handler>, vb: ReqVb, b: VarBind, free: nat)
    requires SameOne(vb, b) && NamesHold(store) && free > 0
    ensures var row := NonRepeaterRow(store, vb, free); NonRepeaterBind(store, b) == AsBind(row) && OidOk(row.oid)
  {
    hide FindFrom, ReadCell, OidOk;
  }

  lemma {:induction false} RepeatAgrees(store: seq<Handler>, oid: bytes, foundAt: nat, reps: nat, room: nat, free: nat,
                                        out: seq<VarBind>)
    requires OidOk(oid) && NamesHold(store) && room < free && |out| + room == VB
    ensures var r := Repeat(store, oid, foundAt, reps, room, free);
            BulkRepeat(store, oid, foundAt, reps, out) == (if r.None? then None else Some(out + AsBinds(r.value)))
    decreases reps
  {
    hide FindFrom, ReadCell, OidOk, NamesHold;
    if reps == 0 {
      assert out + [] == out;
    } else {
      OneRow();
      OneBind();
      var found := FindFrom(Names(store), oid, true, foundAt);
      if found.Some? {
        var i := found.value;
        NameHolds(store, i);
        if ReadCell(store[i]).Some? && room > 0 {
          var row := Planned(store[i].oid, Some(ReadCell(store[i]).value), 0, NO_ERROR);
          RepeatAgrees(store, store[i].oid, i, reps - 1, room - 1, free - 1, out + [AsBind(row)]);
          var rest := Repeat(store, store[i].oid, i, reps - 1, room - 1, free - 1);
          if rest.Some? { AsBindsCons(out, row, rest.value); }
        }
      }
    }
  }

  lemma {:induction false} RestAgree(store: seq<Handler>, vbs: seq<ReqVb>, bs: seq<VarBind>, reps: nat, room: nat,
                                     free: nat, out: seq<VarBind>)
    requires Same(vbs, bs) && NamesHold(store) && room < free && |out| + room == VB
    ensures var r := Repeaters(store, vbs, reps, room, free);
            BulkRest(store, bs, reps, out) == (if r.None? then None else Some(out + AsBinds(r.value)))
    decreases vbs
  {
    hide OidOk, Same, NamesHold, Repeat, BulkRepeat, CostAll;
    SameLength(vbs, bs);
    if vbs == [] {
      assert out + [] == out;
    } else {
      SameRest(vbs, bs);
      RepeatAgrees(store, vbs[0].oid, 0, reps, room, free, out);
      var r := Repeat(store, vbs[0].oid, 0, reps, room, free);
      if r.Some? {
        RepeatSize(store, vbs[0].oid, 0, reps, room, free);
        var left := free - CostAll(r.value);
        RestAgree(store, vbs[1..], bs[1..], reps, room - |r.value|, left, out + AsBinds(r.value));
        var rest := Repeaters(store, vbs[1..], reps, room - |r.value|, left);
        if rest.Some? {
          AsBindsAppend(r.value, rest.value);
          assert out + AsBinds(r.value) + AsBinds(rest.value) == out + AsBinds(r.value + rest.value);
        }
      }
    }
  }

  lemma {:induction false} RepeatSize(store: seq<Handler>, oid: bytes, foundAt: nat, reps: nat, room: nat, free: nat)
    requires Repeat(store, oid, foundAt, reps, room, free).Some?
    ensures var rows := Repeat(store, oid, foundAt, reps, room, free).value; CostAll(rows) <= |rows| <= room
    decreases reps
  {
    hide FindFrom, ReadCell, OidOk, CostAll;
    CostAtMost(Repeat(store, oid, foundAt, reps, room, free).value);
    if reps > 0 {
      var found := FindFrom(Names(store), oid, true, foundAt);
      if found.Some? && ReadValue(store[found.value], free).Some? {
        RepeatSize(store, store[found.value].oid, found.value, reps - 1, room - 1, free - 1);
      }
    }
  }

  lemma {:induction false} FirstSize(store: seq<Handler>, vbs: seq<ReqVb>, room: nat, free: nat)
    requires NonRepeaters(store, vbs, room, free).Some?
    ensures var rows := NonRepeaters(store, vbs, room, free).value; CostAll(rows) <= |rows| <= room
    decreases vbs
  {
    hide FindFrom, ReadCell, OidOk, CostAll;
    CostAtMost(NonRepeaters(store, vbs, room, free).value);
    if vbs != [] { FirstSize(store, vbs[1..], room - 1, free - Cost(NonRepeaterRow(store, vbs[0], free))); }
  }

  lemma BulkAgrees(store: seq<Handler>, q: Request, bs: seq<VarBind>, free: nat)
    requires Same(q.vbs, bs) && NamesHold(store) && VB < free
    ensures var r := Bulk(store, q, free);
            HandleBulk(store, bs, U32(q.errorStatus), U32(q.errorIndex)) ==
            (if r.None? then None else Some(AsBinds(r.value)))
  {
    hide NonRepeaters, Repeaters, BulkFirst, BulkRest, NamesHold, CostAll;
    var nonRepeaters := U32(q.errorStatus);
    var n := if nonRepeaters < |q.vbs| then nonRepeaters else |q.vbs|;
    assert Same(q.vbs[..n], bs[..n]) && Same(q.vbs[n..], bs[n..]);
    FirstAgree(store, q.vbs[..n], bs[..n], VB, free, []);
    var first := NonRepeaters(store, q.vbs[..n], VB, free);
    if first.Some? {
      FirstSize(store, q.vbs[..n], VB, free);
      assert [] + AsBinds(first.value) == AsBinds(first.value);
      RestAgree(store, q.vbs[n..], bs[n..], U32(q.errorIndex), VB - |first.value|, free - CostAll(first.value),
                AsBinds(first.value));
      var more := Repeaters(store, q.vbs[n..], U32(q.errorIndex), VB - |first.value|, free - CostAll(first.value));
      if more.Some? { AsBindsAppend(first.value, more.value); }
    }
  }

  function AsServed(s: Staged): Served {
    match s
    case Rows(rows) => Served(AsBinds(rows))
    case Global(e) => Refused(e)
  }

  /** The packet the classic parser makes of the request q. */
  predicate SamePacket(q: Request, p: Packet) {
    && q.version == p.version && q.community == p.community && q.pduType == p.pduType && q.requestID == p.requestID
    && q.errorStatus == p.errorStatus && q.errorIndex == p.errorIndex && Same(q.vbs, p.varbinds)
  }

  /** From the same memory: one staged answer and one store. */
  lemma StagesAgree(permission: Permission, store: seq<Handler>, q: Request, p: Packet, memory: Memory, free: nat)
    requires SamePacket(q, p) && NamesHold(store) && |q.vbs| <= VB < free
    ensures |Simples(p.varbinds)| == |q.vbs|
    ensures var (staged, store') := Stage(permission, store, q, Simples(p.varbinds), memory, free);
            Serve(permission, store, memory, p) == (AsServed(staged), store')
  {
    hide Gets, Bulk, Sets, HandleGet, HandleSet, HandleBulk, NamesHold, Same, AsBinds;
    SameLength(q.vbs, p.varbinds);
    GetsAgree(store, q.version, q.vbs, p.varbinds, q.pduType == GETNEXT_REQUEST, VB, free, []);
    SetsAgree(store, q.version, q.vbs, p.varbinds, memory, 0, VB, free, []);
    BulkAgrees(store, q, p.varbinds, free);
    Empties(Gets(store, q.version, q.vbs, q.pduType == GETNEXT_REQUEST, VB, free).value);
    Empties(Sets(store, q.version, q.vbs, Simples(p.varbinds), memory, 0, VB, free).0.value);
  }

  lemma Empties(rows: seq<Planned>)
    ensures [] + AsBinds(rows) == AsBinds(rows)
  {}

  // ------------------------------------------------ both build the same tree

  lemma BindTree(p: Planned)
    ensures ValueTlv(BindValue(AsBind(p))) == RowTlv(PlannedRow(p))
  {
    var b := AsBind(p);
    assert [Simple(POid(b.oid)), Simple(b.value)][1..] == [Simple(b.value)] && [Simple(b.value)][1..] == [];
    assert ValueTlvs([Simple(b.value)]) == [ValueTlv(Simple(b.value))];
    assert ValueTlvs([Simple(POid(b.oid)), Simple(b.value)])
           == [ValueTlv(Simple(POid(b.oid))), ValueTlv(Simple(b.value))];
  }

  lemma {:induction false} BindTrees(rows: seq<Planned>)
    ensures ValueTlvs(BindValues(AsBinds(rows))) == RowTlvs(PlannedRows(rows))
    decreases |rows|
  {
    if rows != [] {
      BindTree(rows[0]);
      BindTrees(rows[1..]);
      assert AsBinds(rows)[1..] == AsBinds(rows[1..]) && PlannedRows(rows)[1..] == PlannedRows(rows[1..]);
      assert BindValues(AsBinds(rows))[1..] == BindValues(AsBinds(rows[1..]));
      assert ValueTlvs(BindValues(AsBinds(rows)))[0] == ValueTlv(BindValue(AsBind(rows[0])));
    }
  }

  lemma TlvsCons(v: Value, vs: seq<Value>)
    ensures ValueTlvs([v] + vs) == [ValueTlv(v)] + ValueTlvs(vs) && ValueTlvs([]) == []
  {
    assert ([v] + vs)[1..] == vs;
  }

  lemma ReplyTree(q: Request, p: Packet, status: int, index: int, rows: seq<Planned>)
    requires SamePacket(q, p) && |q.community| <= STR && |rows| <= CHILDREN
    ensures ValueTlv(ResponseTree(p, status, index, AsBinds(rows))) ==
            MessageTlv(Reply(q, status, index, PlannedRows(rows)))
  {
    hide ValueTlvs, AsBinds, BindValues, RowTlvs, PlannedRows, Same;
    BindTrees(rows);
    var list := Complex(STRUCTURE, BindValues(AsBinds(rows)));
    var a, b, c := IntValue(p.requestID), IntValue(status), IntValue(index);
    var pdu := Complex(GET_RESPONSE, [a, b, c, list]);
    var x, y := IntValue(p.version), Simple(POctets(p.community));
    TlvsCons(list, []);
    TlvsCons(c, [list]);
    TlvsCons(b, [c, list]);
    TlvsCons(a, [b, c, list]);
    assert [list] == [list] + [] && [c, list] == [c] + [list] && [b, c, list] == [b] + [c, list]
           && [a, b, c, list] == [a] + [b, c, list];
    TlvsCons(pdu, []);
    TlvsCons(y, [pdu]);
    TlvsCons(x, [y, pdu]);
    assert [pdu] == [pdu] + [] && [y, pdu] == [y] + [pdu] && [x, y, pdu] == [x] + [y, pdu];
    var m := Reply(q, status, index, PlannedRows(rows));
    assert ValueTlv(list) == Node(STRUCTURE, RowTlvs(m.rows));
    assert ValueTlv(pdu) == PduTlv(m);
    assert ResponseTree(p, status, index, AsBinds(rows)) == Complex(STRUCTURE, [x, y, pdu]);
    assert ValueTlv(Complex(STRUCTURE, [x, y, pdu])) == MessageTlv(m);
  }

  lemma {:induction false} SameLastError(rows: seq<Planned>)
    ensures LastBindError(AsBinds(rows)) == LastError(rows)
  {
    if rows != [] {
      assert AsBinds(rows)[..|rows| - 1] == AsBinds(rows[..|rows| - 1]);
      SameLastError(rows[..|rows| - 1]);
    }
  }

  // -------------------------------------------------------------- agreement

  /** The message is short enough for max octets, but the scope writer, which holds four octets for
      every open header, does not get it in. */
  predicate Split(m: Message, max: nat) { |Enc(MessageTlv(m))| <= max && !Fits(m, max) }

  /** The capacity splits the engines on this answer: on the answer itself, or, when that is too long
      for both, on the tooBig response. */
  predicate Gap(q: Request, staged: Staged, max: nat) {
    match staged
    case Global(e) => Split(ErrorReply(q, e), max)
    case Rows(rows) =>
      Split(NormalReply(q, rows), max)
      || (|Enc(MessageTlv(NormalReply(q, rows)))| > max && Split(ErrorReply(q, TOO_BIG), max))
  }

  lemma RespondIs(q: Request, p: Packet, staged: Staged, max: nat)
    requires SamePacket(q, p) && |q.community| <= STR && (staged.Rows? ==> |staged.rows| <= CHILDREN)
    ensures var first := if staged.Rows? then NormalReply(q, staged.rows) else ErrorReply(q, staged.error);
            Respond(p, AsServed(staged), max) ==
            if |Enc(MessageTlv(first))| <= max then
              (if staged.Rows? then SuccessCode(q.pduType) else SNMP_ERROR_PACKET_SENT, Enc(MessageTlv(first)))
            else if |Enc(MessageTlv(ErrorReply(q, TOO_BIG)))| <= max then
              (SNMP_ERROR_PACKET_SENT, Enc(MessageTlv(ErrorReply(q, TOO_BIG))))
            else (SNMP_FAILED_SERIALISATION, [])
  {
    hide Enc, ResponseTree, Reply, MessageTlv, ValueTlv, LastError, LastBindError, SamePacket;
    NoPlanned();
    ReplyTree(q, p, TOO_BIG, 0, []);
    SameType(q, p);
    match staged {
      case Rows(rows) =>
        SameLastError(rows);
        ReplyTree(q, p, LastError(rows).0, LastError(rows).1, rows);
      case Global(e) =>
        ReplyTree(q, p, e, 0, []);
    }
  }

  lemma NoPlanned()
    ensures AsBinds([]) == [] && PlannedRows([]) == []
  {}

  lemma SameType(q: Request, p: Packet)
    requires SamePacket(q, p)
    ensures q.pduType == p.pduType
  {}

  /** What a canonical request asks for, with rest standing behind it in the packet. */
  function CanonicalPacket(m: Message, rest: bytes): bytes { Enc(MessageTlv(m)) + rest }

  lemma CanonicalSame(m: Message)
    requires CanonicalRequest(m)
    ensures SamePacket(MessageRead(m), PacketOf(m))
  {
    hide IntContent, RowPrim;
    forall i | 0 <= i < |m.rows| ensures SameOne(MessageRead(m).vbs[i], PacketOf(m).varbinds[i]) {
      assert RowCanonical(m.rows[i]);
      TagKept(m.rows[i]);
    }
  }

  lemma TagKept(r: Row)
    requires RowCanonical(r)
    ensures PrimTag(RowPrim(r)) == r.tag
  {}

  /** The request is one to be answered. */
  predicate Answerable(cfg: Settings, m: Message) {
    m.pduType != GET_RESPONSE && PermissionOf(cfg, m.community) != NoPermission
  }

  predicate Setting(cfg: Settings, m: Message) {
    m.pduType == SET_REQUEST && PermissionOf(cfg, m.community) == ReadWrite
  }

  /** The staged answer to a canonical request. */
  function StagedAnswer(cfg: Settings, store: seq<Handler>, memory: Memory, free: nat, m: Message): Staged
    requires CanonicalRequest(m) && free > 2 * VB
  {
    var q := MessageRead(m);
    Stage(PermissionOf(cfg, q.community), store, q, Simples(Binds(m.rows)), memory, free - |m.rows|).0
  }

  /** The planned rows are what the zero-copy engine answers. */
  predicate RowsAnswered(q: Request, staged: Staged, max: nat) {
    staged.Rows? && Fits(NormalReply(q, staged.rows), max)
  }

  /** What the zero-copy engine makes of a canonical request. */
  lemma ZeroCopyIs(cfg: Settings, store: seq<Handler>, memory: Memory, free: nat, m: Message, rest: bytes)
    requires CanonicalRequest(m) && free > 2 * VB && cfg.max > 0
    ensures |Simples(Binds(m.rows))| == |MessageRead(m).vbs| == |m.rows| <= VB
    ensures Handle(cfg, store, memory, free, CanonicalPacket(m, rest)) ==
            Dispatch(cfg, store, MessageRead(m), Simples(Binds(m.rows)), memory, free - |m.rows|)
  {
    hide Enc, Walk, ReadVbs, Cut, MessageRead, DecodeValues, Dispatch, CanonicalRequest, Binds, RowsCanonical;
    MessageFacts(m);
    MessageRoundTrip(m, rest);
    ZeroCopyDecodes(m.rows, free);
    SimpleNodes(Binds(m.rows));
    HeaderFacts(m);
  }

  lemma SameHead(q: Request, p: Packet)
    requires SamePacket(q, p)
    ensures p.pduType == q.pduType && p.community == q.community && p.version == q.version && p.requestID == q.requestID
    ensures p.errorStatus == q.errorStatus
  {}

  /** And what the classic engine makes of it. */
  lemma ClassicIs(cfg: Settings, store: seq<Handler>, memory: Memory, slots: nat, m: Message, rest: bytes)
    requires CanonicalRequest(m) && VB <= CHILDREN && slots >= 8 + 3 * |m.rows|
    ensures RowsCanonical(m.rows)
    ensures ClassicHandle(cfg, store, memory, slots, CanonicalPacket(m, rest))
            == HandleParsed(cfg, store, memory, PacketOf(m))
  {
    hide ParseFrom, HandleParsed, CanonicalRequest, RowsCanonical, Enc, MessageTlv;
    MessageFacts(m);
    ClassicParses(m, rest, slots);
  }

  /** The same request, decoded by the one engine and parsed by the other. */
  lemma DispatchesAgree(cfg: Settings, store: seq<Handler>, memory: Memory, q: Request, p: Packet, free: nat)
    requires SamePacket(q, p) && NamesHold(store) && |q.vbs| <= VB < free && VB <= CHILDREN && |q.community| <= STR
    ensures |Simples(p.varbinds)| == |q.vbs|
    ensures var permission := PermissionOf(cfg, q.community);
            var c := HandleParsed(cfg, store, memory, p);
            var z := Dispatch(cfg, store, q, Simples(p.varbinds), memory, free);
            var gap := q.pduType != GET_RESPONSE && permission != NoPermission
                       && Gap(q, Stage(permission, store, q, Simples(p.varbinds), memory, free).0, cfg.max);
            (c == z <==> !gap) && (gap ==> c.code != z.code)
  {
    hide Stage, Serve, Answer, Respond, PermissionOf, Gap, NamesHold, SamePacket;
    SameHead(q, p);
    var permission := PermissionOf(cfg, q.community);
    StagesAgree(permission, store, q, p, memory, free);
    var staged := Stage(permission, store, q, Simples(p.varbinds), memory, free).0;
    StagedSize(permission, store, q, Simples(p.varbinds), memory, free);
    StagedSuccess(permission, store, q, Simples(p.varbinds), memory, free);
    AnswersAgree(q, p, staged, cfg.max);
  }

  /** With the same octets in the slots of the values, the engines agree if and only if the capacity does
      not split them; where it does, their return codes differ. */
  lemma SameMemory(cfg: Settings, store: seq<Handler>, memory: Memory, free: nat, slots: nat, m: Message, rest: bytes)
    requires CanonicalRequest(m) && VB <= CHILDREN && NamesHold(store) && cfg.max > 0
    requires free > 2 * VB && slots >= 8 + 3 * |m.rows|
    ensures var c := ClassicHandle(cfg, store, memory, slots, CanonicalPacket(m, rest));
            var z := Handle(cfg, store, memory, free, CanonicalPacket(m, rest));
            var gap := Answerable(cfg, m) && Gap(MessageRead(m), StagedAnswer(cfg, store, memory, free, m), cfg.max);
            (c == z <==> !gap) && (gap ==> c.code != z.code)
  {
    hide Stage, Handle, HandleParsed, ClassicHandle, Dispatch, PermissionOf, Gap, NamesHold, PacketOf, MessageRead,
         CanonicalRequest, CanonicalPacket, SamePacket, Binds;
    MessageFacts(m);
    HeaderFacts(m);
    CanonicalSame(m);
    ClassicIs(cfg, store, memory, slots, m, rest);
    ZeroCopyIs(cfg, store, memory, free, m, rest);
    DispatchesAgree(cfg, store, memory, MessageRead(m), PacketOf(m), free - |m.rows|);
  }

  lemma CanonicalSimple(m: Message)
    requires CanonicalRequest(m)
    ensures AllSimple(MessageRead(m).vbs, Simples(Binds(m.rows)))
  {
    hide IntContent, RowPrim;
    forall i | 0 <= i < |m.rows| ensures TypedSimple(MessageRead(m).vbs[i], Simples(Binds(m.rows))[i]) {
      assert RowCanonical(m.rows[i]);
      TagKept(m.rows[i]);
    }
  }

  /** A canonical SET is staged to the last row. */
  lemma SettingStages(cfg: Settings, store: seq<Handler>, memory: Memory, free: nat, m: Message)
    requires CanonicalRequest(m) && NamesHold(store) && free > 2 * VB && Setting(cfg, m)
    ensures StagedAnswer(cfg, store, memory, free, m).Rows?
  {
    hide CanonicalRequest, NamesHold, MessageRead, PacketOf, PermissionOf, Same, Sets, Binds, HandleSet;
    MessageFacts(m);
    var q, p := MessageRead(m), PacketOf(m);
    HeaderFacts(m);
    CanonicalSame(m);
    SetsAgree(store, q.version, q.vbs, p.varbinds, memory, 0, VB, free - |m.rows|, []);
  }

  /** Like rows are split by the same capacities. */
  lemma GapLike(q: Request, a: seq<Planned>, b: seq<Planned>, max: nat)
    requires LikeRows(a, b)
    ensures Gap(q, Rows(a), max) <==> Gap(q, Rows(b), max)
    ensures RowsAnswered(q, Rows(a), max) <==> RowsAnswered(q, Rows(b), max)
  {
    hide Enc, Peak, NormalReply, ErrorReply, LikeRows;
    ReplyLike(q, a, b);
  }

  /** A SET that is carried out, with either memory. */
  lemma DispatchMemory(cfg: Settings, store: seq<Handler>, q: Request, values: seq<Value>, x: Memory, y: Memory,
                       free: nat)
    requires AllSimple(q.vbs, values) && free > VB && q.pduType == SET_REQUEST
             && PermissionOf(cfg, q.community) == ReadWrite
    requires Stage(ReadWrite, store, q, values, x, free).0.Rows?
    ensures var a, b := Stage(ReadWrite, store, q, values, x, free).0, Stage(ReadWrite, store, q, values, y, free).0;
            var u, v := Dispatch(cfg, store, q, values, x, free), Dispatch(cfg, store, q, values, y, free);
            && (Gap(q, a, cfg.max) <==> Gap(q, b, cfg.max))
            && (RowsAnswered(q, a, cfg.max) <==> RowsAnswered(q, b, cfg.max))
            && u.code == v.code
            && (u == v <==> NoDifference(store, q.vbs, values, x, y, RowsAnswered(q, a, cfg.max)))
  {
    hide Answer, Gap, Fits, LikeRows, Stage, NoDifference, TypedSimple, PermissionOf, NormalReply;
    SetMemory(store, q, values, x, y, free, cfg.max);
    GapLike(q, Stage(ReadWrite, store, q, values, x, free).0.rows, Stage(ReadWrite, store, q, values, y, free).0.rows,
            cfg.max);
  }

  /** Only a SET that is carried out looks at the memory. */
  lemma DispatchElse(cfg: Settings, store: seq<Handler>, q: Request, values: seq<Value>, x: Memory, y: Memory,
                     free: nat)
    requires |values| == |q.vbs| && !(q.pduType == SET_REQUEST && PermissionOf(cfg, q.community) == ReadWrite)
    ensures var permission := PermissionOf(cfg, q.community);
            Stage(permission, store, q, values, x, free) == Stage(permission, store, q, values, y, free)
    ensures Dispatch(cfg, store, q, values, x, free) == Dispatch(cfg, store, q, values, y, free)
  {
    hide Gets, Bulk, Sets, PermissionOf, Answer;
  }

  /** What the octets in the slots do to the zero-copy engine on a canonical request: nothing to its return
      code, its splitting capacities and whether it answers with the planned rows, and nothing at all
      exactly when a SET of that kind does not show them. */
  lemma MemoryEffect(cfg: Settings, store: seq<Handler>, x: Memory, y: Memory, free: nat, m: Message, rest: bytes)
    requires CanonicalRequest(m) && NamesHold(store) && free > 2 * VB && cfg.max > 0
    ensures var q := MessageRead(m);
            var a, b := StagedAnswer(cfg, store, x, free, m), StagedAnswer(cfg, store, y, free, m);
            var u := Handle(cfg, store, x, free, CanonicalPacket(m, rest));
            var v := Handle(cfg, store, y, free, CanonicalPacket(m, rest));
            && (Gap(q, a, cfg.max) <==> Gap(q, b, cfg.max))
            && (RowsAnswered(q, a, cfg.max) <==> RowsAnswered(q, b, cfg.max))
            && u.code == v.code && |Simples(Binds(m.rows))| == |q.vbs|
            && (u == v <==> (Setting(cfg, m) ==>
                               NoDifference(store, q.vbs, Simples(Binds(m.rows)), x, y, RowsAnswered(q, a, cfg.max))))
  {
    hide MessageRead, PermissionOf, NamesHold, CanonicalRequest, Binds, NoDifference, Handle, CanonicalPacket, Gap,
         RowsAnswered, Stage, Dispatch, AllSimple, Simples;
    MessageFacts(m);
    HeaderFacts(m);
    var q, values := MessageRead(m), Simples(Binds(m.rows));
    ZeroCopyIs(cfg, store, x, free, m, rest);
    ZeroCopyIs(cfg, store, y, free, m, rest);
    if Setting(cfg, m) {
      CanonicalSimple(m);
      SettingStages(cfg, store, x, free, m);
      DispatchMemory(cfg, store, q, values, x, y, free - |m.rows|);
    } else {
      DispatchElse(cfg, store, q, values, x, y, free - |m.rows|);
    }
  }

  /** With any octets in the slots: the engines agree on a canonical request - same return code, same
      response octets, same handlers, same inform callback - if and only if the capacity does not split
      them and, on a SET, what the slots of the two engines held makes no difference. slots covers the
      parse tree of the classic engine; its further copies are taken to succeed. */
  lemma EnginesAgreeOn(cfg: Settings, store: seq<Handler>, zc: Memory, cl: Memory, free: nat, slots: nat, m: Message,
                       rest: bytes)
    requires CanonicalRequest(m) && VB <= CHILDREN && NamesHold(store) && cfg.max > 0
    requires free > 2 * VB && slots >= 8 + 3 * |m.rows|
    ensures |Simples(Binds(m.rows))| == |MessageRead(m).vbs|
    ensures var q := MessageRead(m);
            var staged := StagedAnswer(cfg, store, zc, free, m);
            ClassicHandle(cfg, store, cl, slots, CanonicalPacket(m, rest))
            == Handle(cfg, store, zc, free, CanonicalPacket(m, rest)) <==>
            !(Answerable(cfg, m) && Gap(q, staged, cfg.max))
            && (Setting(cfg, m) ==>
                  NoDifference(store, q.vbs, Simples(Binds(m.rows)), zc, cl, RowsAnswered(q, staged, cfg.max)))
  {
    hide ClassicHandle, Handle, MessageRead, StagedAnswer, Gap, CanonicalRequest, NoDifference, RowsAnswered, Binds,
         NamesHold, CanonicalPacket, PermissionOf;
    MemoryEffect(cfg, store, zc, cl, free, m, rest);
    SameMemory(cfg, store, cl, free, slots, m, rest);
  }

  /** The engines agree on a canonical request, whatever the slots of its values held before, if and only if
      it is not to be answered, or the packet capacity does not split them on its answer and it does not
      set an opaque value that leaves unwritten octets to be seen. No length depends on those octets, so
      they are zero in the conditions. slots covers the parse tree of the classic engine; its further copies
      are taken to succeed. */
  lemma EnginesAgree(cfg: Settings, store: seq<Handler>, free: nat, slots: nat, m: Message, rest: bytes)
    requires CanonicalRequest(m) && VB <= CHILDREN && NamesHold(store) && cfg.max > 0
    requires free > 2 * VB && slots >= 8 + 3 * |m.rows|
    ensures |Simples(Binds(m.rows))| == |MessageRead(m).vbs|
    ensures var q := MessageRead(m);
            var staged := StagedAnswer(cfg, store, All(0), free, m);
            (forall zc, cl :: ClassicHandle(cfg, store, cl, slots, CanonicalPacket(m, rest)) ==
                              Handle(cfg, store, zc, free, CanonicalPacket(m, rest))) <==>
            !(Answerable(cfg, m) && Gap(q, staged, cfg.max))
            && !(Setting(cfg, m) && Stray(store, q.vbs, Simples(Binds(m.rows)), RowsAnswered(q, staged, cfg.max)))
  {
    hide ClassicHandle, Handle, MessageRead, StagedAnswer, Gap, CanonicalRequest, NoDifference, RowsAnswered, Binds,
         NamesHold, CanonicalPacket, PermissionOf, Stray;
    MessageFacts(m);
    HeaderFacts(m);
    var q := MessageRead(m);
    forall zc, cl
      ensures var staged := StagedAnswer(cfg, store, All(0), free, m);
              ClassicHandle(cfg, store, cl, slots, CanonicalPacket(m, rest))
              == Handle(cfg, store, zc, free, CanonicalPacket(m, rest)) <==>
              !(Answerable(cfg, m) && Gap(q, staged, cfg.max))
              && (Setting(cfg, m) ==>
                    NoDifference(store, q.vbs, Simples(Binds(m.rows)), zc, cl, RowsAnswered(q, staged, cfg.max)))
    {
      EnginesAgreeOn(cfg, store, zc, cl, free, slots, m, rest);
      MemoryEffect(cfg, store, All(0), zc, free, m, rest);
    }
    var s := CanonicalPacket(m, rest);
    var staged := StagedAnswer(cfg, store, All(0), free, m);
    var values, answered := Simples(Binds(m.rows)), RowsAnswered(q, staged, cfg.max);
    StrayExactly(store, q.vbs, values, answered);
    if Answerable(cfg, m) && Gap(q, staged, cfg.max) {
      assert ClassicHandle(cfg, store, All(0), slots, s) != Handle(cfg, store, All(0), free, s);
    } else if Setting(cfg, m) && Stray(store, q.vbs, values, answered) {
      var zc, cl :| !NoDifference(store, q.vbs, values, zc, cl, answered);
      assert ClassicHandle(cfg, store, cl, slots, s) != Handle(cfg, store, zc, free, s);
    }
  }

  lemma MessageFacts(m: Message)
    requires CanonicalRequest(m)
    ensures MessageOk(m) && RowsCanonical(m.rows) && |m.rows| <= VB
    ensures PacketOf(m).varbinds == Binds(m.rows) && |Binds(m.rows)| == |m.rows|
  {}

  lemma HeaderFacts(m: Message)
    requires CanonicalRequest(m)
    ensures var q := MessageRead(m);
            && q.vbs == RowsRead(m.rows) && q.count == |m.rows| && q.pduType == m.pduType && q.community == m.community
            && |m.community| <= STR && |q.vbs| == |m.rows|
  {
    hide IntContent;
  }

  lemma StagedSize(permission: Permission, store: seq<Handler>, q: Request, values: seq<Value>, memory: Memory,
                   free: nat)
    requires |values| == |q.vbs| <= VB
    ensures var staged := Stage(permission, store, q, values, memory, free).0; staged.Rows? ==> |staged.rows| <= VB
  {
    hide Gets, NonRepeaters, Repeaters, Sets, CostAll;
    GetsSize(store, q.version, q.vbs, q.pduType == GETNEXT_REQUEST, VB, free);
    SetsSize(store, q.version, q.vbs, values, memory, 0, VB, free);
    var nonRepeaters := U32(q.errorStatus);
    var n := if nonRepeaters < |q.vbs| then nonRepeaters else |q.vbs|;
    var first := NonRepeaters(store, q.vbs[..n], VB, free);
    if first.Some? {
      FirstSize(store, q.vbs[..n], VB, free);
      RestSize(store, q.vbs[n..], U32(q.errorIndex), Less(VB, |first.value|), Less(free, CostAll(first.value)));
    }
  }

  lemma {:induction false} GetsSize(store: seq<Handler>, version: int, vbs: seq<ReqVb>, next: bool, room: nat,
                                    free: nat)
    ensures var r := Gets(store, version, vbs, next, room, free); r.Some? ==> |r.value| <= room
    decreases vbs
  {
    hide GetRow;
    if vbs != [] && room > 0 {
      GetsSize(store, version, vbs[1..], next, room - 1, free - Cost(GetRow(store, version, vbs[0], next, free)));
    }
  }

  lemma {:induction false} SetsSize(store: seq<Handler>, version: int, vbs: seq<ReqVb>, values: seq<Value>,
                                    memory: Memory, at: nat, room: nat, free: nat)
    requires |values| == |vbs|
    ensures var r := Sets(store, version, vbs, values, memory, at, room, free).0; r.Some? ==> |r.value| <= room
    decreases vbs
  {
    hide SetRow;
    if vbs != [] && room > 0 {
      var (row, next) := SetRow(store, version, vbs[0], values[0], memory(at), free);
      SetsSize(next, version, vbs[1..], values[1..], memory, at + 1, room - 1, free - Cost(row));
    }
  }

  lemma {:induction false} RestSize(store: seq<Handler>, vbs: seq<ReqVb>, reps: nat, room: nat, free: nat)
    ensures var r := Repeaters(store, vbs, reps, room, free); r.Some? ==> |r.value| <= room
    decreases vbs
  {
    hide Repeat, CostAll;
    if vbs != [] {
      var r := Repeat(store, vbs[0].oid, 0, reps, room, free);
      if r.Some? {
        RepeatSize(store, vbs[0].oid, 0, reps, room, free);
        RestSize(store, vbs[1..], reps, Less(room, |r.value|), Less(free, CostAll(r.value)));
      }
    }
  }

  lemma AnswersAgree(q: Request, p: Packet, staged: Staged, max: nat)
    requires SamePacket(q, p) && |q.community| <= STR && (staged.Rows? ==> |staged.rows| <= CHILDREN)
    requires staged.Rows? ==> SNMP_GET_OCCURRED <= SuccessCode(q.pduType) <= SNMP_SET_OCCURRED
    ensures Respond(p, AsServed(staged), max) == Answer(q, staged, max) <==> !Gap(q, staged, max)
    ensures Gap(q, staged, max) ==> Respond(p, AsServed(staged), max).0 != Answer(q, staged, max).0
  {
    hide Enc, Respond, Reply, MessageTlv, LastError, SamePacket, SuccessCode, Peak;
    RespondIs(q, p, staged, max);
    ErrorLength(q, if staged.Global? then staged.error else TOO_BIG);
    EncFits(ErrorReply(q, if staged.Global? then staged.error else TOO_BIG), max);
    if staged.Rows? { EncFits(NormalReply(q, staged.rows), max); }
    EncStart(MessageTlv(ErrorReply(q, if staged.Global? then staged.error else TOO_BIG)));
  }

  lemma EncFits(m: Message, max: nat)
    ensures Fits(m, max) ==> |Enc(MessageTlv(m))| <= max
  {
    PeakBounds(MessageTlv(m));
  }

  /** Every error response is as long as the tooBig response. */
  lemma ErrorLength(q: Request, e: int)
    ensures |Enc(MessageTlv(ErrorReply(q, e)))| == |Enc(MessageTlv(ErrorReply(q, TOO_BIG)))|
  {
    hide Enc, Wrap, RowTlvs, EncAll, BigEndian;
    MessageLen(ErrorReply(q, e));
    MessageLen(ErrorReply(q, TOO_BIG));
    WrapLen(INTEGER, Int4(e));
    WrapLen(INTEGER, Int4(TOO_BIG));
  }

  /** The length of a message depends on the lengths of its fields alone. */
  lemma MessageLen(m: Message)
    ensures var pdu := |Wrap(INTEGER, m.requestID)| + |Wrap(INTEGER, m.errorStatus)| + |Wrap(INTEGER, m.errorIndex)|
                       + |Wrap(STRUCTURE, EncAll(RowTlvs(m.rows)))|;
            var root := |Wrap(INTEGER, m.version)| + |Wrap(STRING, m.community)| + 1 + |LenBytes(pdu)| + pdu;
            |Enc(MessageTlv(m))| == 1 + |LenBytes(root)| + root
  {
    hide Enc, EncAll, RowTlvs;
    MessageEnc(m);
    PduEnc(m);
  }

  // ------------------------------------------------------- the unwritten octets

  const SHORT_NAME: bytes := [0x2b, 6]
  const SHORT_SET: Message := Message([1], [], SET_REQUEST, [1], [0], [0], [Row(SHORT_NAME, OPAQUE, [1])])

  function OpaqueStore(data: bytes, setOccurred: bool): seq<Handler> {
    [Handler(SHORT_NAME, OPAQUE, true, OpaqueCell(data), setOccurred)]
  }

  /** One opaque octet set into a buffer of two: behind it each engine leaves what its own slot held, at any
      capacity. */
  lemma ShortSetDiffers(zc: Memory, cl: Memory, free: nat, slots: nat, max: nat, rest: bytes)
    requires VB <= CHILDREN && free > 2 * VB && slots >= 11 && max > 0
    ensures var cfg := Settings(Some([]), None, false, max);
            var store := OpaqueStore([7, 7], false);
            var s := CanonicalPacket(SHORT_SET, rest);
            && CanonicalRequest(SHORT_SET)
            && Handle(cfg, store, zc, free, s).store == OpaqueStore([1, zc(0)(1)], true)
            && ClassicHandle(cfg, store, cl, slots, s).store == OpaqueStore([1, cl(0)(1)], true)
  {
    hide Enc, Answer, Respond, Handle, ParseFrom, CanonicalRequest, StagedAnswer, MessageRead, PacketOf, Binds,
         SamePacket, Sets, HandleSet, Walk;
    var cfg := Settings(Some([]), None, false, max);
    var store := OpaqueStore([7, 7], false);
    ShortSetCanonical();
    MessageFacts(SHORT_SET);
    HeaderFacts(SHORT_SET);
    var q, p := MessageRead(SHORT_SET), PacketOf(SHORT_SET);
    CanonicalSame(SHORT_SET);
    SameHead(q, p);
    ClassicParses(SHORT_SET, rest, slots);
    ZeroCopyIs(cfg, store, zc, free, SHORT_SET, rest);
    assert NamesHold(store);
    StagesAgree(ReadWrite, store, q, p, cl, free - 1);
    ShortSetStages(zc, free - 1);
    ShortSetStages(cl, free - 1);
    assert Simples(Binds(SHORT_SET.rows)) == [Simple(POpaque([1]))] == Simples(p.varbinds);
    assert PermissionOf(cfg, []) == ReadWrite;
  }

  lemma ShortSetCanonical()
    ensures CanonicalRequest(SHORT_SET) && RowsCanonical(SHORT_SET.rows)
    ensures Binds(SHORT_SET.rows) == [VarBind(SHORT_NAME, POpaque([1]), NO_ERROR)]
    ensures RowsRead(SHORT_SET.rows) == [ReqVb(SHORT_NAME, OPAQUE, Wrap(OPAQUE, [1]))]
    ensures MessageRead(SHORT_SET).version == 1
  {
    var r := SHORT_SET.rows[0];
    assert r.content[..1] == [1];
    assert RowCanonical(r);
    OneNumber();
    ShortSetLength();
  }

  lemma OneNumber()
    ensures IntContent([1]) == 1 && IntContent([0]) == 0
  {
    assert [1][..0] == [] && [0][..0] == [];
    assert Number([1]) == Number([]) * 256 + 1 && Number([0]) == Number([]) * 256 + 0;
  }

  lemma ShortSetLength()
    ensures |Enc(MessageTlv(SHORT_SET))| < TWO16
  {
    hide Enc, EncAll, RowTlvs;
    MessageLen(SHORT_SET);
    var r := SHORT_SET.rows[0];
    assert SHORT_SET.rows[1..] == [];
    OneRowTlv(r);
    RowEnc(r);
  }

  lemma OneRowTlv(r: Row)
    ensures EncAll(RowTlvs([r])) == Enc(RowTlv(r))
  {
    assert [r][1..] == [] && RowTlvs([r]) == [RowTlv(r)] && [RowTlv(r)][1..] == [];
    assert EncAll([RowTlv(r)]) == Enc(RowTlv(r)) + EncAll([]);
  }

  lemma ShortSetStages(memory: Memory, free: nat)
    requires free > VB
    ensures var vbs := [ReqVb(SHORT_NAME, OPAQUE, Wrap(OPAQUE, [1]))];
            Sets(OpaqueStore([7, 7], false), 1, vbs, [Simple(POpaque([1]))], memory, 0, VB, free).1 ==
            OpaqueStore([1, memory(0)(1)], true)
  {
    var store := OpaqueStore([7, 7], false);
    var vbs := [ReqVb(SHORT_NAME, OPAQUE, Wrap(OPAQUE, [1]))];
    assert Names(store)[0] == SHORT_NAME;
    assert FindFrom(Names(store), SHORT_NAME, false, 0) == Some(0);
    assert Filled([1], 2, memory(0)) == [1, memory(0)(1)];
    assert store[0 := store[0].(cell := OpaqueCell([1, memory(0)(1)]), setOccurred := true)]
           == OpaqueStore([1, memory(0)(1)], true);
    var r := SetRow(store, 1, vbs[0], Simple(POpaque([1])), memory(0), free);
    assert r.1 == OpaqueStore([1, memory(0)(1)], true);
    assert vbs[1..] == [] && [Simple(POpaque([1]))][1..] == [];
  }

  // ----------------------------------------------------------- the gap itself

  /** The engines can only differ when the capacity is within eight octets of the answer's length. */
  lemma GapIsNarrow(q: Request, status: int, index: int, rows: seq<Row>, max: nat)
    requires Split(Reply(q, status, index, rows), max)
    ensures var n := |Enc(MessageTlv(Reply(q, status, index, rows)))|; n <= max < n + 8
  {
    hide Enc, Peak, RowTlvs;
    var m := Reply(q, status, index, rows);
    PeakBounds(MessageTlv(m));
    RowsDepth(RowTlvs(rows));
    MessageDepth(m);
  }

  lemma {:induction false} RowsDepth(ts: seq<Tlv>)
    requires forall i :: 0 <= i < |ts| ==> exists r :: ts[i] == RowTlv(r)
    ensures DepthAll(ts) <= 1
    decreases |ts|
  {
    if ts != [] {
      var r :| ts[0] == RowTlv(r);
      LeavesDepth([Leaf(OID, r.oid), Leaf(r.tag, r.content)]);
      RowsDepth(ts[1..]);
    }
  }

  lemma {:induction false} LeavesDepth(ts: seq<Tlv>)
    requires forall i :: 0 <= i < |ts| ==> ts[i].Leaf?
    ensures DepthAll(ts) == 0
    decreases |ts|
  {
    if ts != [] { LeavesDepth(ts[1..]); }
  }

  lemma MessageDepth(m: Message)
    ensures Depth(MessageTlv(m)) == 3 + DepthAll(RowTlvs(m.rows))
  {
    hide DepthAll;
    var x, y, z, l := Leaf(INTEGER, m.requestID), Leaf(INTEGER, m.errorStatus), Leaf(INTEGER, m.errorIndex),
                      Node(STRUCTURE, RowTlvs(m.rows));
    DepthCons(x, [y, z, l]); DepthCons(y, [z, l]); DepthCons(z, [l]); DepthCons(l, []);
    var a, b, p := Leaf(INTEGER, m.version), Leaf(STRING, m.community), PduTlv(m);
    DepthCons(a, [b, p]); DepthCons(b, [p]); DepthCons(p, []);
    assert [x, y, z, l] == [x] + [y, z, l] && [y, z, l] == [y] + [z, l] && [z, l] == [z] + [l] && [l] == [l] + [];
    assert [a, b, p] == [a] + [b, p] && [b, p] == [b] + [p] && [p] == [p] + [];
  }

  lemma DepthCons(t: Tlv, ts: seq<Tlv>)
    ensures DepthAll([t] + ts) == Max(Depth(t), DepthAll(ts)) && DepthAll([]) == 0
  {
    assert ([t] + ts)[1..] == ts;
  }

  /** And they do: any answer of fewer than 130 octets is split by a capacity of exactly its length. */
  lemma GapIsReal(m: Message)
    requires |Enc(MessageTlv(m))| < 130
    ensures Split(m, |Enc(MessageTlv(m))|)
  {
    var kids := MessageTlv(m).kids;
    PeakAllBounds(kids);
    WrapLen(STRUCTURE, EncAll(kids));
  }

  /** So on every canonical request with a short planned answer there is a capacity on which the classic
      engine answers it and the zero-copy engine does not, whatever the slots held. */
  lemma EnginesDiffer(cfg: Settings, store: seq<Handler>, zc: Memory, cl: Memory, free: nat, slots: nat, m: Message,
                      rest: bytes)
    requires CanonicalRequest(m) && VB <= CHILDREN && NamesHold(store) && free > 2 * VB && slots >= 8 + 3 * |m.rows|
    requires Answerable(cfg, m) && StagedAnswer(cfg, store, zc, free, m).Rows?
    requires var n := |Enc(MessageTlv(NormalReply(MessageRead(m), StagedAnswer(cfg, store, zc, free, m).rows)))|;
             n < 130 && cfg.max == n
    ensures ClassicHandle(cfg, store, cl, slots, CanonicalPacket(m, rest))
            != Handle(cfg, store, zc, free, CanonicalPacket(m, rest))
  {
    hide ClassicHandle, Handle, StagedAnswer, Enc, Split, NormalReply, MessageRead, CanonicalRequest, NoDifference;
    var q, staged := MessageRead(m), StagedAnswer(cfg, store, zc, free, m);
    GapIsReal(NormalReply(q, staged.rows));
    EncStart(MessageTlv(NormalReply(q, staged.rows)));
    EnginesAgreeOn(cfg, store, zc, cl, free, slots, m, rest);
  }
}
