/** Phase B of the zero-copy engine: the response envelope written scope by scope over the request. */
module ResponseWriter {
  import opened Bytes
  import opened Ber
  import opened Caps
  import opened Containers
  import opened BerView
  import opened Roster
  import opened Writer
  import opened Handling

  // ---------------------------------------------------------- room it needs

  lemma PeakLeaf(a: Tlv, rest: seq<Tlv>)
    requires a.Leaf?
    ensures PeakAll([a] + rest) == |Enc(a)| + PeakAll(rest)
  {
    assert ([a] + rest)[1..] == rest;
  }

  lemma PeakOne(a: Tlv)
    ensures PeakAll([a]) == Peak(a)
  {
    PeakBounds(a);
    assert [a][1..] == [];
  }

  /** The open scopes and the leaves before the list, then the list. */
  lemma MessagePeak(m: Message)
    ensures Peak(MessageTlv(m)) ==
            12 + |Wrap(INTEGER, m.version)| + |Wrap(STRING, m.community)| + |Wrap(INTEGER, m.requestID)|
               + |Wrap(INTEGER, m.errorStatus)| + |Wrap(INTEGER, m.errorIndex)| + PeakAll(RowTlvs(m.rows))
  {
    hide PeakAll, Enc, Wrap;
    var a, b, p := Leaf(INTEGER, m.version), Leaf(STRING, m.community), PduTlv(m);
    var x, y, z, l := Leaf(INTEGER, m.requestID), Leaf(INTEGER, m.errorStatus), Leaf(INTEGER, m.errorIndex),
                      Node(STRUCTURE, RowTlvs(m.rows));
    assert [a, b, p] == [a] + ([b] + [p]);
    assert [x, y, z, l] == [x] + ([y] + ([z] + [l]));
    PeakLeaf(a, [b] + [p]); PeakLeaf(b, [p]); PeakOne(p);
    PeakLeaf(x, [y] + ([z] + [l])); PeakLeaf(y, [z] + [l]); PeakLeaf(z, [l]); PeakOne(l);
    LeafEnc(a); LeafEnc(b); LeafEnc(x); LeafEnc(y); LeafEnc(z);
  }

  lemma LeafEnc(a: Tlv)
    requires a.Leaf?
    ensures Enc(a) == Wrap(a.tag, a.content)
  {}

  /** Room for the envelope of a reply, before any row. */
  function Envelope(community: bytes): nat { 36 + |Wrap(STRING, community)| }

  lemma ReplyPeak(q: Request, status: int, index: int, rows: seq<Row>)
    ensures Peak(MessageTlv(Reply(q, status, index, rows)))
            == Envelope(Clamp(q.community, STR)) + PeakAll(RowTlvs(rows))
  {
    hide PeakAll, RowTlvs, Peak;
    MessagePeak(Reply(q, status, index, rows));
    WrapLen(INTEGER, Int4(q.version));
    WrapLen(INTEGER, Int4(q.requestID));
    WrapLen(INTEGER, Int4(status));
    WrapLen(INTEGER, Int4(index));
  }

  lemma RowPeak(r: Row)
    ensures Peak(RowTlv(r)) == 4 + |Wrap(OID, r.oid)| + |Wrap(r.tag, r.content)|
  {
    var a, b := Leaf(OID, r.oid), Leaf(r.tag, r.content);
    assert [a, b] == [a] + [b];
    PeakLeaf(a, [b]);
    PeakOne(b);
  }

  // ---------------------------------------------------------------- writing

  function Opened(w: bytes, tag: byte): bytes { w + [tag, 0x82, 0, 0] }

  function ToPdu(version: int, community: bytes): bytes {
    Opened([], STRUCTURE) + (Enc(IntLeaf(version)) + Wrap(STRING, community))
  }

  function ToList(version: int, community: bytes, rid: int, status: int, index: int): bytes {
    Opened(ToPdu(version, community), GET_RESPONSE) + (Enc(IntLeaf(rid)) + (Enc(IntLeaf(status)) + Enc(IntLeaf(index))))
  }

  lemma ToListLen(version: int, community: bytes, rid: int, status: int, index: int)
    ensures |ToPdu(version, community)| == 10 + |Wrap(STRING, community)|
    ensures |ToList(version, community, rid, status, index)| == 32 + |Wrap(STRING, community)|
  {
    hide BigEndian;
    WrapLen(INTEGER, BigEndian(U32(version), 4));
    WrapLen(INTEGER, BigEndian(U32(rid), 4));
    WrapLen(INTEGER, BigEndian(U32(status), 4));
    WrapLen(INTEGER, BigEndian(U32(index), 4));
  }

  /** writeEnvelopeHeader: three scopes stay open. */
  method WriteEnvelopeHeader(w: BerWriter, version: int, rid: int, community: bytes, status: int, index: int)
    returns (ok: bool, root: Marker, pdu: Marker, list: Marker)
    requires w.Valid() && w.pos == 0 && !w.failed && w.cap < TWO16
    modifies w, w.base
    ensures w.Valid() && w.failed == !ok && w.Beyond() == old(w.Beyond())
    ensures ok == (Envelope(community) <= w.cap)
    ensures ok ==> w.Written() == Opened(ToList(version, community, rid, status, index), STRUCTURE)
                   && root == Marker(0, STRUCTURE, 4)
                   && pdu == Marker(|ToPdu(version, community)|, GET_RESPONSE, 4)
                   && list == Marker(|ToList(version, community, rid, status, index)|, STRUCTURE, 4)
  {
    hide Enc, LenBytes;
    ToListLen(version, community, rid, status, index);
    root, pdu, list := Marker(0, 0, 0), Marker(0, 0, 0), Marker(0, 0, 0);
    assert w.Written() == [];
    ok, root := w.BeginScope(STRUCTURE);
    if !ok { return; }
    IntLen(version);
    ok := w.PutInteger(version);
    if !ok { return; }
    ok := w.PutTLV(STRING, community);
    if !ok { WrapLen(STRING, community); return; }
    assert w.Written() == ToPdu(version, community);
    ok, list := WriteEnvelopeTail(w, ToPdu(version, community), rid, status, index);
    pdu := Marker(|ToPdu(version, community)|, GET_RESPONSE, 4);
    if !ok { return; }
    assert w.Written() == Opened(ToList(version, community, rid, status, index), STRUCTURE);
  }

  lemma IntLen(v: int)
    ensures |Enc(IntLeaf(v))| == 6
  {
    WrapLen(INTEGER, BigEndian(U32(v), 4));
  }

  method WriteEnvelopeTail(w: BerWriter, ghost p: bytes, rid: int, status: int, index: int)
    returns (ok: bool, list: Marker)
    requires w.Valid() && !w.failed && w.Written() == p
    modifies w, w.base
    ensures w.Valid() && w.failed == !ok && w.Beyond() == old(w.Beyond())
    ensures ok == (old(w.pos) + 26 <= w.cap)
    ensures ok ==> w.Written() == Opened(Opened(p, GET_RESPONSE) +
                                  (Enc(IntLeaf(rid)) + (Enc(IntLeaf(status)) + Enc(IntLeaf(index)))), STRUCTURE)
                   && list == Marker(|p| + 22, STRUCTURE, 4)
  {
    hide Enc;
    IntLen(rid); IntLen(status); IntLen(index);
    var pdu;
    ok, pdu := w.BeginScope(GET_RESPONSE);
    list := pdu;
    if !ok { return; }
    ok := w.PutInteger(rid);
    if !ok { return; }
    ok := w.PutInteger(status);
    if !ok { return; }
    ok := w.PutInteger(index);
    if !ok { return; }
    Assoc4(Opened(p, GET_RESPONSE), Enc(IntLeaf(rid)), Enc(IntLeaf(status)), Enc(IntLeaf(index)));
    ok, list := w.BeginScope(STRUCTURE);
  }

  lemma Assoc4(a: bytes, b: bytes, c: bytes, d: bytes)
    ensures a + b + c + d == a + (b + (c + d))
  {}

  /** The three endScopes: what is left is the encoded message. */
  method CloseEnvelope(w: BerWriter, root: Marker, pdu: Marker, list: Marker, ghost m: Message,
                       ghost version: int, ghost rid: int, ghost status: int, ghost index: int)
    returns (ok: bool)
    requires m == Message(Int4(version), m.community, GET_RESPONSE, Int4(rid), Int4(status), Int4(index), m.rows)
    requires w.Valid() && !w.failed
    requires var l := ToList(version, m.community, rid, status, index);
             && w.Written() == Opened(l, STRUCTURE) + EncAll(RowTlvs(m.rows))
             && root == Marker(0, STRUCTURE, 4) && pdu == Marker(|ToPdu(version, m.community)|, GET_RESPONSE, 4)
             && list == Marker(|l|, STRUCTURE, 4)
    modifies w, w.base
    ensures w.Valid() && w.failed == !ok && w.Beyond() == old(w.Beyond())
    ensures ok && w.Written() == Enc(MessageTlv(m))
  {
    hide Enc, EncAll, Wrap, RowTlvs, PduInner, RootInner, PduTlv;
    ghost var p, l := ToPdu(version, m.community), ToList(version, m.community, rid, status, index);
    ghost var ints := Enc(IntLeaf(rid)) + (Enc(IntLeaf(status)) + Enc(IntLeaf(index)));
    ghost var kids := EncAll(RowTlvs(m.rows));
    ghost var head := Enc(IntLeaf(version)) + Wrap(STRING, m.community);
    Closing(l, STRUCTURE, kids);
    ok := w.EndScope(list);
    ghost var tail := Wrap(STRUCTURE, kids);
    Assoc(Opened(p, GET_RESPONSE), ints, tail);
    Closing(p, GET_RESPONSE, ints + tail);
    ok := w.EndScope(pdu);
    Assoc(Opened([], STRUCTURE), head, Wrap(GET_RESPONSE, ints + tail));
    Closing([], STRUCTURE, head + Wrap(GET_RESPONSE, ints + tail));
    ok := w.EndScope(root);
    MessageShape(m, version, rid, status, index);
  }

  lemma Closing(w: bytes, tag: byte, c: bytes)
    ensures var s := Opened(w, tag) + c;
            |s| >= |w| + 4 && s[|w|] == tag && s[..|w|] == w && s[|w| + 4..] == c && [] + c == c
  {
    OpenScope(w, tag, c);
  }

  lemma MessageShape(m: Message, version: int, rid: int, status: int, index: int)
    requires m == Message(Int4(version), m.community, GET_RESPONSE, Int4(rid), Int4(status), Int4(index), m.rows)
    ensures var ints := Enc(IntLeaf(rid)) + (Enc(IntLeaf(status)) + Enc(IntLeaf(index)));
            var list := Wrap(STRUCTURE, EncAll(RowTlvs(m.rows)));
            Enc(MessageTlv(m)) ==
            Wrap(STRUCTURE, Enc(IntLeaf(version)) + Wrap(STRING, m.community) + Wrap(GET_RESPONSE, ints + list))
  {
    hide EncAll, Wrap, RowTlvs;
    MessageEnc(m);
    PduEnc(m);
    var a, b, c := Enc(IntLeaf(rid)), Enc(IntLeaf(status)), Enc(IntLeaf(index));
    var list := Wrap(STRUCTURE, EncAll(RowTlvs(m.rows)));
    Assoc(a, b + c, list);
    Assoc(b, c, list);
    Assoc(Enc(IntLeaf(version)), Wrap(STRING, m.community), Wrap(GET_RESPONSE, a + (b + c) + list));
  }

  /** writeErrorResponse */
  method WriteErrorResponse(buffer: array<byte>, max: nat, version: int, rid: int, community: bytes, status: int,
                            ghost q: Request)
    returns (ok: bool, length: nat)
    requires max <= buffer.Length && max < TWO16
    requires version == q.version && rid == q.requestID && community == Clamp(q.community, STR)
    modifies buffer
    ensures ok == Fits(ErrorReply(q, status), max)
    ensures ok ==> length <= max && buffer[..length] == Enc(MessageTlv(ErrorReply(q, status)))
    ensures buffer[max..] == old(buffer[max..])
  {
    hide Enc, Peak, PeakAll, ToPdu, ToList;
    ReplyPeak(q, status, 0, []);
    NoRowsPeak();
    length := 0;
    var w := new BerWriter(buffer, max);
    var root, pdu, list;
    ok, root, pdu, list := WriteEnvelopeHeader(w, version, rid, community, status, 0);
    if !ok { return; }
    ghost var open := Opened(ToList(version, community, rid, status, 0), STRUCTURE);
    assert open + [] == open;
    ok := CloseEnvelope(w, root, pdu, list, ErrorReply(q, status), version, rid, status, 0);
    length := w.pos;
  }

  lemma NoRowsPeak()
    ensures PeakAll(RowTlvs([])) == 0 && EncAll(RowTlvs([])) == []
  {}
}
