/** The in-place message walk of BERView.cpp: every envelope checked, slices of the packet
    recorded, nothing copied. */
module BerView {
  import opened Bytes
  import opened Ber
  import opened Caps
  import opened Containers

  /** A pointer into the packet and a length. Lengths are kept in 16 bits. */
  datatype Slice = Slice(at: nat, len: nat)
  {
    predicate In(s: bytes) { at + len <= |s| }
    function Of(s: bytes): bytes requires In(s) { s[at..at + len] }
  }

  function Short(at: nat, len: nat): Slice { Slice(at, len % TWO16) }

  datatype VarBindView = VarBindView(oid: Slice, value: Slice, valueType: byte, tlv: Slice)

  datatype HeaderView = HeaderView(version: int, community: Slice, pduType: byte, requestID: int,
                                   errorStatus: int, errorIndex: int, count: nat, vbs: seq<VarBindView>)
  {
    predicate Truncated() { count > VIEW_TABLE }
  }

  // ------------------------------------------------------ what the walk finds

  /** The value w of a varbind, which starts at base and must end with it. */
  function WalkValue(w: bytes, base: nat, oid: Slice): (r: Option<VarBindView>)
  {
    match Peek(w)
    case None => None
    case Some(v) =>
      if v.Total() != |w| then None
      else Some(VarBindView(oid, Short(base + v.headerLen, v.len), v.tag, Short(base, v.Total())))
  }

  /** The contents w of one varbind, which start at base in the packet. */
  function WalkVarbind(w: bytes, base: nat): (r: Option<VarBindView>)
  {
    match Peek(w)
    case None => None
    case Some(o) =>
      if o.tag != OID || o.len == 0 || o.len > OID_DATA || w[o.headerLen] != 0x2b then None
      else WalkValue(o.After(w), base + o.Total(), Short(base + o.headerLen, o.len))
  }

  datatype ListWalk = ListWalk(count: nat, views: seq<VarBindView>)

  /** The contents w of the varbind list from its n-th varbind on. */
  function WalkList(w: bytes, base: nat, n: nat): (r: Option<ListWalk>)
    decreases |w|
  {
    if w == [] then Some(ListWalk(0, []))
    else
      match Peek(w)
      case None => None
      case Some(v) =>
        var vb := WalkVarbind(v.Of(w), base + v.headerLen);
        if n < VIEW_TABLE && (v.tag != STRUCTURE || vb.None?) then None
        else
          match WalkList(v.After(w), base + v.Total(), n + 1)
          case None => None
          case Some(rest) =>
            Some(ListWalk(rest.count + 1, if n < VIEW_TABLE then [vb.value] + rest.views else rest.views))
  }

  /** An INTEGER at the front of w: its value and the octets it takes. */
  function WalkInt(w: bytes): (r: Option<(int, nat)>)
    ensures r.Some? ==> r.value.1 <= |w|
  {
    match Peek(w)
    case None => None
    case Some(v) =>
      if v.tag != INTEGER then None else Some((IntContent(v.Of(w)), v.Total()))
  }

  datatype Ints = Ints(requestID: int, errorStatus: int, errorIndex: int, used: nat)

  /** request-id, error-status and error-index. */
  function PduInts(w: bytes): (r: Option<Ints>)
    ensures r.Some? ==> r.value.used <= |w|
  {
    match WalkInt(w)
    case None => None
    case Some((rid, a)) =>
      match WalkInt(w[a..])
      case None => None
      case Some((status, b)) =>
        match WalkInt(w[a..][b..])
        case None => None
        case Some((index, c)) => Some(Ints(rid, status, index, a + b + c))
  }

  /** The varbind list w of a PDU with the given head. */
  function WalkPduList(w: bytes, base: nat, head: HeaderView): (r: Option<HeaderView>)
  {
    match Peek(w)
    case None => None
    case Some(l) =>
      if l.tag != STRUCTURE then None
      else
        match WalkList(l.Of(w), base + l.headerLen, 0)
        case None => None
        case Some(lw) => Some(head.(count := lw.count, vbs := lw.views))
  }

  function PduHead(version: int, community: Slice, pduType: byte, i: Ints): HeaderView {
    HeaderView(version, community, pduType, i.requestID, i.errorStatus, i.errorIndex, 0, [])
  }

  function WalkPdu(w: bytes, base: nat, version: int, community: Slice, pduType: byte): (r: Option<HeaderView>)
  {
    match PduInts(w)
    case None => None
    case Some(i) => WalkPduList(w[i.used..], base + i.used, PduHead(version, community, pduType, i))
  }

  predicate IsPduTag(tag: byte) { GET_REQUEST <= tag <= TRAP_V2 }

  /** The PDU at the front of w. */
  function WalkPduAt(w: bytes, base: nat, version: int, community: Slice): (r: Option<HeaderView>)
  {
    match Peek(w)
    case None => None
    case Some(p) =>
      if !IsPduTag(p.tag) then None else WalkPdu(p.Of(w), base + p.headerLen, version, community, p.tag)
  }

  /** The community at the front of w, then the PDU. */
  function WalkCommunity(w: bytes, base: nat, version: int): (r: Option<HeaderView>)
  {
    match Peek(w)
    case None => None
    case Some(c) =>
      if c.tag != STRING then None
      else WalkPduAt(c.After(w), base + c.Total(), version, Short(base + c.headerLen, c.len))
  }

  function WalkRoot(w: bytes, base: nat): (r: Option<HeaderView>)
  {
    match WalkInt(w)
    case None => None
    case Some((version, a)) => if !(0 <= version < 2) then None else WalkCommunity(w[a..], base + a, version)
  }

  /** snmp_ber_peek_packet on the packet s. Octets after the root TLV are ignored. */
  function Walk(s: bytes): (r: Option<HeaderView>)
  {
    match Peek(s)
    case None => None
    case Some(v) =>
      if v.tag != STRUCTURE then None else WalkRoot(v.Of(s), v.headerLen)
  }

  // ------------------------------------------------------------ the C++ walk

  class Scope {
    var p: nat
    var rem: nat
    var ok: bool

    constructor (p: nat, rem: nat, ok: bool)
      ensures this.p == p && this.rem == rem && this.ok == ok
    {
      this.p, this.rem, this.ok := p, rem, ok;
    }

    ghost predicate Inside(buf: array<byte>)
      reads this
    {
      p + rem <= buf.Length
    }

    ghost function Window(buf: array<byte>): bytes
      requires Inside(buf)
      reads this, buf
    {
      buf[p..p + rem]
    }

    /** Peeks the next child and steps over it. */
    method Next(buf: array<byte>) returns (got: bool, at: nat, v: View)
      requires ok && Inside(buf)
      modifies this
      ensures Inside(buf) && ok && at == old(p)
      ensures got == Peek(old(Window(buf))).Some?
      ensures got ==> v == Peek(old(Window(buf))).value
                      && p == old(p) + v.Total() && rem == old(rem) - v.Total()
                      && Window(buf) == v.After(old(Window(buf)))
                      && at + v.Total() <= buf.Length
                      && buf[at + v.headerLen..at + v.headerLen + v.len] == v.Of(old(Window(buf)))
    {
      hide Peek;
      at, v := p, View(0, 0, 0);
      ghost var w := Window(buf);
      if !ok || rem <= 0 { return false, at, v; }
      WindowCuts(buf, p, rem);
      got, v := BerPeek(buf, p, rem);
      if got {
        p := p + v.Total();
        rem := rem - v.Total();
      }
    }
  }

  lemma WindowCut(buf: array<byte>, at: nat, len: nat, h: nat, n: nat)
    requires at + len <= buf.Length && h + n <= len
    ensures buf[at..at + len][h..h + n] == buf[at + h..at + h + n]
    ensures buf[at..at + len][h + n..] == buf[at + h + n..at + len]
  {
    var w := buf[at..at + len];
    var x, y := w[h..h + n], buf[at + h..at + h + n];
    forall i | 0 <= i < n ensures x[i] == y[i] {
      assert x[i] == w[h + i] == buf[at + (h + i)];
    }
    var a, b := w[h + n..], buf[at + h + n..at + len];
    forall i | 0 <= i < len - h - n ensures a[i] == b[i] {
      assert a[i] == w[h + n + i] == buf[at + (h + n + i)];
    }
  }

  /** The same for the TLV at the front of a window, if there is one. */
  lemma WindowCuts(buf: array<byte>, at: nat, len: nat)
    requires at + len <= buf.Length
    ensures var w := buf[at..at + len];
            Peek(w).Some? ==>
              var v := Peek(w).value;
              && v.Total() <= len
              && buf[at + v.headerLen..at + v.headerLen + v.len] == v.Of(w)
              && buf[at + v.Total()..at + len] == v.After(w)
  {
    hide Peek;
    var w := buf[at..at + len];
    if Peek(w).Some? { WindowCut(buf, at, len, Peek(w).value.headerLen, Peek(w).value.len); }
  }

  /** Used octets (0 when malformed) and the length, which wraps in a signed 32-bit int. */
  method BerDecodeLength(buf: array<byte>, at: nat, maxLen: nat) returns (used: nat, len: int)
    requires 2 <= maxLen && at + maxLen <= buf.Length
    ensures var r := DecodeLength(buf[at..at + maxLen]);
            if used != 0 && len >= 0 then r == Some(Length(used, len)) else r.None?
  {
    ghost var s := buf[at..at + maxLen];
    if buf[at + 1] < 0x80 { return 1, buf[at + 1]; }
    var numBytes := buf[at + 1] - 0x80;
    if numBytes == 0 || numBytes >= maxLen - 1 || numBytes > 4 { return 0, 0; }
    len := 0;
    var k := 1;
    while k <= numBytes
      invariant 1 <= k <= numBytes + 1
      invariant len == S32(Spelled(s, k - 1))
    {
      ShiftIn(Spelled(s, k - 1), Spelled(s, k - 1), 0);
      ShiftIn(len, Spelled(s, k - 1), buf[at + 1 + k]);
      assert s[k + 1] == buf[at + 1 + k];
      len := S32(len * 256 + buf[at + 1 + k]);
      k := k + 1;
    }
    used := numBytes + 1;
  }

  method BerPeek(buf: array<byte>, at: nat, maxLen: nat) returns (ok: bool, v: View)
    requires at + maxLen <= buf.Length
    ensures var r := Peek(buf[at..at + maxLen]); ok == r.Some? && (ok ==> v == r.value)
  {
    v := View(0, 0, 0);
    if maxLen < 2 { return false, v; }
    var used, contentLen := BerDecodeLength(buf, at, maxLen);
    if used == 0 || contentLen < 0 { return false, v; }
    if used + 1 + contentLen > maxLen { return false, v; }
    return true, View(buf[at], used + 1, contentLen);
  }

  method ViewDecodeInteger(buf: array<byte>, at: nat, len: nat) returns (r: int)
    requires at + len <= buf.Length
    ensures r == IntContent(buf[at..at + len])
  {
    hide Number;
    ghost var c := buf[at..at + len];
    var v := 0;
    NumberNone(c);
    var n := 0;
    while n < len
      invariant 0 <= n <= len && v == U32(Number(c[..n]))
    {
      NumberStep(c, n);
      ShiftIn(v, Number(c[..n]), buf[at + n]);
      v := U32(v * 256 + buf[at + n]);
      n := n + 1;
    }
    assert c[..len] == c;
    SignExtend(c);
    if len == 1 {
      r := if v < 0x80 then v else v - 0x100;
    } else if len == 2 {
      r := if v < 0x8000 then v else v - 0x1_0000;
    } else if len == 3 {
      r := if v >= 0x80_0000 then S32(v + 0xFF00_0000) else S32(v);
    } else {
      r := S32(v);
    }
  }

  method PeekInteger(buf: array<byte>, scope: Scope) returns (ok: bool, value: int)
    requires scope.ok && scope.Inside(buf)
    modifies scope
    ensures scope.Inside(buf) && scope.ok
    ensures ok == WalkInt(old(scope.Window(buf))).Some?
    ensures ok ==> var w := WalkInt(old(scope.Window(buf))).value;
                   value == w.0 && scope.p == old(scope.p) + w.1 && scope.Window(buf) == old(scope.Window(buf))[w.1..]
  {
    hide Peek, IntContent;
    value := 0;
    var at, v;
    ok, at, v := scope.Next(buf);
    if !ok || v.tag != 0x02 { return false, 0; }
    value := ViewDecodeInteger(buf, at + v.headerLen, v.len);
  }

  method DecodeVarbind(buf: array<byte>, at: nat, len: nat, ghost w: bytes) returns (ok: bool, view: VarBindView)
    requires at + len <= buf.Length && w == buf[at..at + len]
    ensures ok == WalkVarbind(w, at).Some?
    ensures ok ==> view == WalkVarbind(w, at).value
  {
    hide Peek, WalkValue;
    view := VarBindView(Slice(0, 0), Slice(0, 0), 0, Slice(0, 0));
    var vb := new Scope(at, len, true);
    assert vb.Window(buf) == w;
    var got, oidAt, o := vb.Next(buf);
    if !got || o.tag != 0x06 || o.len <= 0 || o.len > OID_DATA { return false, view; }
    assert buf[oidAt + o.headerLen] == w[o.headerLen];
    if buf[oidAt + o.headerLen] != 0x2b { return false, view; }
    ok, view := PeekValue(buf, vb, Short(oidAt + o.headerLen, o.len));
  }

  method PeekValue(buf: array<byte>, vb: Scope, oid: Slice) returns (ok: bool, view: VarBindView)
    requires vb.ok && vb.Inside(buf)
    modifies vb
    ensures ok == WalkValue(old(vb.Window(buf)), old(vb.p), oid).Some?
    ensures ok ==> view == WalkValue(old(vb.Window(buf)), old(vb.p), oid).value
  {
    hide Peek;
    var got, valueAt, v := vb.Next(buf);
    view := VarBindView(oid, Short(valueAt + v.headerLen, v.len), v.tag, Short(valueAt, v.Total()));
    ok := got && vb.rem == 0;
  }

  method PeekPacket(buf: array<byte>, maxLen: nat) returns (ok: bool, out: HeaderView)
    requires maxLen <= buf.Length
    ensures ok == Walk(buf[..maxLen]).Some?
    ensures ok ==> out == Walk(buf[..maxLen]).value
  {
    out := HeaderView(-1, Slice(0, 0), 0, 0, 0, 0, 0, []);
    hide Peek, WalkRoot;
    WindowCuts(buf, 0, maxLen);
    assert buf[0..0 + maxLen] == buf[..maxLen];
    var got, r := BerPeek(buf, 0, maxLen);
    if !got || r.tag != 0x30 { return false, out; }
    var root := new Scope(r.headerLen, r.len, true);
    assert root.Window(buf) == r.Of(buf[..maxLen]);
    ok, out := PeekRoot(buf, root);
  }

  method PeekRoot(buf: array<byte>, root: Scope) returns (ok: bool, out: HeaderView)
    requires root.ok && root.Inside(buf)
    modifies root
    ensures var r := WalkRoot(old(root.Window(buf)), old(root.p)); ok == r.Some? && (ok ==> out == r.value)
  {
    hide WalkInt, WalkCommunity;
    out := HeaderView(-1, Slice(0, 0), 0, 0, 0, 0, 0, []);
    var version;
    ok, version := PeekInteger(buf, root);
    if !ok || version < 0 || version >= 2 { return false, out; }
    ok, out := PeekCommunity(buf, root, version);
  }

  method PeekCommunity(buf: array<byte>, root: Scope, version: int) returns (ok: bool, out: HeaderView)
    requires root.ok && root.Inside(buf)
    modifies root
    ensures var r := WalkCommunity(old(root.Window(buf)), old(root.p), version);
            ok == r.Some? && (ok ==> out == r.value)
  {
    hide Peek, WalkPduAt;
    out := HeaderView(version, Slice(0, 0), 0, 0, 0, 0, 0, []);
    var at, c;
    ok, at, c := root.Next(buf);
    if !ok || c.tag != 0x04 { return false, out; }
    ok, out := PeekPduAt(buf, root, version, Short(at + c.headerLen, c.len));
  }

  method PeekPduAt(buf: array<byte>, root: Scope, version: int, community: Slice) returns (ok: bool, out: HeaderView)
    requires root.ok && root.Inside(buf)
    modifies root
    ensures var r := WalkPduAt(old(root.Window(buf)), old(root.p), version, community);
            ok == r.Some? && (ok ==> out == r.value)
  {
    hide Peek, WalkPdu;
    out := HeaderView(version, community, 0, 0, 0, 0, 0, []);
    ghost var w := root.Window(buf);
    var at, p;
    ok, at, p := root.Next(buf);
    if !ok || p.tag < 0xA0 || p.tag > 0xA7 { return false, out; }
    ok, out := PeekPdu(buf, at + p.headerLen, p.len, version, community, p.tag, p.Of(w));
  }

  method PeekPdu(buf: array<byte>, at: nat, len: nat, version: int, community: Slice, pduType: byte, ghost w: bytes)
    returns (ok: bool, out: HeaderView)
    requires at + len <= buf.Length && w == buf[at..at + len]
    ensures var r := WalkPdu(w, at, version, community, pduType);
            ok == r.Some? && (ok ==> out == r.value)
  {
    hide PduInts, WalkPduList;
    out := HeaderView(version, community, pduType, 0, 0, 0, 0, []);
    var pdu := new Scope(at, len, true);
    assert pdu.Window(buf) == w;
    var ints;
    ok, ints := PeekInts(buf, pdu);
    if !ok { return; }
    ok, out := PeekPduList(buf, pdu, PduHead(version, community, pduType, ints));
  }

  method PeekPduList(buf: array<byte>, pdu: Scope, head: HeaderView) returns (ok: bool, out: HeaderView)
    requires pdu.ok && pdu.Inside(buf)
    modifies pdu
    ensures var r := WalkPduList(old(pdu.Window(buf)), old(pdu.p), head); ok == r.Some? && (ok ==> out == r.value)
  {
    hide Peek, WalkList;
    out := head;
    ghost var w := pdu.Window(buf);
    var l, listAt;
    ok, listAt, l := pdu.Next(buf);
    if !ok || l.tag != 0x30 { return false, out; }
    var lw;
    ok, lw := PeekList(buf, listAt + l.headerLen, l.len, l.Of(w));
    if ok { out := head.(count := lw.count, vbs := lw.views); }
  }

  method PeekInts(buf: array<byte>, pdu: Scope) returns (ok: bool, ints: Ints)
    requires pdu.ok && pdu.Inside(buf)
    modifies pdu
    ensures pdu.Inside(buf) && pdu.ok
    ensures ok == PduInts(old(pdu.Window(buf))).Some?
    ensures ok ==> ints == PduInts(old(pdu.Window(buf))).value
                   && pdu.p == old(pdu.p) + ints.used && pdu.Window(buf) == old(pdu.Window(buf))[ints.used..]
  {
    hide PduInts, WalkInt;
    ints := Ints(0, 0, 0, 0);
    ghost var w := pdu.Window(buf);
    IntsFound(w);
    var p0 := pdu.p;
    var rid, status, index;
    ok, rid := PeekInteger(buf, pdu);
    if !ok { return; }
    ghost var a := pdu.p - p0;
    ok, status := PeekInteger(buf, pdu);
    if !ok { return; }
    ghost var b := pdu.p - p0 - a;
    ok, index := PeekInteger(buf, pdu);
    if !ok { return; }
    ghost var c := pdu.p - p0 - a - b;
    assert w[a..][b..][c..] == w[a + b + c..];
    ints := Ints(rid, status, index, pdu.p - p0);
  }

  /** The parts of WalkRoot, step by step. */
  lemma RootFound(w: bytes, base: nat)
    ensures WalkInt(w).None? ==> WalkRoot(w, base).None?
    ensures WalkInt(w).Some? ==>
              var (version, a) := WalkInt(w).value;
              var w1 := w[a..];
              && (!(0 <= version < 2) || Peek(w1).None? || Peek(w1).value.tag != STRING ==> WalkRoot(w, base).None?)
              && (0 <= version < 2 && Peek(w1).Some? && Peek(w1).value.tag == STRING ==>
                    var c := Peek(w1).value;
                    var w2 := c.After(w1);
                    && (Peek(w2).None? || !IsPduTag(Peek(w2).value.tag) ==> WalkRoot(w, base).None?)
                    && (Peek(w2).Some? && IsPduTag(Peek(w2).value.tag) ==>
                          var p := Peek(w2).value;
                          WalkRoot(w, base) ==
                          WalkPdu(p.Of(w2), base + a + c.Total() + p.headerLen, version,
                                  Short(base + a + c.headerLen, c.len), p.tag)))
  {
    hide WalkInt, Peek, WalkPdu;
  }

  /** The parts of WalkPdu, step by step. */
  lemma PduFound(w: bytes, base: nat, version: int, community: Slice, pduType: byte)
    ensures var r := WalkPdu(w, base, version, community, pduType);
            && (PduInts(w).None? ==> r.None?)
            && (PduInts(w).Some? ==>
                  var i := PduInts(w).value;
                  var rest := w[i.used..];
                  && (Peek(rest).None? || Peek(rest).value.tag != STRUCTURE ==> r.None?)
                  && (Peek(rest).Some? && Peek(rest).value.tag == STRUCTURE ==>
                        var l := Peek(rest).value;
                        var lw := WalkList(l.Of(rest), base + i.used + l.headerLen, 0);
                        r == if lw.None? then None
                             else Some(HeaderView(version, community, pduType, i.requestID, i.errorStatus, i.errorIndex,
                                                  lw.value.count, lw.value.views))))
  {
    hide PduInts, WalkList, Peek;
  }

  /** The three INTEGERs, one by one. */
  lemma IntsFound(w: bytes)
    ensures WalkInt(w).None? ==> PduInts(w).None?
    ensures WalkInt(w).Some? ==>
              var (x, a) := WalkInt(w).value;
              && (WalkInt(w[a..]).None? ==> PduInts(w).None?)
              && (WalkInt(w[a..]).Some? ==>
                    var (y, b) := WalkInt(w[a..]).value;
                    PduInts(w) ==
                    if WalkInt(w[a..][b..]).None? then None
                    else var (z, c) := WalkInt(w[a..][b..]).value; Some(Ints(x, y, z, a + b + c)))
  {
    hide WalkInt;
  }

  /** The while loop over the varbind list. */
  method PeekList(buf: array<byte>, at: nat, len: nat, ghost w: bytes) returns (ok: bool, lw: ListWalk)
    requires at + len <= buf.Length && w == buf[at..at + len]
    ensures var r := WalkList(w, at, 0); ok == r.Some? && (ok ==> lw == r.value)
  {
    hide WalkList, WalkVarbind, Peek, Resumed;
    var vbList := new Scope(at, len, true);
    var count: nat := 0;
    var views: seq<VarBindView> := [];
    assert vbList.Window(buf) == w;
    ghost var whole := WalkList(w, at, 0);
    ResumedStart(whole);
    while vbList.rem > 0
      invariant vbList.ok && vbList.Inside(buf)
      invariant Resumed(whole, WalkList(vbList.Window(buf), vbList.p, count), ListWalk(count, views))
      decreases vbList.rem
    {
      ghost var rest, p0 := vbList.Window(buf), vbList.p;
      ResumedNone(whole, rest, p0, count, views);
      var found;
      ok, found := PeekEntry(buf, vbList, count);
      if !ok { return false, ListWalk(count, views); }
      ResumedStep(whole, rest, p0, count, views);
      views := views + found;
      count := count + 1;
    }
    ResumedEnd(whole, vbList.Window(buf), vbList.p, count, views);
    return true, ListWalk(count, views);
  }

  /** One round of that loop: a varbind within the table is decoded, one beyond it only skipped. */
  method PeekEntry(buf: array<byte>, vbList: Scope, count: nat) returns (ok: bool, found: seq<VarBindView>)
    requires vbList.ok && vbList.Inside(buf)
    modifies vbList
    ensures vbList.Inside(buf) && vbList.ok
    ensures ok == EntryOk(old(vbList.Window(buf)), old(vbList.p), count)
    ensures ok ==> var v := Peek(old(vbList.Window(buf))).value;
                   && vbList.p == old(vbList.p) + v.Total() && vbList.rem < old(vbList.rem)
                   && vbList.Window(buf) == v.After(old(vbList.Window(buf)))
                   && found == Entry(old(vbList.Window(buf)), old(vbList.p), count)
  {
    hide WalkVarbind, Peek;
    ghost var rest := vbList.Window(buf);
    var vbAt, v;
    ok, vbAt, v := vbList.Next(buf);
    if !ok || count >= VIEW_TABLE { return ok, []; }
    if v.tag != 0x30 { return false, []; }
    var vb;
    ok, vb := DecodeVarbind(buf, vbAt + v.headerLen, v.len, v.Of(rest));
    return ok, [vb];
  }

  predicate EntryOk(w: bytes, p: nat, count: nat) {
    && Peek(w).Some?
    && var v := Peek(w).value;
       count < VIEW_TABLE ==> v.tag == STRUCTURE && WalkVarbind(v.Of(w), p + v.headerLen).Some?
  }

  function Entry(w: bytes, p: nat, count: nat): seq<VarBindView>
    requires EntryOk(w, p, count)
  {
    var v := Peek(w).value;
    if count < VIEW_TABLE then [WalkVarbind(v.Of(w), p + v.headerLen).value] else []
  }

  lemma ResumedEnd(whole: Option<ListWalk>, w: bytes, p: nat, count: nat, views: seq<VarBindView>)
    requires w == [] && Resumed(whole, WalkList(w, p, count), ListWalk(count, views))
    ensures whole == Some(ListWalk(count, views))
  {
    assert views + [] == views;
  }

  lemma ResumedNone(whole: Option<ListWalk>, w: bytes, p: nat, count: nat, views: seq<VarBindView>)
    requires w != [] && Resumed(whole, WalkList(w, p, count), ListWalk(count, views))
    ensures !EntryOk(w, p, count) ==> whole.None?
  {
    hide WalkVarbind, Peek;
  }

  /** One varbind of the list, then the rest of it. */
  lemma WalkListOn(w: bytes, p: nat, count: nat)
    requires w != [] && Peek(w).Some?
    ensures var v := Peek(w).value;
            var left := WalkList(v.After(w), p + v.Total(), count + 1);
            var vb := WalkVarbind(v.Of(w), p + v.headerLen);
            WalkList(w, p, count) ==
            if left.None? || (count < VIEW_TABLE && (v.tag != STRUCTURE || vb.None?)) then None
            else
              Some(ListWalk(left.value.count + 1,
                            if count < VIEW_TABLE then [vb.value] + left.value.views else left.value.views))
  {
    hide WalkVarbind, Peek;
  }

  lemma ResumedStep(whole: Option<ListWalk>, w: bytes, p: nat, count: nat, views: seq<VarBindView>)
    requires w != [] && Resumed(whole, WalkList(w, p, count), ListWalk(count, views))
    requires EntryOk(w, p, count)
    ensures var v := Peek(w).value;
            Resumed(whole, WalkList(v.After(w), p + v.Total(), count + 1),
                    ListWalk(count + 1, views + Entry(w, p, count)))
  {
    hide Peek, WalkList, WalkVarbind, Entry;
    EntryThenRest(w, p, count);
    var v := Peek(w).value;
    var left := WalkList(v.After(w), p + v.Total(), count + 1);
    if left.Some? { ViewsAssoc(views, Entry(w, p, count), left.value.views); }
  }

  lemma ViewsAssoc(a: seq<VarBindView>, b: seq<VarBindView>, c: seq<VarBindView>)
    ensures a + (b + c) == a + b + c
  {}

  lemma EntryThenRest(w: bytes, p: nat, count: nat)
    requires w != [] && EntryOk(w, p, count)
    ensures var v := Peek(w).value;
            var left := WalkList(v.After(w), p + v.Total(), count + 1);
            WalkList(w, p, count) ==
            if left.None? then None
            else Some(ListWalk(left.value.count + 1, Entry(w, p, count) + left.value.views))
  {
    hide WalkVarbind, Peek, WalkList;
    WalkListOn(w, p, count);
    var left := WalkList(Peek(w).value.After(w), p + Peek(w).value.Total(), count + 1);
    if left.Some? { assert [] + left.value.views == left.value.views; }
  }

  lemma ResumedStart(w: Option<ListWalk>)
    ensures Resumed(w, w, ListWalk(0, []))
  {
    if w.Some? { assert [] + w.value.views == w.value.views; }
  }

  /** The whole walk is what was found so far followed by the walk of what is left. */
  predicate Resumed(whole: Option<ListWalk>, left: Option<ListWalk>, done: ListWalk) {
    if left.None? then whole.None?
    else whole == Some(ListWalk(done.count + left.value.count, done.views + left.value.views))
  }

  // ------------------------------------------------------------- soundness

  /** Only the root TLV matters: s is accepted exactly when it holds the whole root TLV and that
      TLV alone is accepted. No packet cut short inside it is accepted. */
  lemma RootAlone(s: bytes)
    ensures Walk(s).Some? <==> Peek(s).Some? && Walk(s[..Peek(s).value.Total()]).Some?
    ensures Walk(s).Some? ==> Walk(s[..Peek(s).value.Total()]) == Walk(s)
    ensures Walk(s).Some? ==> forall k :: 0 <= k < Peek(s).value.Total() ==> Walk(s[..k]).None?
  {
    hide WalkRoot, DecodeLength;
    if Peek(s).Some? {
      var n := Peek(s).value.Total();
      PeekLocal(s, s[..n]);
      assert Peek(s).value.Of(s[..n]) == Peek(s).value.Of(s);
      forall k | 0 <= k < n ensures Walk(s[..k]).None? { PeekNeedsAll(s, k); }
    }
  }

  /** A TLV at the front of w, of the given tag. */
  predicate Starts(w: bytes, tag: byte) { Peek(w).Some? && w[0] == tag }

  /** What an accepted packet is made of, tag by tag: a SEQUENCE of an INTEGER 0 or 1, an OCTET STRING and a PDU, which
      is three INTEGERs and a SEQUENCE. */
  lemma WalkStrict(s: bytes)
    requires Walk(s).Some?
    ensures Starts(s, 0x30)
    ensures var w, h := Peek(s).value.Of(s), Walk(s).value;
            && Starts(w, 0x02) && h.version == IntContent(Peek(w).value.Of(w)) && (h.version == 0 || h.version == 1)
            && var c := Peek(w).value.After(w);
               Starts(c, 0x04) && PduAtStrict(Peek(c).value.After(c), h.pduType)
  {
    hide Peek, WalkInt, IntContent, WalkCommunity;
    PeekTag(s);
    var w, base := Peek(s).value.Of(s), Peek(s).value.headerLen;
    var (version, a) := WalkInt(w).value;
    IntTag(w);
    CommunityTags(w[a..], base + a, version);
  }

  /** A PDU of a known type. */
  predicate PduAtStrict(p: bytes, pduType: byte) {
    Starts(p, pduType) && 0xA0 <= pduType <= 0xA7 && PduStrict(Peek(p).value.Of(p))
  }

  lemma IntTag(w: bytes)
    requires WalkInt(w).Some?
    ensures Starts(w, 0x02) && WalkInt(w).value.0 == IntContent(Peek(w).value.Of(w))
    ensures w[WalkInt(w).value.1..] == Peek(w).value.After(w)
  {
    hide Peek, IntContent;
    PeekTag(w);
  }

  lemma CommunityTags(c: bytes, base: nat, version: int)
    requires WalkCommunity(c, base, version).Some?
    ensures Starts(c, 0x04)
    ensures var h := WalkCommunity(c, base, version).value;
            h.version == version && PduAtStrict(Peek(c).value.After(c), h.pduType)
  {
    hide Peek, WalkPdu;
    PeekTag(c);
    var p, at := Peek(c).value.After(c), base + Peek(c).value.Total();
    var community := Short(base + Peek(c).value.headerLen, Peek(c).value.len);
    PeekTag(p);
    var v := Peek(p).value;
    PduTags(v.Of(p), at + v.headerLen, version, community, v.tag);
  }

  lemma PeekTag(s: bytes)
    ensures Peek(s).Some? ==> s != [] && Peek(s).value.tag == s[0]
  {}

  /** Three INTEGERs and a SEQUENCE. */
  predicate PduStrict(q: bytes) {
    && Starts(q, 0x02)
    && var a := Peek(q).value.After(q);
       && Starts(a, 0x02)
       && var b := Peek(a).value.After(a);
          Starts(b, 0x02) && Starts(Peek(b).value.After(b), 0x30)
  }

  lemma PduTags(q: bytes, base: nat, version: int, community: Slice, pduType: byte)
    requires WalkPdu(q, base, version, community, pduType).Some?
    ensures PduStrict(q) && WalkPdu(q, base, version, community, pduType).value.pduType == pduType
    ensures WalkPdu(q, base, version, community, pduType).value.version == version
  {
    hide Peek, IntContent, WalkList;
    PeekTag(q);
    var a := Peek(q).value.After(q);
    assert a == q[Peek(q).value.Total()..];
    PeekTag(a);
    var b := Peek(a).value.After(a);
    assert b == a[Peek(a).value.Total()..];
    PeekTag(b);
    var c := Peek(b).value.After(b);
    assert c == q[PduInts(q).value.used..];
    PeekTag(c);
  }

  /** The contents of a varbind are accepted exactly if they are an OBJECT IDENTIFIER of 1 to the cap of octets that
      starts with 1.3, and one TLV of any tag, up to the end. */
  lemma VarbindStrict(w: bytes, base: nat)
    ensures WalkVarbind(w, base).Some? <==>
            && Starts(w, 0x06) && 1 <= Peek(w).value.len <= OID_DATA && Peek(w).value.Of(w)[0] == 0x2b
            && var v := Peek(w).value.After(w); Peek(v).Some? && Peek(v).value.Total() == |v|
  {
    hide DecodeLength;
  }

  /** A recorded varbind lies between a and b: its name, then a value TLV that ends at b. */
  predicate Within(vb: VarBindView, a: nat, b: nat) {
    && a + 4 <= vb.oid.at && vb.oid.at + vb.oid.len <= vb.tlv.at
    && vb.tlv.at < vb.value.at && vb.value.at + vb.value.len <= b
    && vb.tlv.at + vb.tlv.len <= b
    && (b - a < TWO16 ==>
          vb.oid.at + vb.oid.len == vb.tlv.at && vb.value.at + vb.value.len == vb.tlv.at + vb.tlv.len == b)
  }

  /** cuts splits s[lo..hi] into consecutive TLVs, one between every two neighbours. */
  predicate Tiles(s: bytes, lo: nat, hi: nat, cuts: seq<nat>) {
    && cuts != [] && cuts[0] == lo && cuts[|cuts| - 1] == hi <= |s|
    && forall i :: 0 <= i < |cuts| - 1 ==> OneTlv(s, cuts[i], cuts[i + 1])
  }

  /** s[a..b] is exactly one TLV. */
  predicate OneTlv(s: bytes, a: nat, b: nat) {
    a < b <= |s| && Peek(s[a..b]).Some? && Peek(s[a..b]).value.Total() == b - a
  }

  lemma VarbindWithin(w: bytes, base: nat, a: nat)
    requires WalkVarbind(w, base).Some? && a + 2 <= base
    ensures Within(WalkVarbind(w, base).value, a, base + |w|)
  {}

  /** The varbind TLVs tile the list: the count is exact however many there are, and each of the
      first VIEW_TABLE of them has its slices recorded. */
  lemma {:induction false} ListTiles(s: bytes, lo: nat, hi: nat, n: nat) returns (cuts: seq<nat>)
    requires lo <= hi <= |s| && WalkList(s[lo..hi], lo, n).Some?
    ensures var lw := WalkList(s[lo..hi], lo, n).value;
            && Tiles(s, lo, hi, cuts) && |cuts| == lw.count + 1
            && |lw.views| == (if n + lw.count <= VIEW_TABLE then lw.count
                              else if n <= VIEW_TABLE then VIEW_TABLE - n else 0)
            && forall i :: 0 <= i < |lw.views| ==> Within(lw.views[i], cuts[i], cuts[i + 1])
    decreases hi - lo
  {
    hide Peek, WalkList, WalkVarbind, Tiles, Within, OneTlv;
    var w := s[lo..hi];
    WalkListStep(w, lo, n);
    if w == [] {
      cuts := [lo];
      OneCut(s, lo);
    } else {
      var v := Peek(w).value;
      var next := lo + v.Total();
      assert v.After(w) == s[next..hi];
      FirstTile(s, lo, hi);
      var rest := ListTiles(s, next, hi, n + 1);
      cuts := [lo] + rest;
      MoreCuts(s, lo, next, hi, rest);
      CutsHead(s, next, hi, rest);
      var lw, lw' := WalkList(w, lo, n).value, WalkList(v.After(w), next, n + 1).value;
      if n < VIEW_TABLE {
        VarbindWithin(v.Of(w), lo + v.headerLen, lo);
        forall i | 0 <= i < |lw.views| ensures Within(lw.views[i], cuts[i], cuts[i + 1]) {
          if i > 0 { assert Within(lw'.views[i - 1], rest[i - 1], rest[i]); }
        }
      }
    }
  }

  lemma WalkListStep(w: bytes, base: nat, n: nat)
    requires WalkList(w, base, n).Some?
    ensures w == [] ==> WalkList(w, base, n).value == ListWalk(0, [])
    ensures w != [] ==> Peek(w).Some?
    ensures w != [] ==>
              var v := Peek(w).value;
              var next := WalkList(v.After(w), base + v.Total(), n + 1);
              var vb := WalkVarbind(v.Of(w), base + v.headerLen);
              && next.Some? && (n < VIEW_TABLE ==> vb.Some? && v.tag == STRUCTURE)
              && WalkList(w, base, n).value ==
                 ListWalk(next.value.count + 1, (if n < VIEW_TABLE then [vb.value] else []) + next.value.views)
  {
    hide Peek, WalkVarbind;
    if w != [] {
      var v := Peek(w).value;
      var next := WalkList(v.After(w), base + v.Total(), n + 1);
      assert [] + next.value.views == next.value.views;
    }
  }

  lemma CutsHead(s: bytes, lo: nat, hi: nat, cuts: seq<nat>)
    requires Tiles(s, lo, hi, cuts)
    ensures cuts != [] && cuts[0] == lo
  {}

  lemma OneCut(s: bytes, at: nat)
    requires at <= |s|
    ensures Tiles(s, at, at, [at])
  {}

  lemma MoreCuts(s: bytes, lo: nat, next: nat, hi: nat, rest: seq<nat>)
    requires OneTlv(s, lo, next) && Tiles(s, next, hi, rest)
    ensures Tiles(s, lo, hi, [lo] + rest)
  {
    hide OneTlv;
    var cuts := [lo] + rest;
    forall i | 0 <= i < |cuts| - 1 ensures OneTlv(s, cuts[i], cuts[i + 1]) {
      if i > 0 { assert OneTlv(s, rest[i - 1], rest[i]); }
    }
  }

  lemma FirstTile(s: bytes, lo: nat, hi: nat)
    requires lo <= hi <= |s| && Peek(s[lo..hi]).Some?
    ensures OneTlv(s, lo, lo + Peek(s[lo..hi]).value.Total())
  {
    hide Peek;
    var n := Peek(s[lo..hi]).value.Total();
    assert s[lo..lo + n] == s[lo..hi][..n] == s[lo..lo + n][..n];
    PeekLocal(s[lo..hi], s[lo..lo + n]);
  }

  /** Everything the walk records lies inside the packet, in wire order: the community, then the
      varbind list, which the recorded TLVs tile completely. */
  lemma WalkSound(s: bytes) returns (lo: nat, hi: nat, cuts: seq<nat>)
    requires Walk(s).Some?
    ensures var h := Walk(s).value;
            && h.community.In(s) && h.community.at + h.community.len <= lo
            && Tiles(s, lo, hi, cuts) && |cuts| == h.count + 1
            && |h.vbs| == (if h.count <= VIEW_TABLE then h.count else VIEW_TABLE)
            && forall i :: 0 <= i < |h.vbs| ==> Within(h.vbs[i], cuts[i], cuts[i + 1])
  {
    hide Walk, WalkPdu, Tiles, Within;
    var at, len, version, community, pduType := PduLocated(s);
    lo, hi, cuts := PduSound(s, at, len, version, community, pduType);
  }

  /** Where the walk of an accepted packet finds its PDU and its community. */
  lemma PduLocated(s: bytes) returns (at: nat, len: nat, version: int, community: Slice, pduType: byte)
    requires Walk(s).Some?
    ensures at + len <= |s| && Walk(s) == WalkPdu(s[at..at + len], at, version, community, pduType)
    ensures community.In(s) && community.at + community.len <= at
  {
    hide Peek, WalkRoot, WalkPdu, WalkInt;
    var r := Peek(s).value;
    var w, base := r.Of(s), r.headerLen;
    var a, c, p;
    version, a, c, p := RootParts(w, base);
    at, len, pduType := base + a + c.Total() + p.headerLen, p.len, p.tag;
    community := Short(base + a + c.headerLen, c.len);
    Nested(s, base, r.len, a, c.Total(), p.headerLen, p.len);
  }

  /** What the walk of an accepted root meets: the version, and the TLVs of the community and the PDU. */
  lemma RootParts(w: bytes, base: nat) returns (version: int, a: nat, c: View, p: View)
    requires WalkRoot(w, base).Some?
    ensures a + c.Total() + p.Total() <= |w|
    ensures var w2 := w[a..][c.Total()..];
            WalkRoot(w, base) ==
            WalkPdu(w2[p.headerLen..p.headerLen + p.len], base + a + c.Total() + p.headerLen, version,
                    Short(base + a + c.headerLen, c.len), p.tag)
  {
    hide Peek, WalkRoot, WalkPdu, WalkInt;
    RootFound(w, base);
    version, a := WalkInt(w).value.0, WalkInt(w).value.1;
    c := Peek(w[a..]).value;
    p := Peek(c.After(w[a..])).value;
    assert c.After(w[a..]) == w[a..][c.Total()..];
  }

  /** Dropping octets at the front of a slice, twice, and cutting out of what is left. */
  lemma Nested(s: bytes, at: nat, len: nat, a: nat, b: nat, h: nat, n: nat)
    requires at + len <= |s| && a + b + h + n <= len
    ensures var w2 := s[at..at + len][a..][b..]; w2[h..h + n] == s[at + a + b + h..at + a + b + h + n]
  {
    assert s[at..at + len][a..] == s[at + a..at + len];
    assert s[at + a..at + len][b..] == s[at + a + b..at + len];
    SubSub(s, at + a + b, at + len, h, h + n);
  }

  lemma PduSound(s: bytes, at: nat, len: nat, version: int, community: Slice, pduType: byte)
      returns (lo: nat, hi: nat, cuts: seq<nat>)
    requires at + len <= |s| && WalkPdu(s[at..at + len], at, version, community, pduType).Some?
    ensures var h := WalkPdu(s[at..at + len], at, version, community, pduType).value;
            && at <= lo && Tiles(s, lo, hi, cuts) && |cuts| == h.count + 1 && h.community == community
            && |h.vbs| == (if h.count <= VIEW_TABLE then h.count else VIEW_TABLE)
            && forall i :: 0 <= i < |h.vbs| ==> Within(h.vbs[i], cuts[i], cuts[i + 1])
  {
    hide Peek, WalkPdu, WalkList, PduInts, Tiles, Within;
    var q := s[at..at + len];
    PduFound(q, at, version, community, pduType);
    var i := PduInts(q).value;
    var rest := q[i.used..];
    var l := Peek(rest).value;
    SubSub(s, at, at + len, i.used, len);
    lo := at + i.used + l.headerLen;
    hi := lo + l.len;
    SubSub(s, at + i.used, at + len, l.headerLen, l.Total());
    assert l.Of(rest) == s[lo..hi];
    cuts := ListTiles(s, lo, hi, 0);
  }

  // ---------------------------------------------------- what a packet means

  datatype ReqVb = ReqVb(oid: bytes, tag: byte, tlv: bytes)

  datatype Request = Request(version: int, community: bytes, pduType: byte, requestID: int,
                             errorStatus: int, errorIndex: int, count: nat, vbs: seq<ReqVb>)

  function Cut(s: bytes, c: Slice): bytes { if c.In(s) then c.Of(s) else [] }

  function ReadVb(s: bytes, v: VarBindView): ReqVb {
    ReqVb(Cut(s, v.oid), v.valueType, Cut(s, v.tlv))
  }

  function ReadVbs(s: bytes, vs: seq<VarBindView>): (r: seq<ReqVb>)
    ensures |r| == |vs|
    ensures forall i :: 0 <= i < |vs| ==> r[i] == ReadVb(s, vs[i])
  {
    if vs == [] then [] else [ReadVb(s, vs[0])] + ReadVbs(s, vs[1..])
  }

  /** The octets behind the slices of an accepted packet. */
  function Read(s: bytes, h: HeaderView): Request {
    Request(h.version, Cut(s, h.community), h.pduType, h.requestID, h.errorStatus, h.errorIndex, h.count,
            ReadVbs(s, h.vbs))
  }

  // -------------------------------------------- messages and their encodings

  /** One varbind of a message: name, value tag and value contents. */
  datatype Row = Row(oid: bytes, tag: byte, content: bytes)

  /** A message with its INTEGER contents as they stand on the wire. */
  datatype Message = Message(version: bytes, community: bytes, pduType: byte, requestID: bytes,
                             errorStatus: bytes, errorIndex: bytes, rows: seq<Row>)

  function RowTlv(r: Row): Tlv { Node(STRUCTURE, [Leaf(OID, r.oid), Leaf(r.tag, r.content)]) }

  function RowTlvs(rows: seq<Row>): (ts: seq<Tlv>)
    ensures |ts| == |rows|
    ensures forall i :: 0 <= i < |rows| ==> ts[i] == RowTlv(rows[i])
  {
    if rows == [] then [] else [RowTlv(rows[0])] + RowTlvs(rows[1..])
  }

  function PduTlv(m: Message): Tlv {
    Node(m.pduType, [Leaf(INTEGER, m.requestID), Leaf(INTEGER, m.errorStatus), Leaf(INTEGER, m.errorIndex),
                     Node(STRUCTURE, RowTlvs(m.rows))])
  }

  function MessageTlv(m: Message): Tlv {
    Node(STRUCTURE, [Leaf(INTEGER, m.version), Leaf(STRING, m.community), PduTlv(m)])
  }

  function RowsRead(rows: seq<Row>): (r: seq<ReqVb>)
    ensures |r| == |rows|
    ensures forall i :: 0 <= i < |rows| ==> r[i] == ReqVb(rows[i].oid, rows[i].tag, Wrap(rows[i].tag, rows[i].content))
  {
    if rows == [] then []
    else [ReqVb(rows[0].oid, rows[0].tag, Wrap(rows[0].tag, rows[0].content))] + RowsRead(rows[1..])
  }

  predicate RowOk(r: Row) { r.oid != [] && r.oid[0] == 0x2b && |r.oid| <= OID_DATA }

  predicate RowsOk(rows: seq<Row>) { forall i :: 0 <= i < |rows| ==> RowOk(rows[i]) }

  function MessageRead(m: Message): Request {
    Request(IntContent(m.version), m.community, m.pduType, IntContent(m.requestID), IntContent(m.errorStatus),
            IntContent(m.errorIndex), |m.rows|, RowsRead(m.rows))
  }

  predicate MessageOk(m: Message) {
    && 0 <= IntContent(m.version) < 2 && IsPduTag(m.pduType) && RowsOk(m.rows)
    && |m.rows| <= VIEW_TABLE && |Enc(MessageTlv(m))| < TWO16
  }

  // -------------------------------------------------------------- round trip

  lemma WalkIntWrap(c: bytes, rest: bytes)
    requires |c| < TWO16
    ensures WalkInt(Wrap(INTEGER, c) + rest) == Some((IntContent(c), |Wrap(INTEGER, c)|))
    ensures (Wrap(INTEGER, c) + rest)[|Wrap(INTEGER, c)|..] == rest
  {
    hide Peek, IntContent;
    PeekWrap(INTEGER, c, rest);
  }

  /** s[at..] starts with w. */
  predicate At(s: bytes, at: nat, w: bytes) { at + |w| <= |s| && s[at..at + |w|] == w }

  lemma AtSplit(s: bytes, at: nat, a: bytes, b: bytes)
    requires At(s, at, a + b)
    ensures At(s, at, a) && At(s, at + |a|, b)
  {
    var w := a + b;
    assert s[at..at + |w|][..|a|] == a && s[at..at + |w|][|a|..] == b;
    SubSub(s, at, at + |w|, 0, |a|);
    SubSub(s, at, at + |w|, |a|, |w|);
  }

  lemma AtWrap(s: bytes, at: nat, tag: byte, c: bytes)
    requires At(s, at, Wrap(tag, c))
    ensures At(s, at + 1 + |LenBytes(|c|)|, c)
  {
    assert Wrap(tag, c) == ([tag] + LenBytes(|c|)) + c;
    AtSplit(s, at, [tag] + LenBytes(|c|), c);
  }

  lemma AtCut(s: bytes, at: nat, w: bytes)
    requires At(s, at, w) && |w| < TWO16
    ensures Cut(s, Short(at, |w|)) == w
  {}

  lemma RowWalk(s: bytes, base: nat, r: Row)
    requires RowOk(r) && |RowInner(r)| < TWO16 && At(s, base, RowInner(r))
    ensures WalkVarbind(RowInner(r), base).Some?
    ensures ReadVb(s, WalkVarbind(RowInner(r), base).value) == ReqVb(r.oid, r.tag, Wrap(r.tag, r.content))
  {
    hide WalkVarbind, Wrap, LenBytes, Cut;
    var a, b := Wrap(OID, r.oid), Wrap(r.tag, r.content);
    RowView(r, base);
    WrapLen(OID, r.oid);
    WrapLen(r.tag, r.content);
    AtSplit(s, base, a, b);
    AtWrap(s, base, OID, r.oid);
    AtCut(s, base + 1 + |LenBytes(|r.oid|)|, r.oid);
    AtCut(s, base + |a|, b);
  }

  lemma RowView(r: Row, base: nat)
    requires RowOk(r) && |RowInner(r)| < TWO16
    ensures var a, b := Wrap(OID, r.oid), Wrap(r.tag, r.content);
            WalkVarbind(RowInner(r), base) ==
            Some(VarBindView(Short(base + 1 + |LenBytes(|r.oid|)|, |r.oid|),
                             Short(base + |a| + 1 + |LenBytes(|r.content|)|, |r.content|), r.tag,
                             Short(base + |a|, |b|)))
  {
    hide Peek, Wrap, LenBytes;
    var a, b := Wrap(OID, r.oid), Wrap(r.tag, r.content);
    WrapLen(OID, r.oid);
    WrapLen(r.tag, r.content);
    PeekWrap(OID, r.oid, b);
    PeekWhole(r.tag, r.content);
    var h := 1 + |LenBytes(|r.oid|)|;
    assert (a + b)[h] == (a + b)[h..h + |r.oid|][0];
  }

  function RowInner(r: Row): bytes { Wrap(OID, r.oid) + Wrap(r.tag, r.content) }

  lemma RowEnc(r: Row)
    ensures Enc(RowTlv(r)) == Wrap(STRUCTURE, RowInner(r))
  {
    EncTwo(Leaf(OID, r.oid), Leaf(r.tag, r.content));
  }

  lemma {:induction false} RowsWalk(s: bytes, base: nat, n: nat, rows: seq<Row>)
    requires RowsOk(rows) && n + |rows| <= VIEW_TABLE
    requires var w := EncAll(RowTlvs(rows)); |w| < TWO16 && At(s, base, w)
    ensures var r := WalkList(EncAll(RowTlvs(rows)), base, n);
            r.Some? && r.value.count == |rows| && ReadVbs(s, r.value.views) == RowsRead(rows)
    decreases |rows|
  {
    hide Peek, WalkVarbind, Enc, EncAll, WalkList, ReadVb, Wrap, LenBytes, At;
    if rows == [] {
      NoRows(base, n);
    } else {
      var r := rows[0];
      var inner, tail := RowInner(r), EncAll(RowTlvs(rows[1..]));
      var e := Wrap(STRUCTURE, inner);
      RowsCons(rows);
      AtSplit(s, base, e, tail);
      WrapLen(STRUCTURE, inner);
      AtWrap(s, base, STRUCTURE, inner);
      var h := 1 + |LenBytes(|inner|)|;
      RowWalk(s, base + h, r);
      RowsWalk(s, base + |e|, n + 1, rows[1..]);
      PeekWrap(STRUCTURE, inner, tail);
      var vb, next := WalkVarbind(inner, base + h).value, WalkList(tail, base + |e|, n + 1).value;
      WalkListMore(e + tail, base, n, View(STRUCTURE, h, |inner|), vb, next);
      assert ([vb] + next.views)[1..] == next.views;
    }
  }

  lemma RowsCons(rows: seq<Row>)
    requires rows != []
    ensures EncAll(RowTlvs(rows)) == Wrap(STRUCTURE, RowInner(rows[0])) + EncAll(RowTlvs(rows[1..]))
  {
    hide Wrap, RowInner, Enc;
    assert RowTlvs(rows)[1..] == RowTlvs(rows[1..]);
    RowEnc(rows[0]);
  }

  lemma NoRows(base: nat, n: nat)
    ensures WalkList(EncAll(RowTlvs([])), base, n) == Some(ListWalk(0, []))
  {}

  lemma WalkListMore(w: bytes, base: nat, n: nat, v: View, vb: VarBindView, next: ListWalk)
    requires w != [] && Peek(w) == Some(v) && n < VIEW_TABLE && v.tag == STRUCTURE
    requires WalkVarbind(v.Of(w), base + v.headerLen) == Some(vb)
    requires WalkList(v.After(w), base + v.Total(), n + 1) == Some(next)
    ensures WalkList(w, base, n) == Some(ListWalk(next.count + 1, [vb] + next.views))
  {
    hide Peek, WalkVarbind;
  }

  function PduInner(m: Message): bytes {
    Wrap(INTEGER, m.requestID) + (Wrap(INTEGER, m.errorStatus) + (Wrap(INTEGER, m.errorIndex) +
    Wrap(STRUCTURE, EncAll(RowTlvs(m.rows)))))
  }

  lemma PduEnc(m: Message)
    ensures Enc(PduTlv(m)) == Wrap(m.pduType, PduInner(m))
  {
    EncFour(Leaf(INTEGER, m.requestID), Leaf(INTEGER, m.errorStatus), Leaf(INTEGER, m.errorIndex),
            Node(STRUCTURE, RowTlvs(m.rows)));
  }

  lemma PduWalk(s: bytes, base: nat, m: Message, version: int, community: Slice)
    requires RowsOk(m.rows) && |m.rows| <= VIEW_TABLE
    requires |PduInner(m)| < TWO16 && At(s, base, PduInner(m))
    ensures var r := WalkPdu(PduInner(m), base, version, community, m.pduType);
            r.Some? && Read(s, r.value) == MessageRead(m).(version := version, community := Cut(s, community))
  {
    hide Peek, WalkPduList, PduInts, IntContent, EncAll, RowTlvs, ReadVbs, RowsRead, RowsOk, Wrap, Cut, At;
    var list := EncAll(RowTlvs(m.rows));
    var a, b, c, l := Wrap(INTEGER, m.requestID), Wrap(INTEGER, m.errorStatus), Wrap(INTEGER, m.errorIndex),
                      Wrap(STRUCTURE, list);
    WrapLen(INTEGER, m.requestID);
    WrapLen(INTEGER, m.errorStatus);
    WrapLen(INTEGER, m.errorIndex);
    PduIntsWrap(m.requestID, m.errorStatus, m.errorIndex, l);
    AtSplit(s, base, a, b + (c + l));
    AtSplit(s, base + |a|, b, c + l);
    AtSplit(s, base + |a| + |b|, c, l);
    PduListWalk(s, base + (|a| + |b| + |c|), m.rows,
                PduHead(version, community, m.pduType, PduInts(PduInner(m)).value));
  }

  lemma PduListWalk(s: bytes, base: nat, rows: seq<Row>, head: HeaderView)
    requires RowsOk(rows) && |rows| <= VIEW_TABLE
    requires var l := Wrap(STRUCTURE, EncAll(RowTlvs(rows))); |l| < TWO16 && At(s, base, l)
    ensures var r := WalkPduList(Wrap(STRUCTURE, EncAll(RowTlvs(rows))), base, head);
            && r.Some? && r.value == head.(count := |rows|, vbs := r.value.vbs)
            && ReadVbs(s, r.value.vbs) == RowsRead(rows)
  {
    hide Peek, WalkList, EncAll, RowTlvs, ReadVbs, RowsRead, RowsOk, Wrap, LenBytes, At;
    var list := EncAll(RowTlvs(rows));
    WrapLen(STRUCTURE, list);
    PeekWhole(STRUCTURE, list);
    AtWrap(s, base, STRUCTURE, list);
    RowsWalk(s, base + 1 + |LenBytes(|list|)|, 0, rows);
  }

  lemma PduIntsWrap(x: bytes, y: bytes, z: bytes, l: bytes)
    requires |x| < TWO16 && |y| < TWO16 && |z| < TWO16
    ensures var a, b, c := Wrap(INTEGER, x), Wrap(INTEGER, y), Wrap(INTEGER, z);
            var w := a + (b + (c + l));
            && PduInts(w) == Some(Ints(IntContent(x), IntContent(y), IntContent(z), |a| + |b| + |c|))
            && w[|a| + |b| + |c|..] == l
  {
    hide WalkInt, IntContent, Wrap;
    var a, b, c := Wrap(INTEGER, x), Wrap(INTEGER, y), Wrap(INTEGER, z);
    WalkIntWrap(x, b + (c + l));
    WalkIntWrap(y, c + l);
    WalkIntWrap(z, l);
    var w := a + (b + (c + l));
    assert w[|a|..] == b + (c + l);
    assert (b + (c + l))[|b|..] == c + l;
  }

  function RootInner(m: Message): bytes {
    Wrap(INTEGER, m.version) + (Wrap(STRING, m.community) + Enc(PduTlv(m)))
  }

  lemma MessageEnc(m: Message)
    ensures Enc(MessageTlv(m)) == Wrap(STRUCTURE, RootInner(m))
  {
    EncThree(Leaf(INTEGER, m.version), Leaf(STRING, m.community), PduTlv(m));
  }

  /** Where the walk of an encoded message finds its PDU and its community. */
  lemma RootUnfold(m: Message, base: nat)
    requires MessageOk(m) && |RootInner(m)| < TWO16
    ensures var n := |Wrap(INTEGER, m.version)|;
            var k := |Wrap(STRING, m.community)|;
            WalkRoot(RootInner(m), base) ==
            WalkPdu(PduInner(m), base + n + k + 1 + |LenBytes(|PduInner(m)|)|, IntContent(m.version),
                    Short(base + n + 1 + |LenBytes(|m.community|)|, |m.community|), m.pduType)
  {
    hide Peek, WalkInt, IntContent, WalkPdu, Enc, PduInner, Wrap, LenBytes;
    PduEnc(m);
    var p := Enc(PduTlv(m));
    WrapLen(INTEGER, m.version);
    WrapLen(STRING, m.community);
    WrapLen(m.pduType, PduInner(m));
    WalkIntWrap(m.version, Wrap(STRING, m.community) + p);
    PeekWrap(STRING, m.community, p);
    PeekWhole(m.pduType, PduInner(m));
  }

  lemma RootWalk(s: bytes, base: nat, m: Message)
    requires MessageOk(m) && |RootInner(m)| < TWO16 && At(s, base, RootInner(m))
    ensures WalkRoot(RootInner(m), base).Some?
    ensures Read(s, WalkRoot(RootInner(m), base).value) == MessageRead(m)
  {
    hide WalkRoot, WalkPdu, IntContent, Enc, Read, PduInner, Wrap, LenBytes, Cut;
    PduEnc(m);
    RootUnfold(m, base);
    var a, b, p := Wrap(INTEGER, m.version), Wrap(STRING, m.community), Enc(PduTlv(m));
    WrapLen(INTEGER, m.version);
    WrapLen(STRING, m.community);
    WrapLen(m.pduType, PduInner(m));
    AtSplit(s, base, a, b + p);
    AtSplit(s, base + |a|, b, p);
    AtWrap(s, base + |a|, STRING, m.community);
    AtWrap(s, base + |a| + |b|, m.pduType, PduInner(m));
    var community := Short(base + |a| + 1 + |LenBytes(|m.community|)|, |m.community|);
    AtCut(s, base + |a| + 1 + |LenBytes(|m.community|)|, m.community);
    PduWalk(s, base + |a| + |b| + 1 + |LenBytes(|PduInner(m)|)|, m, IntContent(m.version), community);
    assert MessageRead(m).(version := IntContent(m.version), community := m.community) == MessageRead(m);
  }

  /** The walk accepts every encoded message and finds in it exactly what was put in. */
  lemma MessageRoundTrip(m: Message, rest: bytes)
    requires MessageOk(m)
    ensures var s := Enc(MessageTlv(m)) + rest;
            Walk(s).Some? && Read(s, Walk(s).value) == MessageRead(m)
  {
    hide Peek, WalkRoot, Enc, RootInner, IntContent;
    MessageEnc(m);
    var s := Enc(MessageTlv(m)) + rest;
    PeekWrap(STRUCTURE, RootInner(m), rest);
    assert At(s, 0, Wrap(STRUCTURE, RootInner(m)));
    AtWrap(s, 0, STRUCTURE, RootInner(m));
    RootWalk(s, 1 + |LenBytes(|RootInner(m)|)|, m);
  }
}