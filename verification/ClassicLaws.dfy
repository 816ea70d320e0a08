/** What the owning-tree parser accepts, and what it makes of it. */
module ClassicLaws {
  import opened Bytes
  import opened Ber
  import opened Caps
  import opened Containers
  import opened BerView
  import opened Handling
  import opened Classic

  predicate IsInt(v: Value) { v.Simple? && v.p.PInt? && v.p.tag == 0x02 }

  /** A name and a value. */
  predicate IsPair(v: Value) {
    v.Complex? && v.ctag == 0x30 && |v.kids| == 2 && v.kids[0].Simple? && v.kids[0].p.POid?
  }

  predicate ListGrammar(vs: seq<Value>) { |vs| <= VB && forall i :: 0 <= i < |vs| ==> IsPair(vs[i]) }

  /** Up to three INTEGERs and a list; what stands behind the list is not looked at. */
  predicate PduGrammar(vs: seq<Value>) {
    && (forall i :: 0 <= i < |vs| && i < 3 ==> IsInt(vs[i]))
    && (|vs| > 3 ==> vs[3].Complex? && vs[3].ctag == 0x30 && ListGrammar(vs[3].kids))
  }

  /** A version 0 or 1, a community and a PDU, as far as they are there. */
  predicate Grammar(vs: seq<Value>) {
    && (|vs| > 0 ==> IsInt(vs[0]) && (vs[0].p.v == 0 || vs[0].p.v == 1))
    && (|vs| > 1 ==> vs[1].Simple? && vs[1].p.POctets?)
    && (|vs| > 2 ==> vs[2].Complex? && 0xA0 <= vs[2].ctag <= 0xA7 && PduGrammar(vs[2].kids))
  }

  function IntAt(vs: seq<Value>, i: nat): int { if i < |vs| && IsInt(vs[i]) then vs[i].p.v else 0 }

  /** The varbinds of a list; a constructed value counts as NULL. */
  function Pairs(vs: seq<Value>): (r: seq<VarBind>)
    requires forall i :: 0 <= i < |vs| ==> IsPair(vs[i])
    ensures |r| == |vs|
  {
    if vs == [] then [] else [PairOf(vs[0])] + Pairs(vs[1..])
  }

  function PairOf(v: Value): VarBind
    requires IsPair(v)
  {
    VarBind(v.kids[0].p.s, if v.kids[1].Simple? then v.kids[1].p else PNull(0x05), 0)
  }

  function PduOf(vs: seq<Value>, p: Packet): Packet
    requires PduGrammar(vs)
  {
    p.(requestID := if |vs| > 0 then vs[0].p.v else p.requestID,
       errorStatus := if |vs| > 1 then vs[1].p.v else p.errorStatus,
       errorIndex := if |vs| > 2 then vs[2].p.v else p.errorIndex,
       varbinds := if |vs| > 3 then Pairs(vs[3].kids) else p.varbinds)
  }

  lemma {:induction false} ParseList(vs: seq<Value>, p: Packet)
    requires |p.varbinds| <= VB
    ensures var ok := |p.varbinds| + |vs| <= VB && forall i :: 0 <= i < |vs| ==> IsPair(vs[i]);
            Parse(vs, VARBIND, p) == if ok then Some(p.(varbinds := p.varbinds + Pairs(vs))) else None
    decreases vs
  {
    if vs == [] {
      assert p.varbinds + Pairs([]) == p.varbinds;
    } else if IsPair(vs[0]) && |p.varbinds| < VB {
      var b := PairOf(vs[0]);
      var next := p.(varbinds := p.varbinds + [b]);
      assert Parse(vs, VARBIND, p) == Parse(vs[1..], VARBIND, next);
      ParseList(vs[1..], next);
      if forall i :: 0 <= i < |vs| ==> IsPair(vs[i]) {
        assert p.varbinds + [b] + Pairs(vs[1..]) == p.varbinds + ([b] + Pairs(vs[1..]));
      } else {
        var i :| 0 <= i < |vs| && !IsPair(vs[i]);
        assert vs[i] == vs[1..][i - 1];
      }
    }
  }

  lemma ParsePdu(vs: seq<Value>, p: Packet)
    requires p.varbinds == []
    ensures Parse(vs, REQUESTID, p) == if PduGrammar(vs) then Some(PduOf(vs, p)) else None
  {
    hide ListGrammar, Pairs, IsPair;
    IntStep(vs, REQUESTID, p);
    if |vs| > 0 && IsInt(vs[0]) {
      var p1 := p.(requestID := vs[0].p.v);
      IntStep(vs[1..], ERRORSTATUS, p1);
      if |vs| > 1 && IsInt(vs[1]) {
        var p2 := p1.(errorStatus := vs[1].p.v);
        assert vs[1..][1..] == vs[2..];
        IntStep(vs[2..], ERRORID, p2);
        if |vs| > 2 && IsInt(vs[2]) {
          var p3 := p2.(errorIndex := vs[2].p.v);
          assert vs[2..][1..] == vs[3..];
          ListStep(vs[3..], p3);
          if |vs| > 3 && vs[3].Complex? { ListIs(vs[3].kids); }
        }
      }
    }
  }

  lemma IntStep(vs: seq<Value>, state: ParsingState, p: Packet)
    requires state == REQUESTID || state == ERRORSTATUS || state == ERRORID
    ensures vs == [] ==> Parse(vs, state, p) == Some(p)
    ensures vs != [] && !IsInt(vs[0]) ==> Parse(vs, state, p) == None
    ensures vs != [] && IsInt(vs[0]) ==>
              Parse(vs, state, p) ==
              match state
              case REQUESTID => Parse(vs[1..], ERRORSTATUS, p.(requestID := vs[0].p.v))
              case ERRORSTATUS => Parse(vs[1..], ERRORID, p.(errorStatus := vs[0].p.v))
              case _ => Parse(vs[1..], VARBINDS, p.(errorIndex := vs[0].p.v))
  {}

  lemma ListStep(vs: seq<Value>, p: Packet)
    requires p.varbinds == []
    ensures vs == [] ==> Parse(vs, VARBINDS, p) == Some(p)
    ensures vs != [] ==>
              var ok := vs[0].Complex? && vs[0].ctag == 0x30 && ListGrammar(vs[0].kids);
              Parse(vs, VARBINDS, p) == if ok then Some(p.(varbinds := Pairs(vs[0].kids))) else None
  {
    hide Pairs, IsPair;
    if vs != [] && vs[0].Complex? {
      ParseList(vs[0].kids, p);
      if ListGrammar(vs[0].kids) { assert [] + Pairs(vs[0].kids) == Pairs(vs[0].kids); }
    }
  }

  lemma ListIs(vs: seq<Value>)
    ensures ListGrammar(vs) <==> |vs| <= VB && forall i :: 0 <= i < |vs| ==> IsPair(vs[i])
  {}

  /** The parser accepts exactly this grammar, and what it reads is what stands there; fields that are missing
      read as zero. */
  lemma ParseIs(vs: seq<Value>)
    ensures Parse(vs, SNMPVERSION, EMPTY_PACKET).Some? <==> Grammar(vs)
    ensures Grammar(vs) ==>
              var p := Parse(vs, SNMPVERSION, EMPTY_PACKET).value;
              var pdu := if |vs| > 2 then vs[2].kids else [];
              && p.version == IntAt(vs, 0) && p.community == (if |vs| > 1 then vs[1].p.s else [])
              && p.pduType == (if |vs| > 2 then vs[2].ctag else 0)
              && p.requestID == IntAt(pdu, 0) && p.errorStatus == IntAt(pdu, 1) && p.errorIndex == IntAt(pdu, 2)
              && p.varbinds == if |pdu| > 3 then Pairs(pdu[3].kids) else []
  {
    hide PduGrammar, Pairs, ListGrammar;
    if |vs| > 0 && IsInt(vs[0]) && 0 <= vs[0].p.v < 2 {
      var p1 := EMPTY_PACKET.(version := vs[0].p.v);
      assert Parse(vs, SNMPVERSION, EMPTY_PACKET) == Parse(vs[1..], COMMUNITY_STRING, p1);
      if |vs| > 1 && vs[1].Simple? && vs[1].p.POctets? {
        var p2 := p1.(community := vs[1].p.s);
        assert vs[1..][1..] == vs[2..] && Parse(vs[1..], COMMUNITY_STRING, p1) == Parse(vs[2..], PDU, p2);
        if |vs| > 2 && vs[2].Complex? {
          var p3 := p2.(pduType := vs[2].ctag);
          ParsePdu(vs[2].kids, p3);
          if PduGrammar(vs[2].kids) { PduIs(vs[2].kids, p3); }
        }
      }
    }
  }

  lemma PduIs(vs: seq<Value>, p: Packet)
    requires PduGrammar(vs) && p.requestID == p.errorStatus == p.errorIndex == 0 && p.varbinds == []
    ensures var r := PduOf(vs, p);
            && r.version == p.version && r.community == p.community && r.pduType == p.pduType
            && r.requestID == IntAt(vs, 0) && r.errorStatus == IntAt(vs, 1) && r.errorIndex == IntAt(vs, 2)
            && (|vs| > 3 ==> ListGrammar(vs[3].kids)) && r.varbinds == if |vs| > 3 then Pairs(vs[3].kids) else []
  {
    hide Pairs;
  }
}
