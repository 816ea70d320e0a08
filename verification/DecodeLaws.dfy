/** What the decoders make of the octets on the wire, type by type and length form by length form. */
module DecodeLaws {
  import opened Bytes
  import opened Ber
  import opened Caps
  import opened Containers
  import opened BerView
  import opened Handling
  import opened PlanFacts

  /** The numbers of RFC 3416 section 3 and RFC 2578 section 7.1 on the wire. */
  lemma Tags()
    ensures INTEGER == 0x02 && STRING == 0x04 && NULLTYPE == 0x05 && OID == 0x06 && STRUCTURE == 0x30
    ensures NETWORK_ADDRESS == 0x40 && COUNTER32 == 0x41 && GAUGE32 == 0x42 && TIMESTAMP == 0x43 && OPAQUE == 0x44
    ensures COUNTER64 == 0x46 && NOSUCHOBJECT == 0x80 && NOSUCHINSTANCE == 0x81 && ENDOFMIBVIEW == 0x82
    ensures GET_REQUEST == 0xA0 && GETNEXT_REQUEST == 0xA1 && GET_RESPONSE == 0xA2 && SET_REQUEST == 0xA3
    ensures TRAP_V1 == 0xA4 && GETBULK_REQUEST == 0xA5 && INFORM_REQUEST == 0xA6 && TRAP_V2 == 0xA7
  {}

  // ----------------------------------------------------------------- lengths

  /** A length in k octets behind 0x80 + k is read, minimal or not, if k is 1 to 4 and it is below 2^31. */
  lemma LengthForms(tag: byte, k: nat, n: nat, rest: bytes)
    requires 1 <= k <= 4 && n < Pow256(k)
    ensures DecodeLength([tag, 0x80 + k] + BigEndian(n, k) + rest) ==
            if n < TWO31 then Some(Length(k + 1, n)) else None
  {
    hide BigEndian, Number, Pow256, Spelled, DecodeLength;
    var d := BigEndian(n, k);
    var s := [tag, 0x80 + k] + d + rest;
    assert s[..2 + k] == [tag, 0x80 + k] + d;
    forall i | 0 <= i < k ensures s[2 + i] == d[i] {}
    NumberOfBigEndian(n, k);
    Below(n, Pow256(k));
    PowAtMost(k);
    SpelledNumber(s, k, d);
    LengthSpelled(s, k, n);
  }

  lemma LengthSpelled(s: bytes, k: nat, n: nat)
    requires 1 <= k <= 4 && |s| >= k + 2 && s[1] == 0x80 + k && Spelled(s, k) == n < TWO32
    ensures DecodeLength(s) == if n < TWO31 then Some(Length(k + 1, n)) else None
  {
    hide Spelled;
  }

  lemma PowAtMost(k: nat)
    requires 1 <= k <= 4
    ensures Pow256(k) <= TWO32
  {
    FourAndEight();
    assert Pow256(3) == 256 * Pow256(2) == 256 * 256 * Pow256(1);
  }

  lemma SpelledNumber(s: bytes, k: nat, d: bytes)
    requires 1 <= k <= 4 && |d| == k && k + 2 <= |s| && forall i :: 0 <= i < k ==> s[2 + i] == d[i]
    ensures Spelled(s, k) == Number(d)
  {
    NumberStep(d, 0);
    if k > 1 { NumberStep(d, 1); }
    if k > 2 { NumberStep(d, 2); }
    if k > 3 { NumberStep(d, 3); }
    assert d[..k] == d && d[..0] == [];
  }

  /** Everything else behind a tag is refused: the indefinite form, more than four length octets, and a length
      field that reaches the end of the window. */
  lemma LengthRefused(s: bytes)
    requires |s| >= 2 && s[1] >= 0x80
    ensures s[1] == 0x80 || s[1] > 0x84 || |s| < 2 + (s[1] - 0x80) ==> DecodeLength(s) == None
  {}

  // ---------------------------------------------------------------- integers

  lemma {:induction false} NumberConcat(a: bytes, b: bytes)
    ensures Number(a + b) == Number(a) * Pow256(|b|) + Number(b)
    decreases |b|
  {
    if b == [] {
      assert a + b == a;
    } else {
      var n := |b| - 1;
      assert (a + b)[..|a + b| - 1] == a + b[..n];
      NumberConcat(a, b[..n]);
      Scale(Number(a), Pow256(n), Number(b[..n]), b[n]);
    }
  }

  lemma Scale(x: nat, p: nat, y: nat, z: nat)
    ensures (x * p + y) * 256 + z == x * (256 * p) + (y * 256 + z)
  {
    assert (x * p) * 256 == x * (256 * p);
  }

  /** v is in the range of n octets of two's complement. */
  predicate InRange(v: int, n: nat) { 0 - Pow256(n) <= 2 * v < Pow256(n) }

  /** The n octets that spell v. */
  function TwosComplement(v: int, n: nat): bytes
    requires InRange(v, n)
  {
    BigEndian(if v < 0 then v + Pow256(n) else v, n)
  }

  /** Every integer in its range of one to four octets is read as itself, sign included. */
  lemma IntReads(v: int, n: nat)
    requires 1 <= n <= 4 && InRange(v, n)
    ensures IntContent(TwosComplement(v, n)) == v
  {
    hide Number, BigEndian, Pow256;
    var u: nat := if v < 0 then v + Pow256(n) else v;
    NumberOfBigEndian(u, n);
    Powers();
    Below(u, Pow256(n));
    SignedRead(BigEndian(u, n), u, v, n);
  }

  lemma Below(u: nat, p: nat)
    requires u < p
    ensures u % p == u
  {}

  lemma SignedRead(c: bytes, u: nat, v: int, n: nat)
    requires 1 <= n <= 4 && InRange(v, n) && |c| == n && Number(c) == u == if v < 0 then v + Pow256(n) else v
    ensures IntContent(c) == v
  {
    hide Number, Pow256;
    Powers();
  }

  lemma Powers()
    ensures Pow256(1) == 0x100 && Pow256(2) == 0x1_0000 && Pow256(3) == 0x100_0000 && Pow256(4) == 0x1_0000_0000
  {
    assert Pow256(3) == 256 * Pow256(2) == 256 * 256 * Pow256(1);
    assert Pow256(4) == 256 * Pow256(3);
  }

  /** Of longer contents the last four octets count; no contents spell 0. */
  lemma LongInt(c: bytes)
    ensures |c| >= 4 ==> IntContent(c) == IntContent(c[|c| - 4..])
    ensures c == [] ==> IntContent(c) == 0
  {
    if |c| >= 4 {
      var a, b := c[..|c| - 4], c[|c| - 4..];
      assert a + b == c;
      NumberConcat(a, b);
      FourAndEight();
      SameMod(Number(b), Number(a), TWO32);
    }
  }

  /** Both decoders: the walk and the container. */
  lemma BothRead(tag: byte, v: int, n: nat, rest: bytes)
    requires IsIntTag(tag) && 1 <= n <= 4 && InRange(v, n)
    ensures var c := TwosComplement(v, n);
            && WalkInt(Wrap(INTEGER, c) + rest) == Some((v, |Wrap(INTEGER, c)|))
            && FromContent(tag, c) == Some((PInt(tag, v), n))
  {
    hide IntContent, Number;
    var c := TwosComplement(v, n);
    IntReads(v, n);
    WalkIntWrap(c, rest);
    if n == 4 { assert c[..4] == c; }
    FourIsLow(c);
  }

  lemma FourIsLow(c: bytes)
    ensures |c| >= 4 ==> IntContent(c) == S32(Number(c))
  {}

  /** The container counts contents in 16 bits: of contents of up to 65535 octets it reads the low 32 bits, all
      of them used. */
  lemma LongContent(tag: byte, c: bytes)
    requires IsIntTag(tag) && 4 <= |c| < TWO16
    ensures FromContent(tag, c) == Some((PInt(tag, IntContent(c[|c| - 4..])), |c|))
  {
    hide Number;
    LongInt(c);
    assert c[..|c|] == c;
    FourIsLow(c);
  }

  /** Counter64 contents of up to eight octets are an unsigned number; of longer ones the last eight count. */
  lemma Counter64Reads(c: bytes)
    ensures FromContent(COUNTER64, c) == Some((PCounter64(Number(if |c| <= 8 then c else c[|c| - 8..])), |c|))
  {
    hide Number, Pow256;
    NumberBound(c);
    FourAndEight();
    if |c| <= 8 {
      PowMonotone(|c|, 8);
      Below(Number(c), TWO64);
    } else {
      var a, b := c[..|c| - 8], c[|c| - 8..];
      assert a + b == c;
      NumberConcat(a, b);
      NumberBound(b);
      SameMod(Number(b), Number(a), TWO64);
      Below(Number(b), TWO64);
    }
  }

  lemma {:induction false} PowMonotone(a: nat, b: nat)
    requires a <= b
    ensures 1 <= Pow256(a) <= Pow256(b)
  {
    if a > 0 {
      PowMonotone(a - 1, b - 1);
    } else if b > 0 {
      PowMonotone(0, b - 1);
    }
  }

  // ------------------------------------------------------- values of a request

  /** The value a request carries, from the octets of its TLV, primitive type by primitive type. */
  function WireValue(tag: byte, c: bytes): Option<Prim> {
    if tag == 0x02 || tag == 0x41 || tag == 0x42 || tag == 0x43 then Some(PInt(tag, IntContent(c)))
    else if tag == 0x04 then if |c| <= OCTETS && |c| <= STR then Some(POctets(c)) else None
    else if tag == 0x05 || tag == 0x80 || tag == 0x81 || tag == 0x82 then if c == [] then Some(PNull(tag)) else None
    else if tag == 0x06 then
      if c != [] && c[0] == 0x2b && |c| <= OID_DATA then Some(POid(c)) else None
    else if tag == 0x44 then if |c| <= OCTETS then Some(POpaque(c)) else None
    else if tag == 0x46 then Some(PCounter64(Number(if |c| <= 8 then c else c[|c| - 8..])))
    else None
  }

  /** What a decoded varbind carries: an IpAddress is never accepted, since its decoder counts none of its contents,
      and neither is a string the container would cut. */
  lemma ValueReads(vb: ReqVb, c: bytes, free: nat)
    requires NameOk(vb.oid) && vb.tlv == Wrap(vb.tag, c) && |c| < TWO16 && IsPrimTag(vb.tag) && free > 0
    ensures vb.tag != 0x40 ==>
              DecodeValue(vb, free) == (match WireValue(vb.tag, c)
                                        case None => None
                                        case Some(p) => Some(Simple(p)))
    ensures vb.tag == 0x40 && c != [] ==> DecodeValue(vb, free) == None
  {
    hide IntContent, Number, LenBytes;
    PeekWhole(vb.tag, c);
    if IsIntTag(vb.tag) {
      FourIsLow(c);
      assert c[..|c|] == c;
    }
    if vb.tag == COUNTER64 { Counter64Reads(c); }
    if vb.tag == STRING { assert c[..|c|] == c; }
    LenShort(c);
  }

  lemma LenShort(c: bytes)
    ensures |Wrap(0, c)| == 2 <==> c == []
    ensures forall tag: byte :: |Wrap(tag, c)| == |Wrap(0, c)|
  {}

  /** And back: integers go out as four octets of two's complement, which are read as the same integer. */
  lemma IntWritten(tag: byte, v: int)
    requires IsIntTag(tag) && Is32(v)
    ensures InRange(v, 4) && PrimContent(PInt(tag, v)) == TwosComplement(v, 4)
    ensures WireValue(tag, PrimContent(PInt(tag, v))) == Some(PInt(tag, v))
  {
    hide BigEndian, IntContent;
    FourAndEight();
    IntReads(v, 4);
  }

  /** The values of a request are those of its varbinds, each on its own. */
  lemma {:induction false} ValuesAt(vbs: seq<ReqVb>, free: nat, i: nat)
    requires DecodeValues(vbs, free).Some? && AllPrim(vbs) && i < |vbs|
    ensures Some(DecodeValues(vbs, free).value[i]) == DecodeValue(vbs[i], 1)
    decreases vbs
  {
    hide DecodeValues, DecodeValue;
    DecodeUnfold(vbs, free);
    var v := DecodeValue(vbs[0], free).value;
    if i == 0 {
      OneSlot(vbs[0], free);
    } else {
      ValuesAt(vbs[1..], free - Nodes(v), i - 1);
    }
  }

  lemma OneSlot(vb: ReqVb, free: nat)
    requires IsPrimTag(vb.tag) && free > 0
    ensures DecodeValue(vb, free) == DecodeValue(vb, 1)
  {
    hide DecodePrim;
  }

  // ------------------------------------------------------------------- trees

  /** No structure with more children than the cap, and no child of another tag than these. */
  predicate Capped(v: Value)
    decreases v
  {
    v.Complex? ==> |v.kids| <= CHILDREN && AllCapped(v.kids)
  }

  predicate AllCapped(vs: seq<Value>)
    decreases vs
  {
    vs == [] || (ChildTag(ValueTag(vs[0])) && Capped(vs[0]) && AllCapped(vs[1..]))
  }

  /** A version 1 trap, 0xA4, is not among them. */
  predicate ChildTag(tag: byte) {
    tag in {0x02, 0x04, 0x05, 0x06, 0x30, 0x40, 0x41, 0x42, 0x43, 0x44, 0x46, 0x80, 0x81, 0x82,
            0xA0, 0xA1, 0xA2, 0xA3, 0xA5, 0xA6, 0xA7}
  }

  lemma TagsKnown(tag: byte)
    ensures Creatable(tag) <==> ChildTag(tag)
  {}

  /** Whatever the container decoder accepts is such a tree. */
  lemma {:induction false} DecodedCapped(tag: byte, s: bytes, free: nat)
    requires (IsPrimTag(tag) || IsComplexTag(tag)) && Decode(tag, s, free).Some?
    ensures Capped(Decode(tag, s, free).value.value) && ValueTag(Decode(tag, s, free).value.value) == tag
    decreases |s|, 0
  {
    hide DecodePrim, DecodeKids, AllCapped;
    if IsPrimTag(tag) {
      DecodedPrim(tag, s);
    } else {
      var v := Peek(s).value;
      KidsCapped(s[v.headerLen..], v.len, 0, free);
    }
  }

  lemma {:induction false} KidsCapped(s: bytes, remaining: nat, n: nat, free: nat)
    requires remaining <= |s| && DecodeKids(s, remaining, n, free).Some? && n <= CHILDREN
    ensures AllCapped(DecodeKids(s, remaining, n, free).value)
    ensures n + |DecodeKids(s, remaining, n, free).value| <= CHILDREN
    decreases |s|, 1
  {
    hide Decode, Capped, ChildTag;
    if remaining > 0 {
      TagsKnown(s[0]);
      DecodedCapped(s[0], s, free - 1);
      var d := Decode(s[0], s, free - 1).value;
      if d.used < remaining {
        KidsCapped(s[d.used..], remaining - d.used, n + 1, free - Nodes(d.value));
        var rest := DecodeKids(s[d.used..], remaining - d.used, n + 1, free - Nodes(d.value)).value;
        assert ([d.value] + rest)[1..] == rest;
      }
    }
  }
}
