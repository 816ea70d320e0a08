/** The owning ASN.1 containers: their values, the right-shifting serialiser of BEREncode.cpp
    and what the fromBuffer decoders of BERDecode.cpp compute. */
module Containers {
  import opened Bytes
  import opened Ber
  import opened Caps

  datatype Prim =
    | PInt(tag: byte, v: int)
    | PCounter64(v64: nat)
    | POctets(s: bytes)
    | POpaque(s: bytes)
    | POid(s: bytes)
    | PNull(tag: byte)
    | PAddress(ip: bytes)

  datatype Value = Simple(p: Prim) | Complex(ctag: byte, kids: seq<Value>)

  predicate IsIntTag(tag: byte) {
    tag == INTEGER || tag == TIMESTAMP || tag == COUNTER32 || tag == GAUGE32
  }

  predicate IsNullTag(tag: byte) {
    tag == NULLTYPE || tag == NOSUCHOBJECT || tag == NOSUCHINSTANCE || tag == ENDOFMIBVIEW
  }

  predicate IsPrimTag(tag: byte) {
    || IsIntTag(tag) || IsNullTag(tag)
    || tag == STRING || tag == OID || tag == NETWORK_ADDRESS || tag == COUNTER64 || tag == OPAQUE
  }

  predicate IsComplexTag(tag: byte) { tag == STRUCTURE || GET_REQUEST <= tag <= TRAP_V2 }

  /** createObjectForType: the tags a child may have. TrapPDU is not among them. */
  predicate Creatable(tag: byte) { IsPrimTag(tag) || (IsComplexTag(tag) && tag != TRAP_V1) }

  function PrimTag(p: Prim): byte {
    match p
    case PInt(tag, _) => tag
    case PCounter64(_) => COUNTER64
    case POctets(_) => STRING
    case POpaque(_) => OPAQUE
    case POid(_) => OID
    case PNull(tag) => tag
    case PAddress(_) => NETWORK_ADDRESS
  }

  function PrimContent(p: Prim): bytes {
    match p
    case PInt(_, v) => BigEndian(U32(v), 4)
    case PCounter64(v) => BigEndian(v, 8)
    case POctets(s) => s
    case POpaque(s) => s
    case POid(s) => s
    case PNull(_) => []
    case PAddress(ip) => ip
  }

  function PrimTlv(p: Prim): Tlv { Leaf(PrimTag(p), PrimContent(p)) }

  function ValueTag(v: Value): byte { if v.Simple? then PrimTag(v.p) else v.ctag }

  function ValueTlv(v: Value): Tlv
    decreases v
  {
    match v
    case Simple(p) => PrimTlv(p)
    case Complex(tag, kids) => Node(tag, ValueTlvs(kids))
  }

  function ValueTlvs(vs: seq<Value>): (ts: seq<Tlv>)
    ensures |ts| == |vs|
    decreases vs
  {
    if vs == [] then [] else [ValueTlv(vs[0])] + ValueTlvs(vs[1..])
  }

  /** Pool slots a value occupies: one a node. */
  function Nodes(v: Value): (n: nat)
    ensures n >= 1
    decreases v
  {
    match v
    case Simple(_) => 1
    case Complex(_, kids) => 1 + NodesAll(kids)
  }

  function NodesAll(vs: seq<Value>): nat
    decreases vs
  {
    if vs == [] then 0 else Nodes(vs[0]) + NodesAll(vs[1..])
  }

  // -------------------------------------------------------------- serialise

  const ENCODE_LEN_EXCEEDED: int := -31

  /** encode_ber_length_integer: writes the length octets at off. */
  method PutLength(buf: array<byte>, off: nat, n: nat) returns (used: nat)
    requires off + 3 <= buf.Length
    modifies buf
    ensures used == |LenBytes(n)| && buf[off..off + used] == LenBytes(n)
    ensures forall i :: 0 <= i < buf.Length && (i < off || off + used <= i) ==> buf[i] == old(buf[i])
  {
    if n < 128 {
      buf[off] := n;
      used := 1;
    } else if n >= 256 {
      buf[off] := 0x82;
      buf[off + 1] := n / 256 % 256;
      buf[off + 2] := n % 256;
      used := 3;
    } else {
      buf[off] := 0x81;
      buf[off + 1] := n % 256;
      used := 2;
    }
  }

  /** What a serialise call reports for t when maxLen octets are allowed. */
  function Reported(t: Tlv, maxLen: nat): int {
    if |Enc(t)| <= maxLen then |Enc(t)| else ENCODE_LEN_EXCEEDED
  }

  /** A leaf. The header goes out before the room test, so the array needs two spare octets. */
  method SerialisePrim(buf: array<byte>, off: nat, maxLen: nat, p: Prim) returns (r: int)
    requires off + maxLen + 2 <= buf.Length
    modifies buf
    ensures r == Reported(PrimTlv(p), maxLen)
    ensures r >= 0 ==> off + r <= buf.Length && buf[off..off + r] == Enc(PrimTlv(p))
    ensures forall i :: 0 <= i < buf.Length && (i < off || off + maxLen + 2 <= i) ==> buf[i] == old(buf[i])
  {
    if maxLen < 2 { return ENCODE_LEN_EXCEEDED; }
    var content := PrimContent(p);
    var i := SerialiseHeader(buf, off, PrimTag(p), |content|);
    if maxLen < |content| + i { return ENCODE_LEN_EXCEEDED; }
    ghost var head := buf[off..off + i];
    CopyIn(buf, off + i, content);
    assert buf[off..off + i] == head;
    assert buf[off..off + i + |content|] == buf[off..off + i] + buf[off + i..off + i + |content|];
    return i + |content|;
  }

  /** BER_CONTAINER::serialise: tag and length octets. */
  method SerialiseHeader(buf: array<byte>, off: nat, tag: byte, n: nat) returns (i: nat)
    requires off + 4 <= buf.Length
    modifies buf
    ensures i == 1 + |LenBytes(n)| && buf[off..off + i] == [tag] + LenBytes(n)
    ensures forall k :: 0 <= k < buf.Length && (k < off || off + i <= k) ==> buf[k] == old(buf[k])
  {
    buf[off] := tag;
    var used := PutLength(buf, off + 1, n);
    i := 1 + used;
    assert buf[off..off + i] == [buf[off]] + buf[off + 1..off + i];
  }

  lemma TagBefore(buf: array<byte>, off: nat, tag: byte, content: bytes)
    requires var n := |LenBytes(|content|)| + |content|;
             off + 1 + n <= buf.Length && buf[off] == tag && buf[off + 1..off + 1 + n] == LenBytes(|content|) + content
    ensures buf[off..off + 1 + |LenBytes(|content|)| + |content|] == Wrap(tag, content)
  {
    hide LenBytes;
    var n := |LenBytes(|content|)| + |content|;
    assert buf[off..off + 1 + n] == [tag] + buf[off + 1..off + 1 + n];
  }

  /** memcpy of c to off. */
  method CopyIn(buf: array<byte>, off: nat, c: bytes)
    requires off + |c| <= buf.Length
    modifies buf
    ensures buf[off..off + |c|] == c
    ensures forall i :: 0 <= i < buf.Length && (i < off || off + |c| <= i) ==> buf[i] == old(buf[i])
  {
    forall j | off <= j < off + |c| { buf[j] := c[j - off]; }
  }

  /** shift_arr_right: the length octets from off on, moved num places up, last first. */
  method ShiftRight(buf: array<byte>, off: nat, num: nat, length: nat)
    requires off + num + length <= buf.Length
    modifies buf
    ensures buf[off + num..off + num + length] == old(buf[off..off + length])
    ensures forall i :: 0 <= i < buf.Length && (i < off || off + num + length <= i) ==> buf[i] == old(buf[i])
  {
    var l := length + num - 1;
    while l - num >= 0
      invariant num - 1 <= l <= length + num - 1
      invariant forall i :: off + l < i < off + num + length ==> buf[i] == old(buf[i - num])
      invariant forall i :: 0 <= i < buf.Length && (i <= off + l || off + num + length <= i) ==> buf[i] == old(buf[i])
    {
      buf[off + l] := buf[off + l - num];
      l := l - 1;
    }
  }

  /** ComplexType::serialise: the children go out behind a two-octet header, which is then
      widened by shifting them right. Returns the length of the encoding exactly when that fits. */
  method Serialise(buf: array<byte>, off: nat, maxLen: nat, v: Value) returns (r: int)
    requires off + maxLen + 2 + Depth(ValueTlv(v)) <= buf.Length
    modifies buf
    ensures r == Reported(ValueTlv(v), maxLen)
    ensures r >= 0 ==> off + r <= buf.Length && buf[off..off + r] == Enc(ValueTlv(v))
    ensures forall i :: 0 <= i < buf.Length && (i < off || off + maxLen + 2 + Depth(ValueTlv(v)) <= i) ==>
              buf[i] == old(buf[i])
    decreases v, 2
  {
    if v.Simple? {
      r := SerialisePrim(buf, off, maxLen, v.p);
      return;
    }
    if maxLen < 2 {
      EncTooLong(v);
      return ENCODE_LEN_EXCEEDED;
    }
    buf[off] := v.ctag;
    var internalLength := SerialiseKids(buf, off + 2, maxLen, v);
    ghost var done := EncAll(ValueTlvs(v.kids));
    ComplexEnc(v);
    if internalLength < 0 { return internalLength; }
    var num := |LenBytes(internalLength)|;
    if maxLen < 1 + internalLength + num { return ENCODE_LEN_EXCEEDED; }
    CloseComplex(buf, off, internalLength, done);
    return 1 + num + internalLength;
  }

  lemma ComplexEnc(v: Value)
    requires v.Complex?
    ensures var done := EncAll(ValueTlvs(v.kids));
            Enc(ValueTlv(v)) == Wrap(v.ctag, done) && |Enc(ValueTlv(v))| == 1 + |LenBytes(|done|)| + |done|
  {}

  lemma EncTooLong(v: Value)
    ensures |Enc(ValueTlv(v))| >= 2
  {}

  /** The child loop of ComplexType::serialise. */
  method SerialiseKids(buf: array<byte>, body: nat, maxLen: nat, v: Value) returns (r: int)
    requires v.Complex? && maxLen >= 2 && body + maxLen + Depth(ValueTlv(v)) <= buf.Length
    modifies buf
    ensures var done := EncAll(ValueTlvs(v.kids));
            if r < 0 then r == ENCODE_LEN_EXCEEDED && |done| + 2 > maxLen
            else r == |done| < maxLen && buf[body..body + r] == done
    ensures forall i :: 0 <= i < buf.Length && (i < body || body + maxLen + Depth(ValueTlv(v)) <= i) ==>
              buf[i] == old(buf[i])
    decreases v, 1
  {
    hide Enc, EncAll, Depth;
    var internalLength := 0;
    var n := 0;
    ghost var ts := ValueTlvs(v.kids);
    NoneDone(ts);
    while n < |v.kids|
      invariant 0 <= n <= |v.kids|
      invariant internalLength == |EncAll(ts[..n])| < maxLen
      invariant buf[body..body + internalLength] == EncAll(ts[..n])
      invariant forall i :: 0 <= i < buf.Length && (i < body || body + maxLen + Depth(ValueTlv(v)) <= i) ==>
                  buf[i] == old(buf[i])
    {
      var length := SerialiseKid(buf, body, maxLen, v, n, internalLength);
      if length < 0 { return length; }
      internalLength := internalLength + length;
      n := n + 1;
    }
    assert ts[..n] == ts;
    return internalLength;
  }

  lemma NoneDone(ts: seq<Tlv>)
    ensures EncAll(ts[..0]) == []
  {}

  /** One child, behind those already there. */
  method SerialiseKid(buf: array<byte>, body: nat, maxLen: nat, v: Value, n: nat, used: nat) returns (length: int)
    requires v.Complex? && n < |v.kids| && body + maxLen + Depth(ValueTlv(v)) <= buf.Length
    requires used == |EncAll(ValueTlvs(v.kids)[..n])| < maxLen
    requires buf[body..body + used] == EncAll(ValueTlvs(v.kids)[..n])
    modifies buf
    ensures var ts := ValueTlvs(v.kids);
            if length < 0 then length == ENCODE_LEN_EXCEEDED && |EncAll(ts)| + 2 > maxLen
            else && used + length == |EncAll(ts[..n + 1])| < maxLen
                 && buf[body..body + used + length] == EncAll(ts[..n + 1])
    ensures forall i :: 0 <= i < buf.Length && (i < body || body + maxLen + Depth(ValueTlv(v)) <= i) ==>
              buf[i] == old(buf[i])
    decreases v, 0
  {
    hide Enc, EncAll, Depth;
    ghost var ts := ValueTlvs(v.kids);
    ghost var done := buf[body..body + used];
    KidFacts(v, n);
    length := Serialise(buf, body + used, maxLen - used - 1, v.kids[n]);
    if length >= 0 {
      assert buf[body..body + used] == done;
      assert buf[body..body + used + length] == buf[body..body + used] + buf[body + used..body + used + length];
    }
  }

  /** The end of ComplexType::serialise: room for the longer length form, then the length. */
  method CloseComplex(buf: array<byte>, off: nat, internalLength: nat, ghost done: bytes)
    requires off + 4 <= buf.Length && off + 1 + |LenBytes(internalLength)| + internalLength <= buf.Length
    requires internalLength == |done| && buf[off + 2..off + 2 + internalLength] == done
    modifies buf
    ensures buf[off..off + 1 + |LenBytes(internalLength)| + internalLength] == Wrap(old(buf[off]), done)
    ensures forall i :: && 0 <= i < buf.Length
                        && (i < off || off + 1 + |LenBytes(internalLength)| + internalLength <= i) ==>
              buf[i] == old(buf[i])
  {
    hide LenBytes, Wrap;
    var num := |LenBytes(internalLength)|;
    ghost var tag := buf[off];
    MakeRoom(buf, off + 2, num - 1, internalLength, done);
    PutLengthBefore(buf, off + 1, internalLength, done);
    TagBefore(buf, off, tag, done);
  }

  /** The content moved up by the octets the length needs beyond one. */
  method MakeRoom(buf: array<byte>, off: nat, num: nat, length: nat, ghost done: bytes)
    requires length == |done| && off + num + |done| <= buf.Length && buf[off..off + |done|] == done
    modifies buf
    ensures buf[off + num..off + num + |done|] == done
    ensures forall i :: 0 <= i < buf.Length && (i < off || off + num + |done| <= i) ==> buf[i] == old(buf[i])
  {
    if num > 0 { ShiftRight(buf, off, num, length); }
  }

  /** The length octets right in front of the content. */
  method PutLengthBefore(buf: array<byte>, off: nat, n: nat, ghost done: bytes)
    requires off + 3 <= buf.Length && off + |LenBytes(n)| + n <= buf.Length && n == |done|
    requires buf[off + |LenBytes(n)|..off + |LenBytes(n)| + n] == done
    modifies buf
    ensures buf[off..off + |LenBytes(n)| + n] == LenBytes(n) + done
    ensures forall i :: 0 <= i < buf.Length && (i < off || off + |LenBytes(n)| <= i) ==> buf[i] == old(buf[i])
  {
    hide LenBytes;
    var used := PutLength(buf, off, n);
    assert buf[off + used..off + used + n] == done;
    assert buf[off..off + used + n] == buf[off..off + used] + buf[off + used..off + used + n];
  }

  lemma KidFacts(v: Value, n: nat)
    requires v.Complex? && n < |v.kids|
    ensures var ts := ValueTlvs(v.kids);
            && ts[n] == ValueTlv(v.kids[n])
            && EncAll(ts[..n + 1]) == EncAll(ts[..n]) + Enc(ts[n])
            && |EncAll(ts)| >= |EncAll(ts[..n])| + |Enc(ts[n])|
            && 1 + Depth(ts[n]) <= Depth(ValueTlv(v))
            && |Enc(ValueTlv(v))| >= 2 + |EncAll(ts)|
  {
    var ts := ValueTlvs(v.kids);
    TlvsAt(v.kids, n);
    DepthAt(ts, n);
    EncAllConcat(ts[..n], [ts[n]]);
    assert ts[..n + 1] == ts[..n] + [ts[n]];
    EncAllConcat(ts[..n + 1], ts[n + 1..]);
    assert ts == ts[..n + 1] + ts[n + 1..];
    assert EncAll([ts[n]]) == Enc(ts[n]) + EncAll([]);
  }

  lemma {:induction false} TlvsAt(vs: seq<Value>, n: nat)
    requires n < |vs|
    ensures ValueTlvs(vs)[n] == ValueTlv(vs[n])
  {
    if n > 0 { TlvsAt(vs[1..], n - 1); }
  }

  lemma {:induction false} DepthAt(ts: seq<Tlv>, n: nat)
    requires n < |ts|
    ensures Depth(ts[n]) <= DepthAll(ts)
  {
    if n > 0 { DepthAt(ts[1..], n - 1); }
  }

  // ----------------------------------------------------------------- decode

  /** Two's complement contents: 1, 2 and 3 octets are sign-extended, longer contents keep
      their low 32 bits, no contents give 0. */
  function IntContent(c: bytes): int {
    if |c| == 1 then (if Number(c) < 0x80 then Number(c) else Number(c) - 0x100)
    else if |c| == 2 then (if Number(c) < 0x8000 then Number(c) else Number(c) - 0x1_0000)
    else if |c| == 3 then (if Number(c) < 0x80_0000 then Number(c) else Number(c) - 0x100_0000)
    else S32(Number(c))
  }

  /** A decoded container and how many octets its fromBuffer claims to have used. */
  datatype Decoded = Decoded(value: Value, used: nat)

  /** A primitive's contents c as a value, and how many of its octets fromBuffer counts.
      The integer loop counts in an unsigned short; an IpAddress counts none of its four octets. */
  function FromContent(tag: byte, c: bytes): (r: Option<(Prim, nat)>)
    requires IsPrimTag(tag)
    ensures r.Some? ==> r.value.1 <= |c|
  {
    if IsNullTag(tag) then Some((PNull(tag), 0))
    else if IsIntTag(tag) then
      var n := |c| % TWO16;
      Some((PInt(tag, if |c| < 4 then IntContent(c) else S32(Number(c[..n]))), n))
    else if tag == STRING then
      if |c| > OCTETS then None
      else
        var n := if |c| > STR then STR else |c|;
        Some((POctets(c[..n]), n))
    else if tag == OID then
      if c == [] || |c| > OID_DATA || c[0] != 0x2b then None else Some((POid(c), |c|))
    else if tag == NETWORK_ADDRESS then
      Some((PAddress(if |c| >= 4 then c[..4] else [0, 0, 0, 0]), 0))
    else if tag == COUNTER64 then Some((PCounter64(Number(c) % TWO64), |c|))
    else if |c| > OCTETS then None
    else Some((POpaque(c), |c|))
  }

  /** fromBuffer of a primitive container of the given tag on the window s. The null kinds
      do not look at their length and count two octets. */
  function DecodePrim(tag: byte, s: bytes): (r: Option<Decoded>)
    requires IsPrimTag(tag)
    ensures r.Some? ==> r.value.used >= 2 && r.value.value.Simple?
  {
    if IsNullTag(tag) then Some(Decoded(Simple(PNull(tag)), 2))
    else
      match Peek(s)
      case None => None
      case Some(v) =>
        match FromContent(tag, v.Of(s))
        case None => None
        case Some((p, n)) => Some(Decoded(Simple(p), v.headerLen + n))
  }

  /** IntegerType::fromBuffer on contents of the given length at s[at..]. */
  method ReadInteger(s: bytes, at: nat, length: nat) returns (v: int, used: nat)
    requires at + length <= |s|
    ensures var c := s[at..at + length];
            used == length % TWO16 && v == if length < 4 then IntContent(c) else S32(Number(c[..used]))
  {
    ghost var c := s[at..at + length];
    var tempLength: nat := length % TWO16;
    var tempVal := 0;
    used := 0;
    while tempLength > 0
      invariant used + tempLength == length % TWO16 && tempVal == U32(Number(c[..used]))
    {
      NumberStep(c, used);
      ShiftIn(tempVal, Number(c[..used]), s[at + used]);
      tempVal := U32(tempVal * 256 + s[at + used]);
      used := used + 1;
      tempLength := tempLength - 1;
    }
    SignExtend(c[..used]);
    if length == 1 {
      v := if tempVal < 0x80 then tempVal else tempVal - 0x100;
    } else if length == 2 {
      v := if tempVal < 0x8000 then tempVal else tempVal - 0x1_0000;
    } else if length == 3 {
      v := if tempVal >= 0x80_0000 then S32(tempVal + 0xFF00_0000) else S32(tempVal);
    } else {
      v := S32(tempVal);
    }
    assert length < 4 ==> c[..used] == c;
  }

  lemma SignExtend(c: bytes)
    ensures |c| == 1 ==> U32(Number(c)) == Number(c)
    ensures |c| == 2 ==> U32(Number(c)) == Number(c) < 0x1_0000
    ensures |c| == 3 ==> U32(Number(c)) == Number(c) < 0x100_0000
  {
    NumberBound(c);
    if |c| == 2 { assert Pow256(2) == 256 * Pow256(1); }
    if |c| == 3 { assert Pow256(3) == 256 * Pow256(2) == 256 * 256 * Pow256(1); }
  }

  /** Counter64::fromBuffer on contents of the given length at s[at..]. */
  method ReadCounter64(s: bytes, at: nat, length: nat) returns (v: nat)
    requires at + length <= |s|
    ensures v == Number(s[at..at + length]) % TWO64
  {
    ghost var c := s[at..at + length];
    v := 0;
    var k := 0;
    while k < length
      invariant 0 <= k <= length && v == Number(c[..k]) % TWO64
    {
      NumberStep(c, k);
      Shift64(v, Number(c[..k]), s[at + k]);
      v := (v * 256 + s[at + k]) % TWO64;
      k := k + 1;
    }
    assert c[..length] == c;
  }

  lemma Shift64(x: nat, y: nat, b: byte)
    requires x == y % TWO64
    ensures (x * 256 + b) % TWO64 == (y * 256 + b) % TWO64
  {
    var k := y / TWO64;
    assert y == x + k * TWO64;
    assert y * 256 + b == x * 256 + b + (k * 256) * TWO64;
    SameMod(x * 256 + b, k * 256, TWO64);
  }

  /** fromBuffer of the primitive containers. */
  method PrimFromBuffer(tag: byte, s: bytes) returns (r: int, p: Prim)
    requires IsPrimTag(tag)
    ensures var d := DecodePrim(tag, s);
            if d.Some? then r == d.value.used && Simple(p) == d.value.value else r < 0
  {
    hide Peek, FromContent;
    p := PNull(tag);
    if IsNullTag(tag) { return 2, p; }
    var peeked := Peek(s);
    if peeked.None? { return -11, p; }
    var v := peeked.value;
    assert s[v.headerLen..v.headerLen + v.len] == v.Of(s);
    r, p := ReadContent(tag, s, v.headerLen, v.len);
    if r >= 0 { r := v.headerLen + r; }
  }

  /** What follows the header: the octets counted, or an error. */
  method ReadContent(tag: byte, s: bytes, i: nat, len: nat) returns (r: int, p: Prim)
    requires IsPrimTag(tag) && !IsNullTag(tag) && i + len <= |s|
    ensures var d := FromContent(tag, s[i..i + len]);
            if d.Some? then r == d.value.1 && p == d.value.0 else r < 0
  {
    hide IntContent, Number, S32;
    ghost var c := s[i..i + len];
    p := PNull(tag);
    if IsIntTag(tag) {
      var n, used := ReadInteger(s, i, len);
      return used, PInt(tag, n);
    } else if tag == STRING {
      if len > OCTETS { return -16, p; }
      var length := if len > STR then STR else len;
      assert s[i..i + length] == c[..length];
      return length, POctets(s[i..i + length]);
    } else if tag == OID {
      if len > OID_DATA { return -11, p; }
      if len == 0 || s[i] != 0x2b { return -17, p; }
      return len, POid(s[i..i + len]);
    } else if tag == NETWORK_ADDRESS {
      assert len >= 4 ==> s[i..i + 4] == c[..4];
      return 0, PAddress(if len >= 4 then s[i..i + 4] else [0, 0, 0, 0]);
    } else if tag == COUNTER64 {
      var n := ReadCounter64(s, i, len);
      return len, PCounter64(n);
    } else {
      if len > OCTETS { return -11, p; }
      return len, POpaque(s[i..i + len]);
    }
  }

  /** fromBuffer of a container of the given tag on the window s, with free pool slots left
      for its descendants. */
  function Decode(tag: byte, s: bytes, free: nat): (r: Option<Decoded>)
    requires IsPrimTag(tag) || IsComplexTag(tag)
    ensures r.Some? ==> r.value.used >= 2 && Nodes(r.value.value) <= free + 1
    decreases |s|, 0
  {
    if IsPrimTag(tag) then DecodePrim(tag, s)
    else
      match Peek(s)
      case None => None
      case Some(v) =>
        match DecodeKids(s[v.headerLen..], v.len, 0, free)
        case None => None
        case Some(kids) => Some(Decoded(Complex(tag, kids), v.Total()))
  }

  /** The child loop: n children are done, remaining octets of the parent are left. A child may
      read past its parent up to the end of the window. */
  function DecodeKids(s: bytes, remaining: nat, n: nat, free: nat): (r: Option<seq<Value>>)
    requires remaining <= |s|
    ensures r.Some? ==> NodesAll(r.value) <= free
    decreases |s|, 1
  {
    if remaining == 0 then Some([])
    else if n >= CHILDREN || !Creatable(s[0]) || free == 0 then None
    else
      match Decode(s[0], s, free - 1)
      case None => None
      case Some(d) =>
        if d.used >= remaining then Some([d.value])
        else
          match DecodeKids(s[d.used..], remaining - d.used, n + 1, free - Nodes(d.value))
          case None => None
          case Some(rest) => Some([d.value] + rest)
  }

  // ------------------------------------------------------------- round trip

  predicate PrimOk(p: Prim) {
    match p
    case PInt(tag, v) => IsIntTag(tag) && Is32(v)
    case PCounter64(v) => v < TWO64
    case POctets(s) => |s| <= OCTETS && |s| <= STR
    case POpaque(s) => |s| <= OCTETS
    case POid(s) => s != [] && s[0] == 0x2b && |s| <= OID_DATA
    case PNull(tag) => IsNullTag(tag)
    case PAddress(ip) => |ip| == 4
  }

  /** What the container decoder can rebuild: within the caps, no IpAddress, TrapPDU at most
      at the root, every length in two octets. */
  predicate ValueOk(v: Value)
    decreases v
  {
    match v
    case Simple(p) => PrimOk(p) && !p.PAddress? && |PrimContent(p)| < TWO16
    case Complex(tag, kids) =>
      IsComplexTag(tag) && |kids| <= CHILDREN && |EncAll(ValueTlvs(kids))| < TWO16 && ValuesOk(kids)
  }

  predicate ValuesOk(vs: seq<Value>)
    decreases vs
  {
    vs == [] || (ValueOk(vs[0]) && Creatable(ValueTag(vs[0])) && ValuesOk(vs[1..]))
  }

  lemma IntRoundTrip(v: int)
    requires Is32(v)
    ensures IntContent(BigEndian(U32(v), 4)) == v
  {
    hide Number, BigEndian, Pow256;
    NumberOfBigEndian(U32(v), 4);
    FourAndEight();
  }

  lemma FourAndEight()
    ensures Pow256(4) == TWO32 && Pow256(8) == TWO64
  {
    assert Pow256(4) == 256 * Pow256(3) == 256 * 256 * Pow256(2) == 256 * 256 * 256 * Pow256(1);
    assert Pow256(8) == 256 * Pow256(7) == 256 * 256 * Pow256(6) == 256 * 256 * 256 * Pow256(5);
  }

  lemma Counter64RoundTrip(v: nat)
    requires v < TWO64
    ensures Number(BigEndian(v, 8)) == v
  {
    hide Number, BigEndian, Pow256;
    NumberOfBigEndian(v, 8);
    FourAndEight();
  }

  /** The value a BER tree spells, if the container decoder can take in all of it: known tags,
      contents within the caps and wholly counted, every length in two octets. */
  function Meaning(t: Tlv): Option<Value>
    decreases t
  {
    match t
    case Leaf(tag, c) =>
      if !IsPrimTag(tag) || |c| >= TWO16 then None
      else
        (match FromContent(tag, c)
         case None => None
         case Some((p, n)) => if n == |c| then Some(Simple(p)) else None)
    case Node(tag, kids) =>
      if !IsComplexTag(tag) || |kids| > CHILDREN || |EncAll(kids)| >= TWO16 then None
      else
        match MeaningAll(kids)
        case None => None
        case Some(vs) => Some(Complex(tag, vs))
  }

  function MeaningAll(ts: seq<Tlv>): (r: Option<seq<Value>>)
    ensures r.Some? ==> |r.value| == |ts|
    decreases ts
  {
    if ts == [] then Some([])
    else if !Creatable(ts[0].tag) then None
    else
      match Meaning(ts[0])
      case None => None
      case Some(v) =>
        match MeaningAll(ts[1..])
        case None => None
        case Some(vs) => Some([v] + vs)
  }

  lemma LeafDecode(tag: byte, c: bytes, rest: bytes)
    requires Meaning(Leaf(tag, c)).Some?
    ensures DecodePrim(tag, Wrap(tag, c) + rest) == Some(Decoded(Meaning(Leaf(tag, c)).value, |Wrap(tag, c)|))
  {
    PeekWrap(tag, c, rest);
  }

  lemma ContentRoundTrip(p: Prim)
    requires PrimOk(p) && !p.PAddress? && |PrimContent(p)| < TWO16
    ensures FromContent(PrimTag(p), PrimContent(p)) == Some((p, |PrimContent(p)|))
  {
    var c := PrimContent(p);
    assert c[..|c|] == c;
    match p {
      case PInt(_, v) => IntRoundTrip(v);
      case PCounter64(v) => Counter64RoundTrip(v);
      case _ =>
    }
  }

  /** Whatever a primitive decoder accepts is within the caps and of the tag asked for. */
  lemma DecodedPrim(tag: byte, s: bytes)
    requires IsPrimTag(tag) && DecodePrim(tag, s).Some?
    ensures var p := DecodePrim(tag, s).value.value.p; PrimOk(p) && PrimTag(p) == tag
  {
    hide Number;
    if !IsNullTag(tag) {
      var c := Peek(s).value.Of(s);
      if IsIntTag(tag) { IntRange(c); }
    }
  }

  lemma IntRange(c: bytes)
    ensures Is32(IntContent(c))
  {
    NumberBound(c);
    if |c| == 2 { assert Pow256(2) == 256 * Pow256(1); }
    if |c| == 3 { assert Pow256(3) == 256 * Pow256(2) == 256 * 256 * Pow256(1); }
  }

  /** fromBuffer on the encoding of a tree rebuilds its value and uses exactly its octets, whatever
      follows, as long as the pool has a slot for every node. */
  lemma {:induction false} DecodeTree(t: Tlv, rest: bytes, free: nat)
    requires Meaning(t).Some? && Nodes(Meaning(t).value) <= free + 1
    ensures Decode(t.tag, Enc(t) + rest, free) == Some(Decoded(Meaning(t).value, |Enc(t)|))
    decreases t
  {
    match t
    case Leaf(tag, c) => LeafDecode(tag, c, rest);
    case Node(tag, kids) =>
      hide Decode, DecodeKids, EncAll;
      DecodeTrees(kids, rest, 0, free);
      NodeDecode(tag, kids, rest, free);
  }

  lemma NodeDecode(tag: byte, kids: seq<Tlv>, rest: bytes, free: nat)
    requires Meaning(Node(tag, kids)).Some?
    requires var c := EncAll(kids); DecodeKids(c + rest, |c|, 0, free) == MeaningAll(kids)
    ensures var e := Enc(Node(tag, kids));
            Decode(tag, e + rest, free) == Some(Decoded(Meaning(Node(tag, kids)).value, |e|))
  {
    hide DecodeKids, EncAll, Peek, MeaningAll;
    var c := EncAll(kids);
    PeekWrap(tag, c, rest);
    assert (Wrap(tag, c) + rest)[1 + |LenBytes(|c|)|..] == c + rest;
  }

  lemma {:induction false} DecodeTrees(ts: seq<Tlv>, rest: bytes, n: nat, free: nat)
    requires MeaningAll(ts).Some? && n + |ts| <= CHILDREN && NodesAll(MeaningAll(ts).value) <= free
    ensures var c := EncAll(ts); DecodeKids(c + rest, |c|, n, free) == MeaningAll(ts)
    decreases ts
  {
    hide Decode, DecodeKids, Enc, Meaning;
    if ts == [] {
      NoKids(rest, n, free);
    } else {
      var v, vs := Meaning(ts[0]).value, MeaningAll(ts[1..]).value;
      assert ([v] + vs)[1..] == vs;
      DecodeTree(ts[0], EncAll(ts[1..]) + rest, free - 1);
      DecodeTrees(ts[1..], rest, n + 1, free - Nodes(v));
      EncStart(ts[0]);
      KidStep(ts[0].tag, Enc(ts[0]), EncAll(ts[1..]), rest, n, free, v, vs);
    }
  }

  lemma NoKids(rest: bytes, n: nat, free: nat)
    ensures EncAll([]) == [] && DecodeKids([] + rest, 0, n, free) == Some([])
  {}

  lemma EncStart(t: Tlv)
    ensures Enc(t) != [] && Enc(t)[0] == t.tag
  {}

  lemma KidStep(tag: byte, e: bytes, b: bytes, rest: bytes, n: nat, free: nat, v: Value, vs: seq<Value>)
    requires e != [] && e[0] == tag && n < CHILDREN && Creatable(tag) && free > 0
    requires Decode(tag, e + (b + rest), free - 1) == Some(Decoded(v, |e|))
    requires DecodeKids(b + rest, |b|, n + 1, free - Nodes(v)) == Some(vs)
    ensures DecodeKids(e + b + rest, |e + b|, n, free) == Some([v] + vs)
  {
    hide Decode, DecodeKids;
    Assoc(e, b, rest);
    var s := e + (b + rest);
    assert s[0] == tag && s[|e|..] == b + rest;
    KidUnfold(s, |e + b|, n, free, Decoded(v, |e|), vs);
  }

  lemma KidUnfold(s: bytes, remaining: nat, n: nat, free: nat, d: Decoded, rest: seq<Value>)
    requires 0 < d.used <= remaining <= |s| && n < CHILDREN && Creatable(s[0]) && free > 0
    requires Decode(s[0], s, free - 1) == Some(d)
    requires DecodeKids(s[d.used..], remaining - d.used, n + 1, free - Nodes(d.value)) == Some(rest)
    ensures DecodeKids(s, remaining, n, free) == Some([d.value] + rest)
  {
    hide Decode;
    if d.used == remaining { assert [d.value] + rest == [d.value]; }
  }

  /** The tree a value is serialised as spells that value. */
  lemma {:induction false} MeaningOfValue(v: Value)
    requires ValueOk(v)
    ensures Meaning(ValueTlv(v)) == Some(v)
    decreases v
  {
    match v
    case Simple(p) => ContentRoundTrip(p);
    case Complex(_, kids) => MeaningOfValues(kids);
  }

  lemma {:induction false} MeaningOfValues(vs: seq<Value>)
    requires ValuesOk(vs)
    ensures MeaningAll(ValueTlvs(vs)) == Some(vs)
    decreases vs
  {
    if vs != [] {
      MeaningOfValue(vs[0]);
      MeaningOfValues(vs[1..]);
      assert ValueTlvs(vs)[1..] == ValueTlvs(vs[1..]) && [vs[0]] + vs[1..] == vs;
      assert ValueTlv(vs[0]).tag == ValueTag(vs[0]);
    }
  }

  /** fromBuffer(serialise(v)) is v and uses exactly its octets, whatever follows. */
  lemma SerialiseRoundTrip(v: Value, rest: bytes, free: nat)
    requires ValueOk(v) && Nodes(v) <= free + 1
    ensures Decode(ValueTag(v), Enc(ValueTlv(v)) + rest, free) == Some(Decoded(v, |Enc(ValueTlv(v))|))
  {
    MeaningOfValue(v);
    assert ValueTlv(v).tag == ValueTag(v);
    DecodeTree(ValueTlv(v), rest, free);
  }
}
