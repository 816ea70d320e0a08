/** Definite-length BER (X.690 section 8.1.3): the encoding both writers aim at and
    the single-TLV reader both decoders start from. */
module Ber {
  import opened Bytes

  const INTEGER: byte := 0x02
  const STRING: byte := 0x04
  const NULLTYPE: byte := 0x05
  const OID: byte := 0x06
  const STRUCTURE: byte := 0x30
  const NETWORK_ADDRESS: byte := 0x40
  const COUNTER32: byte := 0x41
  const GAUGE32: byte := 0x42
  const TIMESTAMP: byte := 0x43
  const OPAQUE: byte := 0x44
  const COUNTER64: byte := 0x46
  const NOSUCHOBJECT: byte := 0x80
  const NOSUCHINSTANCE: byte := 0x81
  const ENDOFMIBVIEW: byte := 0x82
  const GET_REQUEST: byte := 0xA0
  const GETNEXT_REQUEST: byte := 0xA1
  const GET_RESPONSE: byte := 0xA2
  const SET_REQUEST: byte := 0xA3
  const TRAP_V1: byte := 0xA4
  const GETBULK_REQUEST: byte := 0xA5
  const INFORM_REQUEST: byte := 0xA6
  const TRAP_V2: byte := 0xA7

  // ---------------------------------------------------------------- encoding

  datatype Tlv = Leaf(tag: byte, content: bytes) | Node(tag: byte, kids: seq<Tlv>)

  /** The length octets. The third case keeps the low 16 bits only, as both writers do:
      it is a correct length exactly below 65536 (LengthFaithful). */
  function LenBytes(n: nat): (s: bytes)
    ensures 1 <= |s| <= 3
  {
    if n < 0x80 then [n]
    else if n < 0x100 then [0x81, n]
    else [0x82, (n / 256) % 256, n % 256]
  }

  function Wrap(tag: byte, content: bytes): bytes {
    [tag] + LenBytes(|content|) + content
  }

  lemma WrapLen(tag: byte, content: bytes)
    ensures |Wrap(tag, content)| == 1 + |LenBytes(|content|)| + |content|
  {}

  function Enc(t: Tlv): bytes
    decreases t
  {
    match t
    case Leaf(tag, content) => Wrap(tag, content)
    case Node(tag, kids) => Wrap(tag, EncAll(kids))
  }

  function EncAll(ts: seq<Tlv>): bytes
    decreases ts
  {
    if ts == [] then [] else Enc(ts[0]) + EncAll(ts[1..])
  }

  function Content(t: Tlv): bytes {
    if t.Leaf? then t.content else EncAll(t.kids)
  }

  /** Every length in the tree fits its two length octets. */
  predicate Small(t: Tlv)
    decreases t
  {
    |Content(t)| < TWO16 && (t.Node? ==> SmallAll(t.kids))
  }

  predicate SmallAll(ts: seq<Tlv>)
    decreases ts
  {
    ts == [] || (Small(ts[0]) && SmallAll(ts[1..]))
  }

  lemma {:induction false} EncAllConcat(a: seq<Tlv>, b: seq<Tlv>)
    ensures EncAll(a + b) == EncAll(a) + EncAll(b)
  {
    if a == [] {
      assert a + b == b;
    } else {
      assert (a + b)[1..] == a[1..] + b;
      EncAllConcat(a[1..], b);
    }
  }

  lemma EncTwo(a: Tlv, b: Tlv)
    ensures EncAll([a, b]) == Enc(a) + Enc(b)
  {
    assert [a, b][1..] == [b] && [b][1..] == [];
    assert EncAll([b]) == Enc(b) + EncAll([]);
  }

  lemma EncThree(a: Tlv, b: Tlv, c: Tlv)
    ensures EncAll([a, b, c]) == Enc(a) + (Enc(b) + Enc(c))
  {
    assert [a, b, c][1..] == [b, c];
    EncTwo(b, c);
  }

  lemma EncFour(a: Tlv, b: Tlv, c: Tlv, d: Tlv)
    ensures EncAll([a, b, c, d]) == Enc(a) + (Enc(b) + (Enc(c) + Enc(d)))
  {
    assert [a, b, c, d][1..] == [b, c, d];
    EncThree(b, c, d);
  }

  function IntLeaf(v: int): Tlv { Leaf(INTEGER, BigEndian(U32(v), 4)) }

  // ------------------------------------------------------- writer head-room

  /** The highest cursor position, relative to the start, that the scope writer reaches
      while emitting t: an open scope holds four header octets until it is closed. */
  function Peak(t: Tlv): nat
    decreases t
  {
    match t
    case Leaf(_, _) => |Enc(t)|
    case Node(_, kids) => 4 + PeakAll(kids)
  }

  function PeakAll(ts: seq<Tlv>): nat
    decreases ts
  {
    if ts == [] then 0 else Max(Peak(ts[0]), |Enc(ts[0])| + PeakAll(ts[1..]))
  }

  function Depth(t: Tlv): nat
    decreases t
  {
    match t
    case Leaf(_, _) => 0
    case Node(_, kids) => 1 + DepthAll(kids)
  }

  function DepthAll(ts: seq<Tlv>): nat
    decreases ts
  {
    if ts == [] then 0 else Max(Depth(ts[0]), DepthAll(ts[1..]))
  }

  /** Scope writing costs at least the encoding and at most two spare octets a level. */
  lemma {:induction false} PeakBounds(t: Tlv)
    ensures |Enc(t)| <= Peak(t) <= |Enc(t)| + 2 * Depth(t)
    decreases t
  {
    if t.Node? { PeakAllBounds(t.kids); }
  }

  lemma {:induction false} PeakAllBounds(ts: seq<Tlv>)
    ensures |EncAll(ts)| <= PeakAll(ts) <= |EncAll(ts)| + 2 * DepthAll(ts)
    decreases ts
  {
    if ts != [] {
      PeakBounds(ts[0]);
      PeakAllBounds(ts[1..]);
    }
  }

  // ----------------------------------------------------------------- reading

  /** Result of decoding a length field: octets used and the length. */
  datatype Length = Length(used: nat, value: nat)

  /** The number in the n octets after the first length octet of the TLV s. */
  function Spelled(s: bytes, n: nat): nat
    requires n <= 4 && n + 2 <= |s|
  {
    if n == 0 then 0
    else if n == 1 then s[2] as int
    else if n == 2 then s[2] as int * 0x100 + s[3]
    else if n == 3 then s[2] as int * 0x1_0000 + s[3] as int * 0x100 + s[4]
    else s[2] as int * 0x100_0000 + s[3] as int * 0x1_0000 + s[4] as int * 0x100 + s[5]
  }

  /** The length field of the TLV s. Indefinite form, more than four length octets,
      a field running off the window and lengths of 2^31 or more are refused. */
  function DecodeLength(s: bytes): (r: Option<Length>)
    requires |s| >= 2
    ensures r.Some? ==> 1 <= r.value.used < |s| && r.value.used <= 5 && r.value.value < TWO31
  {
    if s[1] < 0x80 then Some(Length(1, s[1]))
    else
      var n := s[1] - 0x80;
      if n == 0 || n >= |s| - 1 || n > 4 then None
      else if S32(Spelled(s, n)) < 0 then None
      else Some(Length(n + 1, S32(Spelled(s, n))))
  }

  datatype View = View(tag: byte, headerLen: nat, len: nat)
  {
    function Total(): nat { headerLen + len }

    /** The contents of the TLV at the front of s. */
    function Of(s: bytes): bytes
      requires Total() <= |s|
    {
      s[headerLen..headerLen + len]
    }

    function After(s: bytes): bytes
      requires Total() <= |s|
    {
      s[headerLen + len..]
    }
  }

  /** One TLV at the front of the window s. */
  function Peek(s: bytes): (r: Option<View>)
    ensures r.Some? ==> 2 <= r.value.headerLen <= 6 && r.value.Total() <= |s| && r.value.tag == s[0]
  {
    if |s| < 2 then None
    else
      match DecodeLength(s)
      case None => None
      case Some(l) =>
        if l.used + 1 + l.value > |s| then None else Some(View(s[0], l.used + 1, l.value))
  }

  lemma LengthFaithful(tag: byte, n: nat, rest: bytes)
    ensures DecodeLength([tag] + LenBytes(n) + rest) == Some(Length(|LenBytes(n)|, n)) <==> n < TWO16
    ensures DecodeLength([tag] + LenBytes(n) + rest).Some?
  {
    ModSplit(n, 256);
  }

  /** Reading back one encoded TLV whatever follows it. */
  lemma PeekWrap(tag: byte, c: bytes, rest: bytes)
    requires |c| < TWO16
    ensures var s := Wrap(tag, c) + rest;
            && Peek(s) == Some(View(tag, 1 + |LenBytes(|c|)|, |c|))
            && Peek(s).value.Of(s) == c && Peek(s).value.After(s) == rest
  {
    var s := Wrap(tag, c) + rest;
    assert s == [tag] + LenBytes(|c|) + (c + rest);
    LengthFaithful(tag, |c|, c + rest);
  }

  /** The same when nothing follows. */
  lemma PeekWhole(tag: byte, c: bytes)
    requires |c| < TWO16
    ensures var s := Wrap(tag, c);
            && Peek(s) == Some(View(tag, 1 + |LenBytes(|c|)|, |c|)) && Peek(s).value.Total() == |s|
            && Peek(s).value.Of(s) == c && Peek(s).value.After(s) == []
  {
    hide Peek;
    assert Wrap(tag, c) == Wrap(tag, c) + [];
    PeekWrap(tag, c, []);
  }

  /** A TLV is recognised from its own octets: anything may follow. */
  lemma PeekLocal(s: bytes, t: bytes)
    requires Peek(s).Some?
    requires var n := Peek(s).value.Total(); n <= |t| && t[..n] == s[..n]
    ensures Peek(t) == Peek(s)
  {
    hide DecodeLength;
    LengthLocal(s, t, Peek(s).value.Total());
  }

  lemma LengthLocal(s: bytes, t: bytes, n: nat)
    requires |s| >= 2 && DecodeLength(s).Some? && DecodeLength(s).value.used < n <= |s| && n <= |t| && t[..n] == s[..n]
    ensures s[0] == t[0] && DecodeLength(t) == DecodeLength(s)
  {
    hide S32;
    forall i | 0 <= i < n ensures s[i] == t[i] { assert s[i] == s[..n][i] == t[..n][i]; }
    if s[1] >= 0x80 { assert Spelled(t, s[1] - 0x80) == Spelled(s, s[1] - 0x80); }
  }

  /** No proper prefix of a TLV is accepted. */
  lemma PeekNeedsAll(s: bytes, k: nat)
    requires Peek(s).Some? && k < Peek(s).value.Total()
    ensures Peek(s[..k]).None?
  {
    if Peek(s[..k]).Some? {
      PeekLocal(s[..k], s);
    }
  }
}
