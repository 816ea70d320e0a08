/** Object identifiers: base-128 arcs (X.690 section 8.19), the encoder and both decoders of the
    library, and the order sort_oids puts on encoded names. */
module Oids {
  import opened Bytes
  import opened Caps

  // ------------------------------------------------------------- the octets

  /** All octets of an arc but the last: seven bits each, top bit set. */
  function HighOctets(n: nat): bytes {
    if n < 128 then [] else HighOctets(n / 128) + [0x80 + n / 128 % 128]
  }

  function EncArc(n: nat): (s: bytes)
    ensures s != [] && s[|s| - 1] < 128
  {
    HighOctets(n) + [n % 128]
  }

  function EncArcs(a: seq<nat>): bytes {
    if a == [] then [] else EncArc(a[0]) + EncArcs(a[1..])
  }

  /** Every arc is complete: an arc ends at an octet below 128. */
  predicate Terminated(d: bytes) { d == [] || d[|d| - 1] < 128 }

  /** The first arc of d continuing from acc, and the octets it takes. */
  function TakeArc(d: bytes, acc: nat): (r: (nat, nat))
    requires d != [] && Terminated(d)
    ensures 1 <= r.1 <= |d| && r.0 >= acc
  {
    if d[0] < 128 then (acc * 128 + d[0], 1)
    else
      var (v, u) := TakeArc(d[1..], acc * 128 + (d[0] - 128));
      (v, u + 1)
  }

  function Arcs(d: bytes): seq<nat>
    requires Terminated(d)
    decreases |d|
  {
    if d == [] then []
    else
      var (v, u) := TakeArc(d, 0);
      [v] + Arcs(d[u..])
  }

  /** What generateInternalData produces: the shortest form of each arc. */
  predicate Canonical(d: bytes) { d != [] && Terminated(d) && EncArcs(Arcs(d)) == d }

  lemma TakeStep(x: byte, t: bytes, acc: nat)
    requires x >= 128 && t != [] && Terminated(t)
    ensures var (v, u) := TakeArc(t, acc * 128 + (x - 128)); TakeArc([x] + t, acc) == (v, u + 1)
  {
    assert ([x] + t)[1..] == t;
  }

  lemma {:induction false} TakeHigh(n: nat, t: bytes)
    requires t != [] && Terminated(t)
    ensures var (v, u) := TakeArc(t, n / 128); TakeArc(HighOctets(n) + t, 0) == (v, u + |HighOctets(n)|)
  {
    hide TakeArc;
    if n < 128 {
      assert [] + t == t && n / 128 == 0;
    } else {
      var m := n / 128;
      var x: byte := 0x80 + m % 128;
      TakeHigh(m, [x] + t);
      TakeStep(x, t, m / 128);
      assert m / 128 * 128 + (x - 0x80) == m;
      assert HighOctets(n) + t == HighOctets(m) + ([x] + t);
    }
  }

  /** An encoded arc decodes to itself and takes exactly its own octets. */
  lemma ArcRoundTrip(n: nat, rest: bytes)
    requires Terminated(rest)
    ensures Terminated(EncArc(n) + rest)
    ensures TakeArc(EncArc(n) + rest, 0) == (n, |EncArc(n)|)
  {
    var t := [n % 128] + rest;
    TakeHigh(n, t);
    assert HighOctets(n) + t == EncArc(n) + rest;
    assert n / 128 * 128 + n % 128 == n;
  }

  lemma {:induction false} EncArcsTerminated(a: seq<nat>)
    ensures Terminated(EncArcs(a)) && (a != [] ==> EncArcs(a) != [])
  {
    if a != [] { EncArcsTerminated(a[1..]); }
  }

  lemma {:induction false} ArcsRoundTrip(a: seq<nat>)
    ensures Terminated(EncArcs(a)) && Arcs(EncArcs(a)) == a
  {
    EncArcsTerminated(a);
    if a != [] {
      var rest := EncArcs(a[1..]);
      EncArcsTerminated(a[1..]);
      ArcRoundTrip(a[0], rest);
      assert EncArcs(a)[|EncArc(a[0])|..] == rest;
      ArcsRoundTrip(a[1..]);
    }
  }

  lemma {:induction false} EncArcsConcat(a: seq<nat>, b: seq<nat>)
    ensures EncArcs(a + b) == EncArcs(a) + EncArcs(b)
  {
    if a == [] {
      assert a + b == b;
    } else {
      assert (a + b)[1..] == a[1..] + b;
      EncArcsConcat(a[1..], b);
    }
  }

  /** Byte prefix and arc prefix are the same relation on encoded names. */
  lemma {:induction false} PrefixAgrees(a: seq<nat>, b: seq<nat>)
    ensures EncArcs(a) <= EncArcs(b) <==> a <= b
    ensures EncArcs(a) == EncArcs(b) <==> a == b
  {
    if a <= b {
      EncArcsConcat(a, b[|a|..]);
      assert b == a + b[|a|..];
    }
    if EncArcs(a) <= EncArcs(b) { PrefixDown(a, b); }
    ArcsRoundTrip(a);
    ArcsRoundTrip(b);
  }

  /** The first arc of an encoding, and what follows it, are determined by the octets. */
  lemma FirstArc(n: nat, rest: bytes, m: nat, rest': bytes)
    requires EncArc(n) + rest == EncArc(m) + rest' && Terminated(rest) && Terminated(rest')
    ensures n == m && rest == rest'
  {
    hide EncArc, TakeArc;
    ArcRoundTrip(n, rest);
    ArcRoundTrip(m, rest');
    assert (EncArc(n) + rest)[|EncArc(n)|..] == rest && (EncArc(m) + rest')[|EncArc(m)|..] == rest';
  }

  lemma {:induction false} PrefixDown(a: seq<nat>, b: seq<nat>)
    requires EncArcs(a) <= EncArcs(b)
    ensures a <= b
  {
    hide EncArc, Terminated;
    if a != [] {
      EncArcsTerminated(a);
      EncArcsTerminated(b);
      EncArcsTerminated(b[1..]);
      var e, x, y := EncArc(a[0]), EncArcs(a[1..]), EncArcs(b);
      var tail := x + y[|e + x|..];
      assert y == e + tail by { assert y == (e + x) + y[|e + x|..]; }
      TailTerminated(e, tail);
      FirstArc(a[0], tail, b[0], EncArcs(b[1..]));
      PrefixDown(a[1..], b[1..]);
    }
  }

  lemma TailTerminated(e: bytes, tail: bytes)
    requires Terminated(e + tail)
    ensures Terminated(tail)
  {}

  // ------------------------------------------------------ the C++ functions

  /** recurse_longform */
  method RecurseLongform(n: nat, buf: array<byte>) returns (stuff: nat)
    requires |HighOctets(n)| <= buf.Length
    modifies buf
    ensures stuff == |HighOctets(n)| && buf[..stuff] == HighOctets(n)
  {
    if n < 128 { return 0; }
    stuff := RecurseLongform(n / 128, buf);
    ghost var done := buf[..stuff];
    // (n / 128 | 0x80) & 0xFF
    buf[stuff] := 0x80 + n / 128 % 128;
    assert buf[..stuff] == done;
    stuff := stuff + 1;
  }

  /** encode_ber_longform_integer */
  method EncodeLongform(buf: array<byte>, n: nat) returns (used: nat)
    requires |EncArc(n)| <= buf.Length
    modifies buf
    ensures used == |EncArc(n)| && buf[..used] == EncArc(n)
  {
    used := RecurseLongform(n, buf);
    ghost var done := buf[..used];
    buf[used] := n % 128;
    assert buf[..used] == done;
    used := used + 1;
  }

  lemma ShortArc(n: nat)
    requires n < TWO31
    ensures |EncArc(n)| <= 5
  {
    var a, b, c, d := n / 128, n / 128 / 128, n / 128 / 128 / 128, n / 128 / 128 / 128 / 128;
    assert d < 128;
    assert |HighOctets(d)| == 0;
    assert |HighOctets(c)| <= 1;
    assert |HighOctets(b)| <= 2;
    assert |HighOctets(a)| <= 3;
  }

  /** generateInternalData from the arcs after 1.3: it fails exactly when the encoding does not
      fit the data buffer. */
  method GenerateData(arcs: seq<nat>) returns (valid: bool, data: bytes)
    requires forall i :: 0 <= i < |arcs| ==> arcs[i] < TWO31
    ensures valid == (|EncArcs([0x2b] + arcs)| <= OID_DATA)
    ensures valid ==> data == EncArcs([0x2b] + arcs)
  {
    var temp := new byte[10](_ => 0);
    data := [0x2b];
    ghost var done: seq<nat> := [0x2b];
    assert EncArcs(done) == EncArc(0x2b) + EncArcs([]) == data;
    var i := 0;
    while i < |arcs|
      invariant 0 <= i <= |arcs| && done == [0x2b] + arcs[..i]
      invariant data == EncArcs(done) && |data| <= OID_DATA
    {
      ShortArc(arcs[i]);
      var used := EncodeLongform(temp, arcs[i]);
      EncArcsConcat(done, [arcs[i]]);
      assert EncArcs([arcs[i]]) == EncArc(arcs[i]) + EncArcs([]);
      if |data| + used > OID_DATA {
        EncArcsConcat(done + [arcs[i]], arcs[i + 1..]);
        assert [0x2b] + arcs == done + [arcs[i]] + arcs[i + 1..];
        return false, data;
      }
      data := data + temp[..used];
      done := done + [arcs[i]];
      i := i + 1;
    }
    assert arcs[..i] == arcs;
    valid := true;
  }

  predicate SmallArcs(d: bytes)
    requires Terminated(d)
  {
    forall i :: 0 <= i < |Arcs(d)| ==> Arcs(d)[i] < TWO31
  }

  /** decode_ber_longform_integer at offset at of d, at most maxLen octets. For arcs below 2^31
      no intermediate value leaves the 32-bit range and the whole arc is consumed. */
  method DecodeLongform(d: bytes, at: nat, maxLen: nat) returns (value: nat, used: nat)
    requires at < |d| && maxLen == |d| - at && Terminated(d[at..])
    requires TakeArc(d[at..], 0).0 < TWO31
    ensures (value, used) == TakeArc(d[at..], 0)
  {
    hide TakeArc;
    var p := at;
    var i := 1;
    var running: nat := 0;
    ghost var acc: nat := 0;
    while d[p] >= 128 && i < maxLen && running < TWO31 - 1
      invariant at <= p < |d| && i == p - at + 1 && running == acc * 128
      invariant Terminated(d[p..])
      invariant TakeArc(d[at..], 0) == (TakeArc(d[p..], acc).0, TakeArc(d[p..], acc).1 + (p - at))
      decreases |d| - p
    {
      TakeFrom(d, p, acc);
      acc := acc * 128 + (d[p] - 128);
      running := running + (d[p] - 128);
      running := running * 128;
      TakesMore(d[p + 1..], acc);
      p := p + 1;
      i := i + 1;
    }
    TakesMore(d[p..], acc);
    TakeFrom(d, p, acc);
    running := running + d[p];
    return running, i;
  }

  lemma {:induction false} TakesMore(d: bytes, acc: nat)
    requires d != [] && Terminated(d)
    ensures TakeArc(d, acc).0 >= acc * 128
  {
    if d[0] >= 128 { TakesMore(d[1..], acc * 128 + (d[0] - 128)); }
  }

  lemma TakeFrom(d: bytes, p: nat, acc: nat)
    requires p < |d| && Terminated(d[p..])
    ensures d[p] < 128 ==> TakeArc(d[p..], acc) == (acc * 128 + d[p], 1)
    ensures d[p] >= 128 ==>
              p + 1 < |d| && Terminated(d[p + 1..])
              && var (v, u) := TakeArc(d[p + 1..], acc * 128 + d[p] % 128); TakeArc(d[p..], acc) == (v, u + 1)
    ensures acc * 128 + d[p] % 128 <= TakeArc(d[p..], acc).0
  {
    assert d[p..][1..] == d[p + 1..];
  }

  /** The inner do-while of sort_oids: reads one arc from the rem octets left. */
  method SubIdentifier(d: bytes, at: nat) returns (sub: nat, next: nat)
    requires at < |d| && Terminated(d[at..]) && TakeArc(d[at..], 0).0 < TWO31
    ensures sub == TakeArc(d[at..], 0).0 && next == at + TakeArc(d[at..], 0).1
  {
    hide TakeArc;
    var p := at;
    sub := 0;
    var more := true;
    while more
      invariant at <= p <= |d| && (more ==> p < |d|)
      invariant more ==> Terminated(d[p..])
      invariant more ==> TakeArc(d[at..], 0) == (TakeArc(d[p..], sub).0, TakeArc(d[p..], sub).1 + (p - at))
      invariant !more ==> sub == TakeArc(d[at..], 0).0 && p == at + TakeArc(d[at..], 0).1
      decreases |d| - p, more
    {
      more := d[p] >= 128;
      // (sub << 7) | (*p & 0x7F) stays below 2^31
      TakeFrom(d, p, sub);
      sub := sub * 128 + d[p] % 128;
      p := p + 1;
    }
    next := p;
  }

  // ------------------------------------------------------------------ order

  predicate LexLess(a: seq<nat>, b: seq<nat>) {
    if b == [] then false
    else if a == [] then true
    else if a[0] != b[0] then a[0] < b[0]
    else LexLess(a[1..], b[1..])
  }

  lemma {:induction false} LexTransitive(a: seq<nat>, b: seq<nat>, c: seq<nat>)
    requires LexLess(a, b) && LexLess(b, c)
    ensures LexLess(a, c)
  {
    if a != [] && a[0] == b[0] == c[0] { LexTransitive(a[1..], b[1..], c[1..]); }
  }

  lemma {:induction false} LexTrichotomy(a: seq<nat>, b: seq<nat>)
    ensures !LexLess(a, a)
    ensures LexLess(a, b) ==> !LexLess(b, a)
    ensures LexLess(a, b) || a == b || LexLess(b, a)
  {
    if a != [] { LexTrichotomy(a[1..], if b == [] then [] else b[1..]); }
  }

  /** An extension comes after its ancestor, and before anything after the ancestor that is not
      itself an extension: descendants are one block right behind their ancestor. */
  lemma {:induction false} LexPrefix(r: seq<nat>, e: seq<nat>, x: seq<nat>)
    requires r < e
    ensures LexLess(r, e)
    ensures LexLess(r, x) && !(r <= x) ==> LexLess(e, x)
    ensures LexLess(x, r) ==> LexLess(x, e)
  {
    if r != [] {
      assert r[1..] < e[1..];
      if x != [] && x[0] == r[0] {
        LexPrefix(r[1..], e[1..], x[1..]);
        if r[1..] <= x[1..] { assert r == [r[0]] + r[1..]; }
      } else {
        LexPrefix(r[1..], e[1..], []);
      }
    }
  }

  /** sort_oids compares the decoded arcs, first to last. An empty name comes after every other. */
  method SortOids(d1: bytes, d2: bytes) returns (less: bool)
    requires Terminated(d1) && Terminated(d2) && SmallArcs(d1) && SmallArcs(d2)
    ensures less == (d1 != [] && (d2 == [] || LexLess(Arcs(d1), Arcs(d2))))
  {
    hide Arcs, LexLess, TakeArc, SmallArcs;
    if |d1| == 0 { return false; }
    if |d2| == 0 { return true; }
    var p1: nat, p2: nat := 0, 0;
    assert d1[0..] == d1 && d2[0..] == d2;
    while p1 < |d1| && p2 < |d2|
      invariant p1 <= |d1| && p2 <= |d2|
      invariant Terminated(d1[p1..]) && Terminated(d2[p2..])
      invariant SmallArcs(d1[p1..]) && SmallArcs(d2[p2..])
      invariant LexLess(Arcs(d1), Arcs(d2)) == LexLess(Arcs(d1[p1..]), Arcs(d2[p2..]))
    {
      ArcsStep(d1, p1);
      ArcsStep(d2, p2);
      LexStep(TakeArc(d1[p1..], 0).0, Arcs(d1[p1 + TakeArc(d1[p1..], 0).1..]),
              TakeArc(d2[p2..], 0).0, Arcs(d2[p2 + TakeArc(d2[p2..], 0).1..]));
      var sub1, sub2;
      sub1, p1 := SubIdentifier(d1, p1);
      sub2, p2 := SubIdentifier(d2, p2);
      if sub1 != sub2 { return sub1 < sub2; }
    }
    LexEnd(d1[p1..], d2[p2..]);
    if p1 < |d1| { return false; }
    if p2 < |d2| { return true; }
    return false;
  }

  lemma LexStep(v: nat, a: seq<nat>, w: nat, b: seq<nat>)
    ensures LexLess([v] + a, [w] + b) == if v != w then v < w else LexLess(a, b)
  {}

  lemma LexEnd(d: bytes, e: bytes)
    requires Terminated(d) && Terminated(e) && (d == [] || e == [])
    ensures LexLess(Arcs(d), Arcs(e)) <==> d == [] && e != []
  {}

  lemma ArcsStep(d: bytes, p: nat)
    requires p < |d| && Terminated(d[p..]) && SmallArcs(d[p..])
    ensures var (v, u) := TakeArc(d[p..], 0);
            && v < TWO31 && p + u <= |d| && Terminated(d[p + u..]) && SmallArcs(d[p + u..])
            && Arcs(d[p..]) == [v] + Arcs(d[p + u..])
  {
    var (v, u) := TakeArc(d[p..], 0);
    assert d[p..][u..] == d[p + u..];
    var a, b := Arcs(d[p..]), Arcs(d[p + u..]);
    assert a == [v] + b;
    assert a[0] == v;
    forall i | 0 <= i < |b| ensures b[i] < TWO31 { assert b[i] == a[i + 1]; }
  }

  /** Plain octet order is not this order. */
  lemma OctetOrderDiffers()
    ensures LexLess([16383], [16384]) && EncArcs([16383])[0] > EncArcs([16384])[0]
  {
    assert HighOctets(16383) == HighOctets(127) + [0xFF];
    assert HighOctets(16384) == HighOctets(128) + [0x80];
    assert HighOctets(128) == HighOctets(1) + [0x81];
    assert EncArc(16383) == [0xFF, 127] && EncArc(16384) == [0x81, 0x80, 0];
    assert EncArcs([16383]) == EncArc(16383) + EncArcs([]);
    assert EncArcs([16384]) == EncArc(16384) + EncArcs([]);
  }
}
