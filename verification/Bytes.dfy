/** Octets, 32-bit integers and the size macros of defs.h. */
module Bytes {
  type byte = b: int | 0 <= b < 256
  type bytes = seq<byte>

  datatype Option<+T> = None | Some(value: T)

  const TWO16: int := 0x1_0000
  const TWO31: int := 0x8000_0000
  const TWO32: int := 0x1_0000_0000
  const TWO64: int := 0x1_0000_0000_0000_0000

  function Max(a: int, b: int): int { if a < b then b else a }

  predicate Is32(v: int) { -TWO31 <= v < TWO31 }

  /** The low 32 bits of v as an unsigned number. */
  function U32(v: int): int { v % TWO32 }

  /** The low 32 bits of v read as a two's complement number. */
  function S32(v: int): int {
    if v % TWO32 < TWO31 then v % TWO32 else v % TWO32 - TWO32
  }

  /** One more octet shifted into a 32-bit accumulator. */
  lemma ShiftIn(x: int, y: int, b: byte)
    requires U32(x) == U32(y)
    ensures U32(x * 256 + b) == U32(y * 256 + b) && U32(S32(x)) == U32(x)
  {
    var k := x / TWO32 - y / TWO32;
    assert x == y + k * TWO32;
    assert x * 256 + b == y * 256 + b + (k * 256) * TWO32;
    SameMod(y * 256 + b, k * 256, TWO32);
  }

  lemma SameMod(a: int, k: int, m: nat)
    requires m > 0
    ensures (a + k * m) % m == a % m
  {
    var q, r := a / m, a % m;
    assert a == m * q + r;
    assert m * (q + k) == m * q + k * m;
    DivUnique(a + k * m, m, q + k, r);
  }

  lemma SubSub(s: bytes, a: nat, b: nat, c: nat, d: nat)
    requires a <= b <= |s| && c <= d <= b - a
    ensures s[a..b][c..d] == s[a + c..a + d]
  {
    var x, y := s[a..b][c..d], s[a + c..a + d];
    forall i | 0 <= i < d - c ensures x[i] == y[i] {
      assert x[i] == s[a..b][c + i] == s[a + (c + i)];
    }
  }

  lemma NumberNone(s: bytes)
    ensures Number(s[..0]) == 0
  {}

  lemma NumberStep(s: bytes, k: nat)
    requires k < |s|
    ensures Number(s[..k + 1]) == Number(s[..k]) * 256 + s[k]
  {
    assert s[..k + 1][..k] == s[..k];
  }

  /** n octets of v, most significant first. */
  function BigEndian(v: nat, n: nat): (s: bytes)
    ensures |s| == n
  {
    if n == 0 then [] else BigEndian(v / 256, n - 1) + [v % 256]
  }

  /** The number an octet string spells, most significant octet first. */
  function Number(s: bytes): nat {
    if s == [] then 0 else Number(s[..|s| - 1]) * 256 + s[|s| - 1]
  }

  function Pow256(n: nat): nat { if n == 0 then 1 else 256 * Pow256(n - 1) }

  lemma {:induction false} NumberOfBigEndian(v: nat, n: nat)
    ensures Pow256(n) > 0
    ensures Number(BigEndian(v, n)) == v % Pow256(n)
  {
    if n == 0 {
    } else {
      NumberOfBigEndian(v / 256, n - 1);
      var s := BigEndian(v, n);
      assert s[..n - 1] == BigEndian(v / 256, n - 1);
      ModSplit(v, Pow256(n - 1));
    }
  }

  lemma ModSplit(v: nat, p: nat)
    requires p > 0
    ensures v % (256 * p) == (v / 256) % p * 256 + v % 256
  {
    var q, r := v / 256, v % 256;
    var a, b := q / p, q % p;
    assert q == a * p + b;
    assert v == (256 * p) * a + (b * 256 + r) by {
      assert v == q * 256 + r;
      assert (a * p) * 256 == (256 * p) * a;
    }
    assert b * 256 + r < 256 * p by { assert b <= p - 1; assert b * 256 <= (p - 1) * 256; }
    DivUnique(v, 256 * p, a, b * 256 + r);
  }

  lemma DivUnique(v: int, d: nat, a: int, r: nat)
    requires 0 <= r < d && v == d * a + r
    ensures v / d == a && v % d == r
  {
    var x := v / d - a;
    assert d * x == r - v % d by { assert v == d * (v / d) + v % d; }
    assert x > 0 ==> d * x >= d;
    assert x < 0 ==> d * x + d <= 0;
  }

  lemma {:induction false} NumberBound(s: bytes)
    ensures Number(s) < Pow256(|s|)
  {
    if s != [] { NumberBound(s[..|s| - 1]); }
  }

  lemma Assoc(a: bytes, b: bytes, c: bytes)
    ensures a + b + c == a + (b + c)
  {}

  /** The octets before the first NUL: what a C string function sees. */
  function CStr(s: bytes): (r: bytes)
    ensures 0 !in r && r <= s
    ensures |r| < |s| ==> s[|r|] == 0
  {
    if s == [] || s[0] == 0 then [] else [s[0]] + CStr(s[1..])
  }

  // ------------------------------------------------ loops that build a list

  /** A loop computes whole: what it has done so far, then what is left; None is failure. */
  predicate Continues<T(==)>(whole: Option<seq<T>>, done: seq<T>, left: Option<seq<T>>) {
    whole == if left.None? then None else Some(done + left.value)
  }

  lemma ContinuesStart<T>(whole: Option<seq<T>>)
    ensures Continues(whole, [], whole)
  {
    if whole.Some? { assert [] + whole.value == whole.value; }
  }

  lemma ContinuesEnd<T>(whole: Option<seq<T>>, done: seq<T>)
    ensures Continues(whole, done, Some([])) ==> whole == Some(done)
  {
    assert done + [] == done;
  }

  lemma ContinuesNone<T>(whole: Option<seq<T>>, done: seq<T>)
    ensures Continues(whole, done, None) ==> whole == None
  {}

  lemma ContinuesStep<T>(whole: Option<seq<T>>, done: seq<T>, more: seq<T>, left: Option<seq<T>>, next: Option<seq<T>>)
    requires Continues(whole, done, left)
    requires left == if next.None? then None else Some(more + next.value)
    ensures Continues(whole, done + more, next)
  {
    if next.Some? { assert done + (more + next.value) == done + more + next.value; }
  }
}
