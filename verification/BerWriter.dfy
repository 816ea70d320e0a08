/** The cursor writer of BERView.h: bounds-checked puts with a sticky failure flag, and
    scopes that reserve a four-octet header, backfill the length and slide the content
    left over the octets the shorter length form does not need. */
module Writer {
  import opened Bytes
  import opened Ber

  datatype Marker = Marker(pos: nat, tag: byte, headerLen: nat)

  class BerWriter {
    const base: array<byte>
    const cap: nat
    var pos: nat
    var failed: bool

    ghost predicate Valid()
      reads this
    {
      pos <= cap <= base.Length
    }

    ghost function Written(): bytes
      requires Valid()
      reads this, base
    {
      base[..pos]
    }

    /** What lies at and beyond the capacity: no operation changes it. */
    ghost function Beyond(): bytes
      requires Valid()
      reads this, base
    {
      base[cap..]
    }

    constructor (buf: array<byte>, cap: nat)
      requires cap <= buf.Length
      ensures Valid() && base == buf && this.cap == cap && pos == 0 && !failed
    {
      base, this.cap, pos, failed := buf, cap, 0, false;
    }

    method PutByte(b: byte) returns (ok: bool)
      requires Valid()
      modifies this, base
      ensures Valid() && failed == !ok && Beyond() == old(Beyond())
      ensures ok == (!old(failed) && old(pos) + 1 <= cap)
      ensures Written() == old(Written()) + if ok then [b] else []
    {
      if failed { return false; }
      if pos + 1 > cap { failed := true; return false; }
      base[pos] := b;
      pos := pos + 1;
      return true;
    }

    method PutBytes(d: bytes) returns (ok: bool)
      requires Valid()
      modifies this, base
      ensures Valid() && failed == !ok && Beyond() == old(Beyond())
      ensures ok == (!old(failed) && old(pos) + |d| <= cap)
      ensures Written() == old(Written()) + if ok then d else []
    {
      if failed { return false; }
      if pos + |d| > cap { failed := true; return false; }
      forall i | 0 <= i < |d| { base[pos + i] := d[i]; }
      pos := pos + |d|;
      return true;
    }

    method PutTLVHeader(tag: byte, contentLen: nat) returns (ok: bool)
      requires Valid()
      modifies this, base
      ensures Valid() && failed == !ok && Beyond() == old(Beyond())
      ensures ok == (!old(failed) && contentLen < TWO16 && old(pos) + 1 + |LenBytes(contentLen)| <= cap)
      ensures ok ==> Written() == old(Written()) + ([tag] + LenBytes(contentLen))
      ensures old(failed) ==> Written() == old(Written())
      ensures !old(failed) && contentLen >= TWO16 ==>
                Written() == old(Written()) + if old(pos) + 1 <= cap then [tag] else []
      ensures old(Written()) <= Written()
    {
      hide LenBytes;
      ghost var w := Written();
      ok := PutByte(tag);
      if !ok { return; }
      ok := PutLength(contentLen);
      Assoc(w, [tag], LenBytes(contentLen));
    }

    /** The three forms of the length octets. */
    method PutLength(contentLen: nat) returns (ok: bool)
      requires Valid() && !failed
      modifies this, base
      ensures Valid() && failed == !ok && Beyond() == old(Beyond())
      ensures ok == (contentLen < TWO16 && old(pos) + |LenBytes(contentLen)| <= cap)
      ensures ok ==> Written() == old(Written()) + LenBytes(contentLen)
      ensures contentLen >= TWO16 ==> Written() == old(Written())
      ensures old(Written()) <= Written()
    {
      if contentLen < 0x80 {
        ok := PutByte(contentLen);
      } else if contentLen < 0x100 {
        ok := PutInTurn([0x81, contentLen]);
      } else if contentLen < 0x10000 {
        ok := PutInTurn([0x82, contentLen / 256 % 256, contentLen % 256]);
      } else {
        failed := true;
        ok := false;
      }
    }

    /** Octets put one by one, up to the first that does not fit. */
    method PutInTurn(d: bytes) returns (ok: bool)
      requires Valid() && !failed
      modifies this, base
      ensures Valid() && failed == !ok && Beyond() == old(Beyond())
      ensures ok == (old(pos) + |d| <= cap)
      ensures ok ==> Written() == old(Written()) + d
      ensures old(Written()) <= Written()
      decreases |d|
    {
      ghost var w := Written();
      if d == [] {
        assert w + d == w;
        return true;
      }
      ok := PutByte(d[0]);
      if !ok { return; }
      ok := PutInTurn(d[1..]);
      assert w + [d[0]] + d[1..] == w + d;
      Longer(w, [d[0]], Written());
    }

    /** Succeeds exactly when the whole TLV fits. A failing call writes nothing when the
        content is shorter than 128 octets. From 128 on its room test is one octet short,
        so the header of a TLV that is one octet too long stays behind. From 65536 on there
        is no length form, and the tag stays behind if the room test passes. */
    method PutTLV(tag: byte, content: bytes) returns (ok: bool)
      requires Valid()
      modifies this, base
      ensures Valid() && failed == !ok && Beyond() == old(Beyond())
      ensures ok == (!old(failed) && |content| < TWO16 && old(pos) + |Wrap(tag, content)| <= cap)
      ensures ok ==> Written() == old(Written()) + Wrap(tag, content)
      ensures !ok && |content| < TWO16 ==>
                Written() == old(Written()) +
                if !old(failed) && |content| >= 0x80 && old(pos) + |Wrap(tag, content)| == cap + 1
                then [tag] + LenBytes(|content|) else []
      ensures !ok && |content| >= TWO16 ==>
                Written() == old(Written()) + if !old(failed) && old(pos) + 4 + |content| <= cap then [tag] else []
    {
      if failed { return false; }
      var headerLen := 2 + (if |content| >= 0x100 then 1 else 0) + (if |content| >= 0x10000 then 1 else 0);
      if pos + headerLen + |content| > cap { failed := true; return false; }
      ok := PutTLVHeader(tag, |content|);
      if ok { ok := PutBytes(content); }
    }

    /** INTEGER always takes four content octets. */
    method PutInteger(v: int) returns (ok: bool)
      requires Valid()
      modifies this, base
      ensures Valid() && failed == !ok && Beyond() == old(Beyond())
      ensures ok == (!old(failed) && old(pos) + 6 <= cap)
      ensures ok ==> Written() == old(Written()) + Enc(IntLeaf(v))
      ensures !ok ==> old(Written()) <= Written()
    {
      ghost var w := Written();
      ok := PutTLVHeader(0x02, 4);
      if !ok { return; }
      ghost var header := Written();
      FourOctets(v);
      ok := PutInTurn([U32(v) / 0x100_0000, U32(v) / 0x1_0000 % 256, U32(v) / 0x100 % 256, U32(v) % 256]);
      Longer(w, [0x02] + LenBytes(4), Written());
      Assoc(w, [0x02] + LenBytes(4), BigEndian(U32(v), 4));
    }

    method PutNull(tag: byte) returns (ok: bool)
      requires Valid()
      modifies this, base
      ensures Valid() && failed == !ok && Beyond() == old(Beyond())
      ensures ok == (!old(failed) && old(pos) + 2 <= cap)
      ensures ok ==> Written() == old(Written()) + Enc(Leaf(tag, []))
      ensures !ok ==> old(Written()) <= Written()
    {
      ok := PutTLVHeader(tag, 0);
    }

    method BeginScope(tag: byte) returns (ok: bool, m: Marker)
      requires Valid()
      modifies this, base
      ensures Valid() && failed == !ok && Beyond() == old(Beyond())
      ensures ok == (!old(failed) && old(pos) + 4 <= cap)
      ensures Written() == old(Written()) + if ok then [tag, 0x82, 0, 0] else []
      ensures ok ==> m == Marker(old(pos), tag, 4)
    {
      m := Marker(pos, tag, 4);
      if failed { return false, m; }
      if pos + 4 > cap { failed := true; return false, m; }
      base[pos] := tag;
      base[pos + 1] := 0x82;
      base[pos + 2] := 0;
      base[pos + 3] := 0;
      pos := pos + 4;
      return true, m;
    }

    /** The octets up to the marker stay (so enclosing markers still hold); from the marker on
        there is now the finished TLV. */
    method EndScope(m: Marker) returns (ok: bool)
      requires Valid()
      requires !failed ==> m.headerLen == 4 && m.pos + 4 <= pos && base[m.pos] == m.tag
      modifies this, base
      ensures Valid() && failed == !ok && Beyond() == old(Beyond())
      ensures ok == !old(failed)
      ensures !ok ==> Written() == old(Written())
      ensures ok ==> Written() == old(Written())[..m.pos] + Wrap(m.tag, old(Written())[m.pos + 4..])
    {
      hide LenBytes, Wrap;
      if failed { return false; }
      ghost var w := Written();
      var contentLen := pos - m.pos - m.headerLen;
      CloseUp(m, contentLen);
      ScopeClosed(Written(), w, m);
      return true;
    }

    /** The length octets over the placeholder, the content right behind them. */
    method CloseUp(m: Marker, contentLen: nat)
      requires Valid() && m.headerLen == 4 && m.pos + 4 + contentLen == pos
      modifies this, base
      ensures Valid() && failed == old(failed) && Beyond() == old(Beyond())
      ensures Written() == old(Written())[..m.pos + 1] + LenBytes(contentLen) + old(Written())[m.pos + 4..]
    {
      hide LenBytes;
      ghost var w := Written();
      var lenBytes := Backfill(m, contentLen);
      InParts(base, m.pos + 1, m.pos + 1 + lenBytes, m.pos + 4, pos);
      assert w[..m.pos + 1] == base[..m.pos + 1] && w[m.pos + 4..] == base[m.pos + 4..pos];
      if lenBytes < m.headerLen - 1 { Slide(m, lenBytes, contentLen); }
    }

    method Slide(m: Marker, lenBytes: nat, contentLen: nat)
      requires Valid() && m.headerLen == 4 && lenBytes < 3 && m.pos + 4 + contentLen == pos
      modifies this, base
      ensures Valid() && failed == old(failed) && Beyond() == old(Beyond())
      ensures Written() == old(Written())[..m.pos + 1 + lenBytes] + old(Written())[m.pos + 4..]
    {
      ghost var w := Written();
      var k := m.pos + 1 + lenBytes;
      MoveLeft(base, m.pos + m.headerLen, m.headerLen - 1 - lenBytes, contentLen);
      pos := pos - (m.headerLen - 1 - lenBytes);
      assert w[..k] == old(base[..k]) && w[m.pos + 4..] == old(base[m.pos + 4..m.pos + 4 + contentLen]);
      assert Written() == base[..k] + base[k..k + contentLen];
    }

    /** Writes the length octets of a scope over its placeholder. */
    method Backfill(m: Marker, contentLen: nat) returns (lenBytes: nat)
      requires Valid() && m.pos + 4 <= pos
      modifies base
      ensures lenBytes == |LenBytes(contentLen)|
      ensures base[m.pos + 1..m.pos + 1 + lenBytes] == LenBytes(contentLen)
      ensures base[..m.pos + 1] == old(base[..m.pos + 1]) && base[m.pos + 4..] == old(base[m.pos + 4..])
    {
      if contentLen < 0x80 {
        base[m.pos + 1] := contentLen;
        lenBytes := 1;
      } else if contentLen < 0x100 {
        base[m.pos + 1] := 0x81;
        base[m.pos + 2] := contentLen;
        lenBytes := 2;
      } else {
        base[m.pos + 1] := 0x82;
        base[m.pos + 2] := contentLen / 256 % 256;
        base[m.pos + 3] := contentLen % 256;
        lenBytes := 3;
      }
    }

    /** Any properly nested use of the writer. It leaves exactly the encoding of the tree after
        what was there, and it succeeds exactly when the peak of the tree fits. */
    method WriteTree(t: Tlv) returns (ok: bool)
      requires Valid() && LeavesSmall(t)
      modifies this, base
      ensures Valid() && failed == !ok && Beyond() == old(Beyond())
      ensures ok == (!old(failed) && old(pos) + Peak(t) <= cap)
      ensures ok ==> Written() == old(Written()) + Enc(t)
      decreases t, 1
    {
      match t
      case Leaf(tag, content) =>
        ok := PutTLV(tag, content);
      case Node(tag, kids) =>
        ghost var w := Written();
        var m;
        ok, m := BeginScope(tag);
        if ok { ok := WriteTrees(t, kids); }
        if ok {
          OpenScope(w, tag, EncAll(kids));
          ok := EndScope(m);
        }
    }

    method WriteTrees(ghost parent: Tlv, ts: seq<Tlv>) returns (ok: bool)
      requires Valid() && LeavesSmallAll(ts)
      requires forall i :: 0 <= i < |ts| ==> ts[i] < parent
      modifies this, base
      ensures Valid() && failed == !ok && Beyond() == old(Beyond())
      ensures ok == (!old(failed) && old(pos) + PeakAll(ts) <= cap)
      ensures ok ==> Written() == old(Written()) + EncAll(ts)
      decreases parent, 0, |ts|
    {
      if ts == [] { return !failed; }
      PeakBounds(ts[0]);
      ghost var w := Written();
      ok := WriteTree(ts[0]);
      if ok { ok := WriteTrees(parent, ts[1..]); }
      Assoc(w, Enc(ts[0]), EncAll(ts[1..]));
    }
  }

  /** memmove of n octets at src, gap octets to the left. */
  method MoveLeft(a: array<byte>, src: nat, gap: nat, n: nat)
    requires gap <= src && src + n <= a.Length
    modifies a
    ensures a[src - gap..src - gap + n] == old(a[src..src + n])
    ensures a[..src - gap] == old(a[..src - gap]) && a[src - gap + n..] == old(a[src - gap + n..])
  {
    forall j | src - gap <= j < src - gap + n { a[j] := a[j + gap]; }
  }

  lemma Longer(w: bytes, d: bytes, r: bytes)
    requires w + d <= r
    ensures w <= r
  {
    assert r[..|w|] == r[..|w + d|][..|w|] == w;
  }

  /** A stretch of the buffer from 0 to d, taken apart at a, b and c. */
  lemma InParts(base: array<byte>, a: nat, b: nat, c: nat, d: nat)
    requires a <= b <= c <= d <= base.Length
    ensures base[..d] == base[..c] + base[c..d] && base[..b] == base[..a] + base[a..b]
    ensures base[..d][..b] == base[..b] && base[..d][c..] == base[c..d] && (b == c ==> base[..c] == base[..b])
  {}

  /** The three parts of what is written while a scope is open. */
  lemma OpenScope(w: bytes, tag: byte, c: bytes)
    ensures var s := w + [tag, 0x82, 0, 0] + c;
            s[|w|] == tag && s[..|w|] == w && s[|w| + 4..] == c
  {}

  lemma ScopeClosed(r: bytes, w: bytes, m: Marker)
    requires m.pos + 4 <= |w| && w[m.pos] == m.tag
    requires r == w[..m.pos + 1] + LenBytes(|w| - m.pos - 4) + w[m.pos + 4..]
    ensures r == w[..m.pos] + Wrap(m.tag, w[m.pos + 4..])
  {
    hide LenBytes;
    assert w[..m.pos + 1] == w[..m.pos] + [m.tag];
  }

  predicate LeavesSmall(t: Tlv)
    decreases t
  {
    match t
    case Leaf(_, c) => |c| < TWO16
    case Node(_, kids) => LeavesSmallAll(kids)
  }

  predicate LeavesSmallAll(ts: seq<Tlv>)
    decreases ts
  {
    ts == [] || (LeavesSmall(ts[0]) && LeavesSmallAll(ts[1..]))
  }

  lemma FourOctets(v: int)
    ensures BigEndian(U32(v), 4) ==
            [U32(v) / 0x100_0000, U32(v) / 0x1_0000 % 256, U32(v) / 0x100 % 256, U32(v) % 256]
  {
    var u: nat := U32(v);
    assert BigEndian(u, 4) == BigEndian(u / 256, 3) + [u % 256];
    assert BigEndian(u / 256, 3) == BigEndian(u / 256 / 256, 2) + [u / 256 % 256];
    assert BigEndian(u / 256 / 256, 2) == BigEndian(u / 256 / 256 / 256, 1) + [u / 256 / 256 % 256];
    assert BigEndian(u / 256 / 256 / 256, 1) == [] + [u / 256 / 256 / 256 % 256];
  }
}
