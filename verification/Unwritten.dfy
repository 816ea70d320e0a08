/** A SET of an opaque value shorter than the buffer it goes to copies octets nobody decoded: exactly how far
    the rows and the handlers depend on what the slots of the decoded values held before. */
module Unwritten {
  import opened Bytes
  import opened Ber
  import opened Caps
  import opened Containers
  import opened BerView
  import opened Roster
  import opened Handling
  import opened BulkLaws

  /** The varbind puts an opaque value into the buffer of handler k. */
  predicate Writes(store: seq<Handler>, vb: ReqVb, value: Value, k: nat) {
    && k < |store| && FindFrom(Names(store), vb.oid, false, 0) == Some(k)
    && store[k].htype == vb.tag && store[k].settable && store[k].cell.OpaqueCell?
    && value.Simple? && value.p.POpaque? && |value.p.s| <= |store[k].cell.data|
  }

  /** The last varbind that does. */
  function LastWrite(store: seq<Handler>, vbs: seq<ReqVb>, values: seq<Value>, k: nat): (r: Option<nat>)
    requires |values| == |vbs|
    ensures r.Some? ==> r.value < |vbs| && Writes(store, vbs[r.value], values[r.value], k)
    decreases vbs
  {
    if vbs == [] then None
    else
      match LastWrite(store, vbs[1..], values[1..], k)
      case Some(i) => Some(i + 1)
      case None => if Writes(store, vbs[0], values[0], k) then Some(0) else None
  }

  lemma {:induction false} LastWriteIs(store: seq<Handler>, vbs: seq<ReqVb>, values: seq<Value>, k: nat)
    requires |values| == |vbs|
    ensures var last := LastWrite(store, vbs, values, k);
            forall i :: (if last.Some? then last.value + 1 else 0) <= i < |vbs| ==> !Writes(store, vbs[i], values[i], k)
    decreases vbs
  {
    hide Writes;
    if vbs != [] {
      LastWriteIs(store, vbs[1..], values[1..], k);
      var last := LastWrite(store, vbs, values, k);
      forall i | (if last.Some? then last.value + 1 else 0) <= i < |vbs| ensures !Writes(store, vbs[i], values[i], k) {
        if i > 0 { assert !Writes(store, vbs[1..][i - 1], values[1..][i - 1], k); }
      }
    }
  }

  lemma LastWriteFirst(store: seq<Handler>, vbs: seq<ReqVb>, values: seq<Value>, k: nat)
    requires |values| == |vbs| && vbs != []
    ensures var later := LastWrite(store, vbs[1..], values[1..], k);
            LastWrite(store, vbs, values, k) ==
            if later.Some? then Some(later.value + 1) else if Writes(store, vbs[0], values[0], k) then Some(0) else None
  {
    hide Writes;
  }

  /** Two buffers hold the same octets from lo to hi. */
  predicate Agree(a: Residue, b: Residue, lo: nat, hi: nat) { forall t :: lo <= t < hi ==> a(t) == b(t) }

  /** What is served of a buffer of n octets. */
  function Shown(n: nat): nat { if n > OCTETS then OCTETS else n }

  // --------------------------------------------------------------- one varbind

  /** Handlers that differ at most in the octets of an opaque buffer. */
  predicate LikeOne(g: Handler, h: Handler) {
    g == h || (g.cell.OpaqueCell? && h.cell.OpaqueCell? && |g.cell.data| == |h.cell.data| && g == h.(cell := g.cell))
  }

  predicate Like(a: seq<Handler>, b: seq<Handler>) {
    |a| == |b| && forall k :: 0 <= k < |a| ==> LikeOne(a[k], b[k])
  }

  /** Rows that differ at most in the octets of an opaque value. */
  predicate LikeRow(p: Planned, q: Planned) {
    p == q || (p.value.Some? && q.value.Some? && p.value.value.POpaque? && q.value.value.POpaque?
               && |p.value.value.s| == |q.value.value.s| && p == q.(value := p.value))
  }

  predicate LikeRead(u: Option<Prim>, v: Option<Prim>) {
    u == v || (u.Some? && v.Some? && u.value.POpaque? && v.value.POpaque? && |u.value.s| == |v.value.s|)
  }

  lemma FilledAgree(s: bytes, n: nat, a: Residue, b: Residue)
    requires |s| <= n
    ensures Filled(s, n, a) == Filled(s, n, b) <==> Agree(a, b, |s|, n)
    ensures Clamp(Filled(s, n, a), OCTETS) == Clamp(Filled(s, n, b), OCTETS) <==> Agree(a, b, |s|, Shown(n))
  {
    var x, y := Filled(s, n, a), Filled(s, n, b);
    if x == y { forall t | |s| <= t < n ensures a(t) == b(t) { assert x[t] == y[t]; } }
    var u, v := Clamp(x, OCTETS), Clamp(y, OCTETS);
    if u == v { forall t | |s| <= t < Shown(n) ensures a(t) == b(t) { assert u[t] == v[t]; } }
    if Agree(a, b, |s|, Shown(n)) {
      forall t | 0 <= t < Shown(n) ensures u[t] == v[t] { if t < |s| { assert x[t] == s[t] == y[t]; } }
    }
  }

  /** Setting like handlers. */
  lemma SetLike(g: Handler, h: Handler, p: Prim, a: Residue, b: Residue)
    requires LikeOne(g, h) && PrimTag(p) == g.htype
    ensures var (s, x) := SetHandler(g, p, a);
            var (t, y) := SetHandler(h, p, b);
            var writes := g.settable && g.cell.OpaqueCell? && p.POpaque? && |p.s| <= |g.cell.data|;
            && s == t && LikeOne(x, y)
            && (writes ==> s == NO_ERROR && (x == y <==> Agree(a, b, |p.s|, |g.cell.data|))
                           && (ReadCell(x) == ReadCell(y) <==> Agree(a, b, |p.s|, Shown(|g.cell.data|))))
            && (!writes ==> (x == y <==> g == h) && (s == NO_ERROR ==> ReadCell(x) == ReadCell(y)))
            && LikeRead(ReadCell(x), ReadCell(y))
  {
    hide Filled, Agree;
    if g.cell.OpaqueCell? && p.POpaque? && |p.s| <= |g.cell.data| { FilledAgree(p.s, |g.cell.data|, a, b); }
  }

  lemma LikeNames(a: seq<Handler>, b: seq<Handler>)
    requires Like(a, b)
    ensures Names(a) == Names(b)
  {
    forall k | 0 <= k < |a| ensures Names(a)[k] == Names(b)[k] { assert LikeOne(a[k], b[k]); }
  }

  /** A varbind of a type is decoded to a value of that type. */
  predicate TypedSimple(vb: ReqVb, value: Value) { value.Simple? && PrimTag(value.p) == vb.tag }

  /** One varbind of a SET against like stores. */
  lemma SetRowLike(a: seq<Handler>, b: seq<Handler>, version: int, vb: ReqVb, value: Value, x: Residue, y: Residue,
                   free: nat)
    requires Like(a, b) && TypedSimple(vb, value) && free > 0
    ensures var (p, a') := SetRow(a, version, vb, value, x, free);
            var (q, b') := SetRow(b, version, vb, value, y, free);
            && LikeRow(p, q) && Like(a', b')
            && (forall k :: 0 <= k < |a| && Writes(a, vb, value, k) ==>
                  && (p == q <==> Agree(x, y, |value.p.s|, Shown(|a[k].cell.data|)))
                  && (a'[k] == b'[k] <==> Agree(x, y, |value.p.s|, |a[k].cell.data|)))
            && ((forall k :: 0 <= k < |a| ==> !Writes(a, vb, value, k)) ==> p == q)
            && (forall k :: 0 <= k < |a| && !Writes(a, vb, value, k) ==> (a'[k] == b'[k] <==> a[k] == b[k]))
  {
    hide FindFrom, SetHandler, ReadCell, Names, ForVersion, ForVersionElse, Agree, LikeOne;
    LikeNames(a, b);
    var found := FindFrom(Names(a), vb.oid, false, 0);
    if found.Some? {
      var k := found.value;
      assert LikeOne(a[k], b[k]);
      LikeFields(a[k], b[k]);
      assert Writes(a, vb, value, k) ==> a[k].htype == vb.tag;
      if a[k].htype == vb.tag { SetLike(a[k], b[k], value.p, x, y); }
    }
  }

  lemma LikeFields(g: Handler, h: Handler)
    requires LikeOne(g, h)
    ensures g.oid == h.oid && g.htype == h.htype && g.settable == h.settable
            && (g.cell.OpaqueCell? <==> h.cell.OpaqueCell?)
    ensures g.cell.OpaqueCell? ==> |g.cell.data| == |h.cell.data|
  {}

  /** Setting changes neither names, types, access nor buffer sizes, so what writes where stays the same. */
  lemma WritesKept(store: seq<Handler>, version: int, first: ReqVb, v: Value, rest: Residue, free: nat,
                   vb: ReqVb, value: Value, k: nat)
    requires k < |store|
    ensures var next := SetRow(store, version, first, v, rest, free).1;
            && Names(next) == Names(store)
            && (Writes(next, vb, value, k) <==> Writes(store, vb, value, k))
            && (store[k].cell.OpaqueCell? <==> next[k].cell.OpaqueCell?)
            && (store[k].cell.OpaqueCell? ==> |next[k].cell.data| == |store[k].cell.data|)
  {
    hide FindFrom, ReadCell, ForVersion, ForVersionElse, Filled;
    var next := SetRow(store, version, first, v, rest, free).1;
    forall j | 0 <= j < |store| ensures Names(next)[j] == Names(store)[j] {}
    assert Names(next) == Names(store);
  }

  lemma {:induction false} LastWriteKept(store: seq<Handler>, version: int, first: ReqVb, v: Value, rest: Residue,
                                         free: nat, vbs: seq<ReqVb>, values: seq<Value>, k: nat)
    requires k < |store| && |values| == |vbs|
    ensures LastWrite(SetRow(store, version, first, v, rest, free).1, vbs, values, k)
            == LastWrite(store, vbs, values, k)
    decreases vbs
  {
    hide SetRow, Writes;
    if vbs != [] {
      LastWriteKept(store, version, first, v, rest, free, vbs[1..], values[1..], k);
      WritesKept(store, version, first, v, rest, free, vbs[0], values[0], k);
    }
  }

  // ---------------------------------------------------------------- a whole SET

  /** What the row of a varbind shows does not depend on which of two residues its value has. */
  predicate RowAgrees(store: seq<Handler>, vb: ReqVb, value: Value, x: Residue, y: Residue) {
    forall k :: 0 <= k < |store| && Writes(store, vb, value, k) ==>
          Agree(x, y, |value.p.s|, Shown(|store[k].cell.data|))
  }

  /** Nor does the handler: the last varbind that writes it leaves the same octets. */
  predicate HandlerAgrees(store: seq<Handler>, vbs: seq<ReqVb>, values: seq<Value>, x: Memory, y: Memory, at: nat,
                          k: nat)
    requires |values| == |vbs| && k < |store|
  {
    var last := LastWrite(store, vbs, values, k);
    last.Some? ==> Agree(x(at + last.value), y(at + last.value), |values[last.value].p.s|, |store[k].cell.data|)
  }

  predicate LikeRows(a: seq<Planned>, b: seq<Planned>) {
    |a| == |b| && forall i :: 0 <= i < |a| ==> LikeRow(a[i], b[i])
  }

  predicate AllSimple(vbs: seq<ReqVb>, values: seq<Value>) {
    |values| == |vbs| && forall i :: 0 <= i < |vbs| ==> TypedSimple(vbs[i], values[i])
  }

  /** The same SET with two memories, against like stores: it comes to as many like rows and to like handlers. */
  lemma {:induction false} SetsLike(a: seq<Handler>, b: seq<Handler>, version: int, vbs: seq<ReqVb>, values: seq<Value>,
                                    x: Memory, y: Memory, at: nat, room: nat, free: nat)
    requires Like(a, b) && AllSimple(vbs, values) && free > room
    requires Sets(a, version, vbs, values, x, at, room, free).0.Some?
    ensures var (r, a') := Sets(a, version, vbs, values, x, at, room, free);
            var (s, b') := Sets(b, version, vbs, values, y, at, room, free);
            s.Some? && |r.value| == |vbs| && LikeRows(r.value, s.value) && Like(a', b')
    decreases vbs
  {
    hide Sets, SetRow, OidOk, LikeRow, Like, RowAgrees, TypedSimple, Writes;
    if vbs == [] {
      SetsDone(a, version, x, at, room, free);
      SetsDone(b, version, y, at, room, free);
    } else {
      AllSimpleRest(vbs, values);
      SetsUnfold(a, version, vbs, values, x, at, room, free);
      SetsUnfold(b, version, vbs, values, y, at, room, free);
      FirstLike(a, b, version, vbs[0], values[0], x(at), y(at), free);
      var (p, a1) := SetRow(a, version, vbs[0], values[0], x(at), free);
      var (q, b1) := SetRow(b, version, vbs[0], values[0], y(at), free);
      SetsLike(a1, b1, version, vbs[1..], values[1..], x, y, at + 1, room - 1, free - Cost(p));
    }
  }

  lemma AllSimpleRest(vbs: seq<ReqVb>, values: seq<Value>)
    requires AllSimple(vbs, values) && vbs != []
    ensures TypedSimple(vbs[0], values[0]) && AllSimple(vbs[1..], values[1..])
  {
    hide TypedSimple;
  }

  /** When the rows of one varbind are equal. */
  lemma {:induction false} RowAgreement(a: seq<Handler>, b: seq<Handler>, version: int, vbs: seq<ReqVb>,
                                        values: seq<Value>, x: Memory, y: Memory, at: nat, room: nat, free: nat, i: nat)
    requires Like(a, b) && AllSimple(vbs, values) && free > room && i < |vbs|
    requires Sets(a, version, vbs, values, x, at, room, free).0.Some?
    ensures var r := Sets(a, version, vbs, values, x, at, room, free).0;
            var s := Sets(b, version, vbs, values, y, at, room, free).0;
            && s.Some? && |r.value| == |s.value| == |vbs|
            && (r.value[i] == s.value[i] <==> RowAgrees(a, vbs[i], values[i], x(at + i), y(at + i)))
    decreases vbs
  {
    hide Sets, SetRow, OidOk, LikeRow, Like, RowAgrees, TypedSimple, Writes;
    SetsLike(a, b, version, vbs, values, x, y, at, room, free);
    AllSimpleRest(vbs, values);
    SetsUnfold(a, version, vbs, values, x, at, room, free);
    SetsUnfold(b, version, vbs, values, y, at, room, free);
    FirstLike(a, b, version, vbs[0], values[0], x(at), y(at), free);
    var (p, a1) := SetRow(a, version, vbs[0], values[0], x(at), free);
    var (q, b1) := SetRow(b, version, vbs[0], values[0], y(at), free);
    if i > 0 {
      RowAgreement(a1, b1, version, vbs[1..], values[1..], x, y, at + 1, room - 1, free - Cost(p), i - 1);
      RowAgreesKept(a, version, vbs[0], values[0], x(at), free, vbs[i], values[i], x(at + i), y(at + i));
    }
  }

  /** When a handler ends up equal. */
  lemma {:induction false} HandlerAgreement(a: seq<Handler>, b: seq<Handler>, version: int, vbs: seq<ReqVb>,
                                            values: seq<Value>, x: Memory, y: Memory, at: nat, room: nat, free: nat,
                                            k: nat)
    requires Like(a, b) && AllSimple(vbs, values) && free > room && k < |a|
    requires Sets(a, version, vbs, values, x, at, room, free).0.Some?
    ensures |a| == |b|
    ensures Sets(a, version, vbs, values, x, at, room, free).1[k]
            == Sets(b, version, vbs, values, y, at, room, free).1[k] <==>
            HandlerAgrees(a, vbs, values, x, y, at, k) && (LastWrite(a, vbs, values, k).None? ==> a[k] == b[k])
    decreases vbs
  {
    hide Sets, SetRow, OidOk, LikeRow, Like, RowAgrees, TypedSimple, FindFrom, Names, Agree, LastWrite;
    assert |a| == |b| by { LikeLength(a, b); }
    if vbs == [] {
      SetsDone(a, version, x, at, room, free);
      SetsDone(b, version, y, at, room, free);
    } else {
      SetsLike(a, b, version, vbs, values, x, y, at, room, free);
      AllSimpleRest(vbs, values);
      SetsUnfold(a, version, vbs, values, x, at, room, free);
      SetsUnfold(b, version, vbs, values, y, at, room, free);
      FirstLike(a, b, version, vbs[0], values[0], x(at), y(at), free);
      var (p, a1) := SetRow(a, version, vbs[0], values[0], x(at), free);
      var (q, b1) := SetRow(b, version, vbs[0], values[0], y(at), free);
      LastWriteFirst(a, vbs, values, k);
      HandlerAgreement(a1, b1, version, vbs[1..], values[1..], x, y, at + 1, room - 1, free - Cost(p), k);
      LastWriteKept(a, version, vbs[0], values[0], x(at), free, vbs[1..], values[1..], k);
      BufferKept(a, version, vbs[0], values[0], x(at), free, k);
    }
  }

  lemma LikeLength(a: seq<Handler>, b: seq<Handler>)
    requires Like(a, b)
    ensures |a| == |b|
  {}

  lemma BufferKept(store: seq<Handler>, version: int, first: ReqVb, v: Value, rest: Residue, free: nat, k: nat)
    requires k < |store|
    ensures var next := SetRow(store, version, first, v, rest, free).1;
            && (store[k].cell.OpaqueCell? <==> next[k].cell.OpaqueCell?)
            && (store[k].cell.OpaqueCell? ==> |next[k].cell.data| == |store[k].cell.data|)
  {
    hide SetRow;
    WritesKept(store, version, first, v, rest, free, first, v, k);
  }

  lemma FirstLike(a: seq<Handler>, b: seq<Handler>, version: int, vb: ReqVb, value: Value, x: Residue, y: Residue,
                  free: nat)
    requires Like(a, b) && TypedSimple(vb, value) && free > 0
    ensures var (p, a') := SetRow(a, version, vb, value, x, free);
            var (q, b') := SetRow(b, version, vb, value, y, free);
            && LikeRow(p, q) && p.oid == q.oid && Cost(p) == Cost(q) && Like(a', b')
            && (p == q <==> RowAgrees(a, vb, value, x, y))
            && (forall k :: 0 <= k < |a| && Writes(a, vb, value, k) ==>
                  (a'[k] == b'[k] <==> Agree(x, y, |value.p.s|, |a[k].cell.data|)))
            && (forall k :: 0 <= k < |a| && !Writes(a, vb, value, k) ==> (a'[k] == b'[k] <==> a[k] == b[k]))
  {
    hide SetRow, Agree, Like, TypedSimple, FindFrom;
    SetRowLike(a, b, version, vb, value, x, y, free);
  }

  lemma RowAgreesKept(store: seq<Handler>, version: int, first: ReqVb, v: Value, rest: Residue, free: nat,
                      vb: ReqVb, value: Value, x: Residue, y: Residue)
    ensures RowAgrees(SetRow(store, version, first, v, rest, free).1, vb, value, x, y) <==>
              RowAgrees(store, vb, value, x, y)
  {
    hide SetRow, FindFrom, Names, Agree;
    var next := SetRow(store, version, first, v, rest, free).1;
    forall k | 0 <= k < |store|
      ensures Writes(next, vb, value, k) <==> Writes(store, vb, value, k)
      ensures store[k].cell.OpaqueCell? ==> next[k].cell.OpaqueCell? && |next[k].cell.data| == |store[k].cell.data|
    {
      WritesKept(store, version, first, v, rest, free, vb, value, k);
    }
  }

  // ------------------------------------------------------------------ the reply

  /** The same tree up to the octets of its leaves. */
  predicate Alike(t: Tlv, u: Tlv)
    decreases t
  {
    t.tag == u.tag && match t
                      case Leaf(_, c) => u.Leaf? && |u.content| == |c|
                      case Node(_, kids) => u.Node? && AlikeAll(kids, u.kids)
  }

  predicate AlikeAll(ts: seq<Tlv>, us: seq<Tlv>)
    decreases ts
  {
    |ts| == |us| && (ts == [] || (Alike(ts[0], us[0]) && AlikeAll(ts[1..], us[1..])))
  }

  /** Such trees take the same room, and only the same tree has the same encoding. */
  lemma {:induction false} AlikeEnc(t: Tlv, u: Tlv)
    requires Alike(t, u)
    ensures |Enc(t)| == |Enc(u)| && Peak(t) == Peak(u) && (Enc(t) == Enc(u) ==> t == u)
    decreases t
  {
    hide Wrap, EncAll, PeakAll, AlikeAll;
    match t
    case Leaf(tag, c) => WrapAlike(tag, c, u.content);
    case Node(tag, kids) =>
      AlikeEncAll(kids, u.kids);
      WrapAlike(tag, EncAll(kids), EncAll(u.kids));
  }

  lemma WrapAlike(tag: byte, c: bytes, d: bytes)
    requires |c| == |d|
    ensures |Wrap(tag, c)| == |Wrap(tag, d)| && (Wrap(tag, c) == Wrap(tag, d) ==> c == d)
  {
    var n := 1 + |LenBytes(|c|)|;
    assert Wrap(tag, c)[n..] == c && Wrap(tag, d)[n..] == d;
  }

  lemma {:induction false} AlikeEncAll(ts: seq<Tlv>, us: seq<Tlv>)
    requires AlikeAll(ts, us)
    ensures |EncAll(ts)| == |EncAll(us)| && PeakAll(ts) == PeakAll(us) && (EncAll(ts) == EncAll(us) ==> ts == us)
    decreases ts
  {
    hide Enc, Peak, Alike;
    if ts != [] {
      AlikeEnc(ts[0], us[0]);
      AlikeEncAll(ts[1..], us[1..]);
      var n := |Enc(ts[0])|;
      assert EncAll(ts)[..n] == Enc(ts[0]) && EncAll(us)[..n] == Enc(us[0]);
      assert EncAll(ts)[n..] == EncAll(ts[1..]) && EncAll(us)[n..] == EncAll(us[1..]);
      assert ts == [ts[0]] + ts[1..] && us == [us[0]] + us[1..];
    }
  }

  lemma {:induction false} RowsAlike(a: seq<Planned>, b: seq<Planned>)
    requires LikeRows(a, b)
    ensures AlikeAll(RowTlvs(PlannedRows(a)), RowTlvs(PlannedRows(b)))
    ensures RowTlvs(PlannedRows(a)) == RowTlvs(PlannedRows(b)) ==> a == b
    decreases |a|
  {
    hide LikeRow, RowTlv, PlannedRow;
    if a != [] {
      assert LikeRow(a[0], b[0]);
      RowAlike(a[0], b[0]);
      RowsAlike(a[1..], b[1..]);
      TailTlvs(a);
      TailTlvs(b);
      assert a == [a[0]] + a[1..] && b == [b[0]] + b[1..];
    }
  }

  lemma TailTlvs(a: seq<Planned>)
    requires a != []
    ensures var ts := RowTlvs(PlannedRows(a));
            ts != [] && ts[0] == RowTlv(PlannedRow(a[0])) && ts[1..] == RowTlvs(PlannedRows(a[1..]))
  {
    assert PlannedRows(a)[1..] == PlannedRows(a[1..]);
  }

  lemma RowAlike(p: Planned, q: Planned)
    requires LikeRow(p, q)
    ensures Alike(RowTlv(PlannedRow(p)), RowTlv(PlannedRow(q)))
    ensures RowTlv(PlannedRow(p)) == RowTlv(PlannedRow(q)) ==> p == q
  {
    var a, b := PlannedRow(p), PlannedRow(q);
    assert RowTlv(a).kids[1] == Leaf(a.tag, a.content) && RowTlv(b).kids[1] == Leaf(b.tag, b.content);
    PairAlike(Leaf(OID, a.oid), Leaf(a.tag, a.content), Leaf(OID, b.oid), Leaf(b.tag, b.content));
  }

  lemma PairAlike(a: Tlv, b: Tlv, c: Tlv, d: Tlv)
    requires Alike(a, c) && Alike(b, d)
    ensures AlikeAll([a, b], [c, d])
  {
    assert [a, b][1..] == [b] && [c, d][1..] == [d] && [b][1..] == [] && [d][1..] == [];
    assert AlikeAll([b], [d]);
  }

  lemma {:induction false} SameErrors(a: seq<Planned>, b: seq<Planned>)
    requires LikeRows(a, b)
    ensures LastError(a) == LastError(b)
  {
    if a != [] {
      assert LikeRow(a[|a| - 1], b[|b| - 1]);
      SameErrors(a[..|a| - 1], b[..|b| - 1]);
    }
  }

  /** Like rows make replies of one length that need one room, and only equal rows make the same reply. */
  lemma ReplyLike(q: Request, a: seq<Planned>, b: seq<Planned>)
    requires LikeRows(a, b)
    ensures var m, n := NormalReply(q, a), NormalReply(q, b);
            && |Enc(MessageTlv(m))| == |Enc(MessageTlv(n))| && Peak(MessageTlv(m)) == Peak(MessageTlv(n))
            && (Enc(MessageTlv(m)) == Enc(MessageTlv(n)) <==> a == b)
  {
    hide Enc, Peak, LikeRows, RowTlvs, PlannedRows, LastError, Int4, Clamp, AlikeAll;
    SameErrors(a, b);
    RowsAlike(a, b);
    MessageAlike(NormalReply(q, a), NormalReply(q, b));
    AlikeEnc(MessageTlv(NormalReply(q, a)), MessageTlv(NormalReply(q, b)));
  }

  /** Messages that differ in their rows only. */
  lemma MessageAlike(m: Message, n: Message)
    requires m == n.(rows := m.rows) && AlikeAll(RowTlvs(m.rows), RowTlvs(n.rows))
    ensures Alike(MessageTlv(m), MessageTlv(n))
    ensures MessageTlv(m) == MessageTlv(n) ==> RowTlvs(m.rows) == RowTlvs(n.rows)
  {
    hide RowTlvs;
    var x, y, z := Leaf(INTEGER, m.requestID), Leaf(INTEGER, m.errorStatus), Leaf(INTEGER, m.errorIndex);
    var l, k := Node(STRUCTURE, RowTlvs(m.rows)), Node(STRUCTURE, RowTlvs(n.rows));
    AlikeCons(l, k, [], []);
    AlikeCons(z, z, [l], [k]);
    AlikeCons(y, y, [z, l], [z, k]);
    AlikeCons(x, x, [y, z, l], [y, z, k]);
    assert [l] == [l] + [] && [z, l] == [z] + [l] && [y, z, l] == [y] + [z, l] && [x, y, z, l] == [x] + [y, z, l];
    assert [k] == [k] + [] && [z, k] == [z] + [k] && [y, z, k] == [y] + [z, k] && [x, y, z, k] == [x] + [y, z, k];
    var a, b := Leaf(INTEGER, m.version), Leaf(STRING, m.community);
    var p, r := PduTlv(m), PduTlv(n);
    assert p.kids == [x, y, z, l] && r.kids == [x, y, z, k];
    AlikeCons(p, r, [], []);
    AlikeCons(b, b, [p], [r]);
    AlikeCons(a, a, [b, p], [b, r]);
    assert [p] == [p] + [] && [b, p] == [b] + [p] && [a, b, p] == [a] + [b, p];
    assert [r] == [r] + [] && [b, r] == [b] + [r] && [a, b, r] == [a] + [b, r];
    assert MessageTlv(m).kids[2].kids[3].kids == RowTlvs(m.rows)
           && MessageTlv(n).kids[2].kids[3].kids == RowTlvs(n.rows);
  }

  lemma AlikeCons(t: Tlv, u: Tlv, ts: seq<Tlv>, us: seq<Tlv>)
    requires Alike(t, u)
    ensures AlikeAll([], []) && (AlikeAll(ts, us) ==> AlikeAll([t] + ts, [u] + us))
  {
    assert ([t] + ts)[1..] == ts && ([u] + us)[1..] == us;
  }

  lemma AnswersLike(q: Request, a: seq<Planned>, b: seq<Planned>, max: nat)
    requires LikeRows(a, b)
    ensures Fits(NormalReply(q, a), max) <==> Fits(NormalReply(q, b), max)
    ensures var (c, r) := Answer(q, Rows(a), max);
            var (d, s) := Answer(q, Rows(b), max);
            c == d && (r == s <==> (Fits(NormalReply(q, a), max) ==> a == b))
  {
    hide Enc, Peak, LikeRows, NormalReply, ErrorReply, SuccessCode;
    ReplyLike(q, a, b);
  }

  // ------------------------------------------------------------------ the effect

  /** Two memories make no difference to a SET: the handlers end up alike and, if the planned rows are what
      is answered, so do the rows. */
  predicate NoDifference(store: seq<Handler>, vbs: seq<ReqVb>, values: seq<Value>, x: Memory, y: Memory, answered: bool)
    requires |values| == |vbs|
  {
    && (answered ==> forall i :: 0 <= i < |vbs| ==> RowAgrees(store, vbs[i], values[i], x(i), y(i)))
    && forall k :: 0 <= k < |store| ==> HandlerAgrees(store, vbs, values, x, y, 0, k)
  }

  /** Exactly when a SET comes out the same with either memory. */
  lemma SetMemory(store: seq<Handler>, q: Request, values: seq<Value>, x: Memory, y: Memory, free: nat, max: nat)
    requires AllSimple(q.vbs, values) && free > VB && q.pduType == SET_REQUEST
    requires Stage(ReadWrite, store, q, values, x, free).0.Rows?
    ensures var (r, a) := Stage(ReadWrite, store, q, values, x, free);
            var (s, b) := Stage(ReadWrite, store, q, values, y, free);
            && s.Rows? && LikeRows(r.rows, s.rows)
            && Answer(q, r, max).0 == Answer(q, s, max).0
            && ((Answer(q, r, max) == Answer(q, s, max) && a == b) <==>
                NoDifference(store, q.vbs, values, x, y, Fits(NormalReply(q, r.rows), max)))
  {
    hide Sets, Answer, Fits, LikeRow, LikeOne, RowAgrees, HandlerAgrees, TypedSimple, LastWrite;
    LikeSelf(store);
    SetsLike(store, store, q.version, q.vbs, values, x, y, 0, VB, free);
    var (r, a) := Sets(store, q.version, q.vbs, values, x, 0, VB, free);
    var (s, b) := Sets(store, q.version, q.vbs, values, y, 0, VB, free);
    AnswersLike(q, r.value, s.value, max);
    forall i | 0 <= i < |q.vbs|
      ensures r.value[i] == s.value[i] <==> RowAgrees(store, q.vbs[i], values[i], x(i), y(i))
    {
      RowAgreement(store, store, q.version, q.vbs, values, x, y, 0, VB, free, i);
    }
    forall k | 0 <= k < |store| ensures a[k] == b[k] <==> HandlerAgrees(store, q.vbs, values, x, y, 0, k) {
      HandlerAgreement(store, store, q.version, q.vbs, values, x, y, 0, VB, free, k);
    }
    assert r.value == s.value <==> forall i :: 0 <= i < |q.vbs| ==> r.value[i] == s.value[i];
    assert a == b <==> forall k :: 0 <= k < |store| ==> a[k] == b[k];
  }

  lemma LikeSelf(store: seq<Handler>)
    ensures Like(store, store)
  {}

  /** Some varbind leaves octets nobody wrote where they can be seen: it is too short for the buffer of the
      handler it names, and either its row is answered with some of them or no later varbind overwrites
      them. */
  predicate Stray(store: seq<Handler>, vbs: seq<ReqVb>, values: seq<Value>, answered: bool)
    requires |values| == |vbs|
  {
    exists i, k :: 0 <= i < |vbs| && 0 <= k < |store| && StrayAt(store, vbs, values, answered, i, k)
  }

  predicate StrayAt(store: seq<Handler>, vbs: seq<ReqVb>, values: seq<Value>, answered: bool, i: nat, k: nat)
    requires |values| == |vbs| && i < |vbs| && k < |store|
  {
    && Writes(store, vbs[i], values[i], k) && |values[i].p.s| < |store[k].cell.data|
    && ((answered && |values[i].p.s| < OCTETS) || LastWrite(store, vbs, values, k) == Some(i))
  }

  /** So memory makes no difference, whatever it holds, if and only if nothing is left to be seen. */
  lemma StrayExactly(store: seq<Handler>, vbs: seq<ReqVb>, values: seq<Value>, answered: bool)
    requires |values| == |vbs|
    ensures (forall x, y :: NoDifference(store, vbs, values, x, y, answered)) <==> !Stray(store, vbs, values, answered)
  {
    hide NoDifference, Stray;
    if Stray(store, vbs, values, answered) {
      StrayShows(store, vbs, values, answered);
      assert !NoDifference(store, vbs, values, All(0), All(1), answered);
    } else {
      forall x, y ensures NoDifference(store, vbs, values, x, y, answered) {
        NoStrayNoDifference(store, vbs, values, x, y, answered);
      }
    }
  }

  /** Every octet of every slot is b. */
  function All(b: byte): Memory { i => j => b }

  lemma StrayShows(store: seq<Handler>, vbs: seq<ReqVb>, values: seq<Value>, answered: bool)
    requires |values| == |vbs| && Stray(store, vbs, values, answered)
    ensures !NoDifference(store, vbs, values, All(0), All(1), answered)
  {
    hide Writes, LastWrite;
    var i, k :| 0 <= i < |vbs| && 0 <= k < |store| && StrayAt(store, vbs, values, answered, i, k);
    WritesOpaque(store, vbs[i], values[i], k);
    var t := |values[i].p.s|;
    assert All(0)(i)(t) != All(1)(i)(t);
    if LastWrite(store, vbs, values, k) == Some(i) {
      assert !HandlerAgrees(store, vbs, values, All(0), All(1), 0, k);
    } else {
      assert !RowAgrees(store, vbs[i], values[i], All(0)(i), All(1)(i));
    }
  }

  lemma WritesOpaque(store: seq<Handler>, vb: ReqVb, value: Value, k: nat)
    requires Writes(store, vb, value, k)
    ensures k < |store| && store[k].cell.OpaqueCell? && value.Simple? && value.p.POpaque?
            && |value.p.s| <= |store[k].cell.data|
  {}

  lemma NoStrayNoDifference(store: seq<Handler>, vbs: seq<ReqVb>, values: seq<Value>, x: Memory, y: Memory,
                            answered: bool)
    requires |values| == |vbs| && !Stray(store, vbs, values, answered)
    ensures NoDifference(store, vbs, values, x, y, answered)
  {
    hide Writes, LastWrite;
    forall i, k | 0 <= i < |vbs| && 0 <= k < |store| && Writes(store, vbs[i], values[i], k)
      ensures store[k].cell.OpaqueCell? && values[i].Simple? && values[i].p.POpaque?
      ensures answered ==> Agree(x(i), y(i), |values[i].p.s|, Shown(|store[k].cell.data|))
      ensures LastWrite(store, vbs, values, k) == Some(i) ==> Agree(x(i), y(i), |values[i].p.s|, |store[k].cell.data|)
    {
      WritesOpaque(store, vbs[i], values[i], k);
      assert !StrayAt(store, vbs, values, answered, i, k);
    }
    forall i | 0 <= i < |vbs| && answered ensures RowAgrees(store, vbs[i], values[i], x(i), y(i)) {}
    forall k | 0 <= k < |store| ensures HandlerAgrees(store, vbs, values, x, y, 0, k) {}
  }
}
