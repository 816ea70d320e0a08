/** The OID roster: the registered handlers, the lookups on it and what GETNEXT therefore means. */
module Roster {
  import opened Bytes
  import opened Ber
  import opened Caps
  import opened Containers
  import opened Oids

  // ------------------------------------------------------------------ handlers

  const NO_ERROR: int := 0
  const TOO_BIG: int := 1
  const NO_SUCH_NAME: int := 2
  const BAD_VALUE: int := 3
  const READ_ONLY: int := 4
  const GEN_ERR: int := 5
  const NO_ACCESS: int := 6
  const WRONG_TYPE: int := 7
  const WRONG_LENGTH: int := 8
  const NOT_WRITABLE: int := 17

  /** What a handler is bound to. Integers are 32-bit patterns; chars is the C string in a
      buffer of maxLen octets; FixedCell is a copied constant, an OID or a sketch function. */
  datatype Cell =
    | IntCell(v: int)
    | StrCell(maxLen: nat, chars: bytes)
    | OpaqueCell(data: bytes)
    | Counter64Cell(v64: nat)
    | FixedCell(fixed: Option<Prim>)
    | NullCell

  datatype Handler = Handler(oid: bytes, htype: byte, settable: bool, cell: Cell, setOccurred: bool)

  /** What the buffer of a decoded object holds, octet by octet, where nothing was decoded into it. */
  type Residue = nat -> byte

  /** The same for the objects that hold the values of a request, by varbind. */
  type Memory = nat -> Residue

  /** The first n octets of a buffer into which s was decoded. */
  function Filled(s: bytes, n: nat, rest: Residue): (r: bytes)
    requires |s| <= n
    ensures |r| == n && s <= r
    ensures forall i :: |s| <= i < n ==> r[i] == rest(i)
  {
    s + seq(n - |s|, i requires 0 <= i => rest(|s| + i))
  }

  predicate HandlerOk(h: Handler) {
    && h.oid != [] && h.oid[0] == 0x2b && |h.oid| <= OID_DATA && IsPrimTag(h.htype)
    && match h.cell
       case IntCell(v) => IsIntTag(h.htype) && Is32(v)
       case StrCell(maxLen, chars) => h.htype == STRING && 0 !in chars && (h.settable ==> |chars| < maxLen)
       case OpaqueCell(_) => h.htype == OPAQUE
       case Counter64Cell(v) => h.htype == COUNTER64 && v < TWO64
       case FixedCell(f) => f.Some? ==> PrimTag(f.value) == h.htype && PrimOk(f.value) && !f.value.PAddress?
       case NullCell => true
  }

  function Clamp(s: bytes, n: nat): bytes { if |s| > n then s[..n] else s }

  /** The value a GET serves, given a pool slot for it. */
  function ReadCell(h: Handler): Option<Prim> {
    match h.cell
    case IntCell(v) => Some(PInt(h.htype, v))
    case StrCell(_, chars) => Some(POctets(Clamp(chars, STR)))
    case OpaqueCell(data) => Some(POpaque(Clamp(data, OCTETS)))
    case Counter64Cell(v) => Some(PCounter64(v))
    case FixedCell(f) => f
    case NullCell => None
  }

  /** setTypeWithValue on a value of the handler's own type: the status and the new binding.
      An opaque value shorter than the buffer is followed by what the decoder's object held. */
  function WriteCell(h: Handler, p: Prim, rest: Residue): (int, Cell) {
    match (h.cell, p)
    case (IntCell(_), PInt(_, v)) => (NO_ERROR, IntCell(v))
    case (StrCell(maxLen, _), POctets(s)) =>
      if |s| >= maxLen then (WRONG_LENGTH, h.cell) else (NO_ERROR, StrCell(maxLen, CStr(s)))
    case (OpaqueCell(data), POpaque(s)) =>
      if |s| > |data| then (WRONG_LENGTH, h.cell)
      else (NO_ERROR, OpaqueCell(Filled(s, |data|, rest)))
    case (Counter64Cell(_), PCounter64(v)) => (NO_ERROR, Counter64Cell(v))
    case (FixedCell(_), _) => (NO_ACCESS, h.cell)
    case _ => (GEN_ERR, h.cell)
  }

  /** setValueForCallback. The counters clear the flag again when the value does not change. */
  function SetHandler(h: Handler, p: Prim, rest: Residue): (int, Handler) {
    if !h.settable then (READ_ONLY, h)
    else
      var (status, cell) := WriteCell(h, p, rest);
      var same := (h.htype == COUNTER32 || h.htype == COUNTER64) && cell == h.cell;
      (status, h.(cell := cell, setOccurred := status == NO_ERROR && !same))
  }

  class ValueCallback {
    const oid: bytes
    const htype: byte
    var isSettable: bool
    var cell: Cell
    var setOccurred: bool

    constructor (oid: bytes, htype: byte, isSettable: bool, cell: Cell)
      ensures State() == Handler(oid, htype, isSettable, cell, false)
    {
      this.oid, this.htype, this.isSettable, this.cell, this.setOccurred := oid, htype, isSettable, cell, false;
    }

    function State(): Handler
      reads this
    {
      Handler(oid, htype, isSettable, cell, setOccurred)
    }

    method SetTypeWithValue(p: Prim, rest: Residue) returns (status: int)
      modifies this
      ensures var w := WriteCell(old(State()), p, rest);
              && status == w.0 && cell == w.1 && isSettable == old(isSettable)
              && (HandlerOk(old(State())) ==>
                    var same := (htype == COUNTER32 || htype == COUNTER64) && w.1 == old(cell);
                    setOccurred == (old(setOccurred) && !(w.0 == NO_ERROR && same)))
    {
      match (cell, p)
      case (IntCell(old_), PInt(_, v)) =>
        if htype == COUNTER32 && old_ == v {
          setOccurred := false;
        } else {
          cell := IntCell(v);
        }
        return NO_ERROR;
      case (StrCell(maxLen, _), POctets(s)) =>
        if |s| >= maxLen { return WRONG_LENGTH; }
        cell := StrCell(maxLen, CStr(s));
        return NO_ERROR;
      case (OpaqueCell(data), POpaque(s)) =>
        if |s| > |data| { return WRONG_LENGTH; }
        cell := OpaqueCell(Filled(s, |data|, rest));
        return NO_ERROR;
      case (Counter64Cell(old_), PCounter64(v)) =>
        if htype == COUNTER64 && old_ == v {
          setOccurred := false;
        } else {
          cell := Counter64Cell(v);
        }
        return NO_ERROR;
      case (FixedCell(_), _) => return NO_ACCESS;
      case _ => return GEN_ERR;
    }

    /** setValueForCallback */
    method SetValue(p: Prim, rest: Residue) returns (status: int)
      modifies this
      ensures HandlerOk(old(State())) ==> (status, State()) == SetHandler(old(State()), p, rest)
    {
      if !isSettable { return READ_ONLY; }
      setOccurred := true;
      status := SetTypeWithValue(p, rest);
      if status != NO_ERROR { setOccurred := false; }
    }
  }

  function Snapshot(cs: seq<ValueCallback>): (r: seq<Handler>)
    reads cs
    ensures |r| == |cs|
  {
    if cs == [] then [] else [cs[0].State()] + Snapshot(cs[1..])
  }

  lemma {:induction false} SnapshotAt(cs: seq<ValueCallback>, k: nat)
    requires k < |cs|
    ensures Snapshot(cs)[k] == cs[k].State()
  {
    if k > 0 { SnapshotAt(cs[1..], k - 1); }
  }

  lemma SnapshotIs(cs: seq<ValueCallback>)
    ensures forall k :: 0 <= k < |cs| ==> Snapshot(cs)[k] == cs[k].State()
  {
    forall k | 0 <= k < |cs| ensures Snapshot(cs)[k] == cs[k].State() { SnapshotAt(cs, k); }
  }

  predicate StoreOk(store: seq<Handler>) { forall i :: 0 <= i < |store| ==> HandlerOk(store[i]) }

  predicate Distinct(callbacks: seq<ValueCallback>) {
    forall i, j :: 0 <= i < j < |callbacks| ==> callbacks[i] != callbacks[j]
  }

  lemma OkAt(store: seq<Handler>, k: nat)
    requires StoreOk(store) && k < |store|
    ensures HandlerOk(store[k])
  {}

  /** Setting a well-formed value leaves a well-formed handler under the same name. */
  lemma SetKeepsOk(h: Handler, p: Prim, rest: Residue)
    requires HandlerOk(h) && PrimOk(p) && PrimTag(p) == h.htype
    ensures HandlerOk(SetHandler(h, p, rest).1) && 0 <= SetHandler(h, p, rest).0 <= NOT_WRITABLE
  {}

  /** setValueForCallback on one handler of the roster: the others stay as they were. */
  method SetCallback(callbacks: seq<ValueCallback>, k: nat, p: Prim, rest: Residue, ghost store: seq<Handler>)
    returns (status: int)
    requires k < |callbacks| && store == Snapshot(callbacks) && StoreOk(store) && Distinct(callbacks)
    requires PrimOk(p) && PrimTag(p) == callbacks[k].htype
    modifies callbacks[k]
    ensures var r := SetHandler(store[k], p, rest);
            status == r.0 && Snapshot(callbacks) == store[k := r.1] && callbacks[k].State() == r.1
    ensures StoreOk(Snapshot(callbacks))
  {
    hide SetHandler, HandlerOk;
    SnapshotIs(callbacks);
    OkAt(store, k);
    SetKeepsOk(store[k], p, rest);
    status := callbacks[k].SetValue(p, rest);
    SnapshotIs(callbacks);
    forall j | 0 <= j < |callbacks| ensures Snapshot(callbacks)[j] == store[k := SetHandler(store[k], p, rest).1][j] {
      if j != k { assert callbacks[j] != callbacks[k]; }
    }
  }

  function Names(store: seq<Handler>): (r: seq<bytes>)
    ensures |r| == |store|
    ensures forall i :: 0 <= i < |store| ==> r[i] == store[i].oid
  {
    seq(|store|, i requires 0 <= i < |store| => store[i].oid)
  }

  // -------------------------------------------------------------------- lookup

  /** Both lookups: an exact match from start on, or, walking, the handler after the exact match or
      the first handler whose name extends the request. */
  function FindFrom(names: seq<bytes>, oid: bytes, walk: bool, start: nat): (r: Option<nat>)
    ensures r.Some? ==> start <= r.value < |names|
    decreases |names| - start
  {
    if start >= |names| then None
    else if names[start] == oid then
      if !walk then Some(start) else if start + 1 < |names| then Some(start + 1) else None
    else if walk && oid < names[start] then Some(start)
    else FindFrom(names, oid, walk, start + 1)
  }

  /** OIDType::equals */
  predicate SameOid(a: bytes, b: bytes)
    ensures SameOid(a, b) <==> a == b
  {
    |a| == |b| && (|a| == 0 || a == b)
  }

  /** OIDType::isSubTreeOf */
  predicate IsSubTreeOf(a: bytes, root: bytes)
    ensures IsSubTreeOf(a, root) <==> root < a
  {
    if |root| >= |a| then false else if |root| == 0 then true else a[..|root|] == root
  }

  /** findCallback, of the owning path. */
  method FindCallback(callbacks: seq<ValueCallback>, oid: bytes, walk: bool, startAt: nat, foundAt: nat)
    returns (r: Option<nat>, foundAt': nat)
    ensures r == FindFrom(Names(Snapshot(callbacks)), oid, walk, startAt)
    ensures foundAt' == if r.Some? then r.value else foundAt
  {
    var useNext := false;
    ghost var names := Names(Snapshot(callbacks));
    SnapshotIs(callbacks);
    var i := startAt;
    while i < |callbacks|
      invariant startAt <= i
      invariant !useNext ==> FindFrom(names, oid, walk, startAt) == FindFrom(names, oid, walk, i)
      invariant useNext ==> FindFrom(names, oid, walk, startAt) == if i < |names| then Some(i) else None
    {
      if useNext { return Some(i), i; }
      if SameOid(oid, callbacks[i].oid) {
        if !walk { return Some(i), i; }
        useNext := true;
      } else if walk && IsSubTreeOf(callbacks[i].oid, oid) {
        return Some(i), i;
      }
      i := i + 1;
    }
    return None, foundAt;
  }

  /** findCallbackForSlice, of the zero-copy path: the same decision on encoded octets. */
  method FindCallbackForSlice(callbacks: seq<ValueCallback>, oid: bytes, walk: bool, startAt: nat, foundAt: nat)
    returns (r: Option<nat>, foundAt': nat)
    ensures r == FindFrom(Names(Snapshot(callbacks)), oid, walk, startAt)
    ensures foundAt' == if r.Some? then r.value else foundAt
  {
    var useNext := false;
    ghost var names := Names(Snapshot(callbacks));
    SnapshotIs(callbacks);
    var i := startAt;
    while i < |callbacks|
      invariant startAt <= i
      invariant !useNext ==> FindFrom(names, oid, walk, startAt) == FindFrom(names, oid, walk, i)
      invariant useNext ==> FindFrom(names, oid, walk, startAt) == if i < |names| then Some(i) else None
    {
      var cbData := callbacks[i].oid;
      if useNext { return Some(i), i; }
      var exact := |cbData| == |oid| && cbData == oid;
      if exact {
        if !walk { return Some(i), i; }
        useNext := true;
      } else if walk && |cbData| > |oid| && cbData[..|oid|] == oid {
        return Some(i), i;
      }
      i := i + 1;
    }
    return None, foundAt;
  }

  /** remove_handler on the array of count registered handlers. */
  method RemoveHandler(callbacks: array<ValueCallback?>, count: nat, callback: ValueCallback)
    returns (removed: bool, count': nat, ghost at: nat)
    requires count <= callbacks.Length
    modifies callbacks
    ensures removed == (callback in old(callbacks[..count]))
    ensures !removed ==> count' == count && callbacks[..] == old(callbacks[..])
    ensures removed ==> at < count && old(callbacks[at]) == callback && callback !in old(callbacks[..at])
    ensures removed ==> count' == count - 1 && callbacks[count'] == null
    ensures removed ==> callbacks[..count'] == old(callbacks[..count])[..at] + old(callbacks[..count])[at + 1..]
    ensures callbacks[count..] == old(callbacks[count..])
  {
    var found := -1;
    var i := 0;
    while i < count
      invariant 0 <= i <= count && found == -1 && callback !in callbacks[..i]
    {
      if callbacks[i] == callback { found := i; break; }
      i := i + 1;
    }
    at := 0;
    if found == -1 { return false, count, at; }
    at := found;
    CloseGap(callbacks, count, found);
    OneOut(old(callbacks[..count]), callbacks[..count - 1], found);
    return true, count - 1, at;
  }

  /** The handlers behind the removed one move down, and the last place is cleared. */
  method CloseGap(callbacks: array<ValueCallback?>, count: nat, found: nat)
    requires found < count <= callbacks.Length
    modifies callbacks
    ensures forall x :: 0 <= x < found || count <= x < callbacks.Length ==> callbacks[x] == old(callbacks[x])
    ensures forall x :: found <= x < count - 1 ==> callbacks[x] == old(callbacks[x + 1])
    ensures callbacks[count - 1] == null
  {
    var j := found;
    while j < count - 1
      invariant found <= j <= count - 1
      invariant forall x :: 0 <= x < found || j <= x < callbacks.Length ==> callbacks[x] == old(callbacks[x])
      invariant forall x :: found <= x < j ==> callbacks[x] == old(callbacks[x + 1])
    {
      callbacks[j] := callbacks[j + 1];
      j := j + 1;
    }
    callbacks[count - 1] := null;
  }

  lemma OneOut(before: seq<ValueCallback?>, after: seq<ValueCallback?>, k: nat)
    requires k < |before| == |after| + 1
    requires forall i :: 0 <= i < k ==> after[i] == before[i]
    requires forall i :: k <= i < |after| ==> after[i] == before[i + 1]
    ensures after == before[..k] + before[k + 1..]
  {
    var both := before[..k] + before[k + 1..];
    forall i | 0 <= i < |after| ensures after[i] == both[i] {
      if i < k {
        assert both[i] == before[i];
      } else {
        assert both[i] == before[k + 1..][i - k] == before[k + 1 + (i - k)];
      }
    }
  }

  // ------------------------------------------------------------ meaning of a walk

  /** What sort_handlers leaves: canonical names in strictly increasing arc order. */
  predicate Sorted(names: seq<bytes>) {
    && (forall i :: 0 <= i < |names| ==> Canonical(names[i]))
    && forall i, j :: 0 <= i < j < |names| ==> Before(names[i], names[j])
  }

  predicate Before(x: bytes, y: bytes) {
    Canonical(x) && Canonical(y) && LexLess(Arcs(x), Arcs(y))
  }

  lemma NamesAgree(x: bytes, y: bytes)
    requires Canonical(x) && Canonical(y)
    ensures x < y <==> Arcs(x) < Arcs(y)
    ensures x <= y <==> Arcs(x) <= Arcs(y)
    ensures x == y <==> Arcs(x) == Arcs(y)
  {
    PrefixAgrees(Arcs(x), Arcs(y));
  }

  /** Canonical names under sort_oids: a strict total order. */
  lemma BeforeIsStrictTotal(x: bytes, y: bytes, z: bytes)
    requires Canonical(x) && Canonical(y) && Canonical(z)
    ensures !Before(x, x)
    ensures Before(x, y) || x == y || Before(y, x)
    ensures !(Before(x, y) && Before(y, x))
    ensures Before(x, y) && Before(y, z) ==> Before(x, z)
  {
    LexTrichotomy(Arcs(x), Arcs(y));
    LexTrichotomy(Arcs(x), Arcs(x));
    NamesAgree(x, y);
    if Before(x, y) && Before(y, z) { LexTransitive(Arcs(x), Arcs(y), Arcs(z)); }
  }

  /** The descendants of o stand right behind it: after o, before everything else that is after o. */
  lemma ExtensionBlock(o: bytes, e: bytes, x: bytes)
    requires Canonical(o) && Canonical(e) && Canonical(x) && o < e
    ensures Before(o, e)
    ensures Before(o, x) && !(o <= x) ==> Before(e, x)
    ensures Before(x, o) ==> Before(x, e)
  {
    NamesAgree(o, e);
    NamesAgree(o, x);
    LexPrefix(Arcs(o), Arcs(e), Arcs(x));
  }

  lemma PrefixCases(x: bytes, y: bytes)
    ensures x <= y <==> x < y || x == y
  {}

  /** What sorting leaves is determined by the names alone: two sorted rosters of the same names are the
      same, whichever way the sort went about it. */
  lemma {:induction false} SortedIsUnique(a: seq<bytes>, b: seq<bytes>)
    requires Sorted(a) && Sorted(b) && (forall x :: x in a <==> x in b)
    ensures a == b
    decreases |a|
  {
    hide Before, Sorted;
    assert (a != [] ==> a[0] in b) && (b != [] ==> b[0] in a);
    if a != [] {
      SameLeast(a, b);
      NotInTail(a);
      NotInTail(b);
      SortedIsUnique(a[1..], b[1..]);
      assert a == [a[0]] + a[1..] && b == [b[0]] + b[1..];
    }
  }

  lemma SameLeast(a: seq<bytes>, b: seq<bytes>)
    requires Sorted(a) && Sorted(b) && a != [] && b != [] && a[0] in b && b[0] in a
    ensures a[0] == b[0]
  {
    hide Before, Canonical;
    var i :| 0 <= i < |b| && b[i] == a[0];
    var j :| 0 <= j < |a| && a[j] == b[0];
    BeforeIsStrictTotal(a[0], b[0], a[0]);
  }

  lemma NotInTail(a: seq<bytes>)
    requires Sorted(a) && a != []
    ensures Sorted(a[1..]) && forall x :: x in a[1..] <==> x in a && x != a[0]
  {
    hide Before, Canonical;
    BeforeIsStrictTotal(a[0], a[0], a[0]);
    forall i | 0 <= i < |a[1..]| ensures a[1..][i] != a[0] {
      assert Before(a[0], a[i + 1]);
    }
    forall x | x in a && x != a[0] ensures x in a[1..] {
      var i :| 0 <= i < |a| && a[i] == x;
      assert a[1..][i - 1] == x;
    }
  }

  predicate IsNext(names: seq<bytes>, o: bytes, i: nat) {
    i < |names| && Before(o, names[i]) && forall j :: 0 <= j < i ==> !Before(o, names[j])
  }

  /** o is registered, or an ancestor of something registered. */
  predicate Anchored(names: seq<bytes>, o: bytes) { exists i :: 0 <= i < |names| && o <= names[i] }

  lemma {:induction false} SkipTo(names: seq<bytes>, o: bytes, walk: bool, start: nat, k: nat)
    requires start <= k <= |names|
    requires forall j :: start <= j < k ==> !(o <= names[j])
    ensures FindFrom(names, o, walk, start) == FindFrom(names, o, walk, k)
    decreases k - start
  {
    if start < k {
      assert !(o <= names[start]);
      SkipTo(names, o, walk, start + 1, k);
    }
  }

  /** GET finds the handler of exactly that name. */
  lemma {:induction false} GetIsExact(names: seq<bytes>, o: bytes, start: nat)
    ensures var r := FindFrom(names, o, false, start);
            && (r.Some? ==> names[r.value] == o && forall j :: start <= j < r.value ==> names[j] != o)
            && (r.None? ==> forall j :: start <= j < |names| ==> names[j] != o)
    decreases |names| - start
  {
    if start < |names| && names[start] != o { GetIsExact(names, o, start + 1); }
  }

  /** GETNEXT is the successor: from an anchored name it finds the least registered name after it,
      or nothing when there is none; from any other name it finds nothing. */
  lemma NextIsSuccessor(names: seq<bytes>, o: bytes)
    requires Sorted(names) && Canonical(o)
    ensures var r := FindFrom(names, o, true, 0);
            && (!Anchored(names, o) ==> r.None?)
            && (Anchored(names, o) ==> forall i: nat :: r == Some(i) <==> IsNext(names, o, i))
            && (Anchored(names, o) && r.None? ==> forall j :: 0 <= j < |names| ==> !Before(o, names[j]))
  {
    hide LexLess, Arcs, Canonical, Before;
    if Anchored(names, o) {
      var k := FirstAnchor(names, o, 0);
      SkipTo(names, o, true, 0, k);
      BehindAnchor(names, o, k);
    } else {
      SkipTo(names, o, true, 0, |names|);
    }
  }

  lemma {:induction false} FirstAnchor(names: seq<bytes>, o: bytes, start: nat) returns (k: nat)
    requires exists i :: start <= i < |names| && o <= names[i]
    ensures start <= k < |names| && o <= names[k] && forall j :: start <= j < k ==> !(o <= names[j])
    decreases |names| - start
  {
    if o <= names[start] { return start; }
    k := FirstAnchor(names, o, start + 1);
  }

  lemma BehindAnchor(names: seq<bytes>, o: bytes, k: nat)
    requires Sorted(names) && Canonical(o)
    requires k < |names| && o <= names[k] && forall j :: 0 <= j < k ==> !(o <= names[j])
    ensures var r := FindFrom(names, o, true, k);
            && (forall i: nat :: r == Some(i) <==> IsNext(names, o, i))
            && (r.None? ==> forall j :: 0 <= j < |names| ==> !Before(o, names[j]))
  {
    hide LexLess, Arcs, Canonical, Before;
    assert forall i :: 0 <= i < |names| ==> Canonical(names[i]);
    var next := if names[k] == o then k + 1 else k;
    PrefixCases(o, names[k]);
    forall j | 0 <= j < k ensures !Before(o, names[j]) {
      if Before(o, names[j]) {
        assert Before(names[j], names[k]);
        if names[k] == o {
          BeforeIsStrictTotal(o, names[j], o);
        } else {
          ExtensionBlock(o, names[k], names[j]);
          BeforeIsStrictTotal(names[j], names[k], o);
        }
      }
    }
    BeforeIsStrictTotal(o, o, o);
    if next < |names| {
      if next == k { ExtensionBlock(o, names[k], o); } else { assert Before(names[k], names[k + 1]); }
      assert IsNext(names, o, next);
      assert forall i: nat :: IsNext(names, o, i) ==> i == next;
    }
  }

  /** The foundAt hint is only a speed-up: looking for the successor of handler k from k on finds
      what the lookup from the start finds, and that is handler k + 1. */
  lemma HintIsSpeedUp(names: seq<bytes>, k: nat)
    requires Sorted(names) && k < |names|
    ensures FindFrom(names, names[k], true, k) == FindFrom(names, names[k], true, 0)
    ensures FindFrom(names, names[k], true, k) == if k + 1 < |names| then Some(k + 1) else None
  {
    hide LexLess, Arcs, Canonical, Before;
    forall j | 0 <= j < k ensures !(names[k] <= names[j]) {
      assert Before(names[j], names[k]) && Canonical(names[j]) && Canonical(names[k]);
      BeforeIsStrictTotal(names[j], names[k], names[j]);
      BeforeIsStrictTotal(names[j], names[j], names[j]);
      PrefixCases(names[k], names[j]);
      if names[k] < names[j] { ExtensionBlock(names[k], names[j], names[j]); }
    }
    SkipTo(names, names[k], true, 0, k);
  }

  /** Repeated GETNEXT, at most steps times. */
  function Walked(names: seq<bytes>, o: bytes, steps: nat): seq<nat>
    decreases steps
  {
    if steps == 0 then []
    else
      match FindFrom(names, o, true, 0)
      case None => []
      case Some(i) => [i] + Walked(names, names[i], steps - 1)
  }

  function UpTo(a: nat, b: nat): (r: seq<nat>)
    requires a <= b
    ensures |r| == b - a && forall i :: 0 <= i < |r| ==> r[i] == a + i
  {
    seq(b - a, i requires 0 <= i => a + i)
  }

  /** A walk from an unregistered common ancestor visits every handler exactly once, in order,
      and then ends, however many more times it is repeated. */
  lemma WalkVisitsAll(names: seq<bytes>, o: bytes, steps: nat)
    requires Sorted(names) && names != [] && steps > |names|
    requires forall i :: 0 <= i < |names| ==> o < names[i]
    ensures Walked(names, o, steps) == UpTo(0, |names|)
  {
    hide Sorted, UpTo;
    assert o < names[0];
    assert FindFrom(names, o, true, 0) == Some(0);
    WalkOn(names, 0, steps - 1);
    assert UpTo(0, |names|) == [0] + UpTo(1, |names|);
  }

  lemma {:induction false} WalkOn(names: seq<bytes>, k: nat, steps: nat)
    requires Sorted(names) && k < |names| && steps >= |names| - k
    ensures Walked(names, names[k], steps) == UpTo(k + 1, |names|)
    decreases |names| - k
  {
    hide Sorted, FindFrom, UpTo;
    HintIsSpeedUp(names, k);
    if k + 1 < |names| {
      WalkOn(names, k + 1, steps - 1);
      assert UpTo(k + 1, |names|) == [k + 1] + UpTo(k + 2, |names|);
    }
  }
}
