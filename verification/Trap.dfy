/** Traps and informs as packets: the tree a send builds from the pool, exactly how many slots it takes to
    build it whole, and the send itself, with all it does to the pool. */
module Trap {
  import opened Bytes
  import opened Ber
  import opened Caps
  import opened Containers
  import opened Roster
  import opened Pool
  import ContainerPool
  import PoolLaws

  /** The encoded names of sysUpTime.0 and snmpTrapOID.0 */
  const TIME_NAME: bytes := [0x2b, 6, 1, 2, 1, 1, 3, 0]
  const TRAP_NAME: bytes := [0x2b, 6, 1, 6, 3, 1, 1, 4, 1, 0]

  /** What a send reads: the trap's fields and the handlers whose values it carries. */
  datatype TrapFields = TrapFields(version: int, community: bytes, inform: bool, oid: Option<bytes>, agentIP: bytes,
                                   generic: int, specific: int, uptime: Option<Handler>, callbacks: seq<Handler>)

  /** A TimestampCallback, bound or not. */
  predicate IsClock(h: Handler) { h.htype == TIMESTAMP && (h.cell.IntCell? || h.cell.NullCell?) }

  type TrapData = t: TrapFields | |t.agentIP| == 4 && (t.uptime.Some? ==> IsClock(t.uptime.value))
    witness TrapFields(0, [], false, None, [0, 0, 0, 0], 0, 0, None, [])

  /** A full list would drop varbinds; the default caps leave room for all of them. */
  predicate Listable(t: TrapData) { |t.callbacks| + 2 <= CHILDREN }

  // --------------------------------------------------- the tree with f slots left

  /** A varbind to build: its name, the value a handler serves, and what stands for it when there is none. */
  datatype Bind = Bind(name: bytes, source: Option<Prim>, default: Prim)

  /** addValueToListRaw of new leaves: without a slot a leaf is left out. */
  function Leaves(ps: seq<Prim>, f: nat): (r: seq<Value>)
    ensures NodesAll(r) == |r| <= f
  {
    if ps == [] || f == 0 then [] else [Simple(ps[0])] + Leaves(ps[1..], f - 1)
  }

  /** A copy of what a handler serves: the served value holds a slot of its own until the copy is made. */
  function Copied(source: Option<Prim>, default: Prim, f: nat): (r: seq<Value>)
    ensures NodesAll(r) == |r| <= f
  {
    if source.None? then Leaves([default], f) else if f < 2 then [] else Leaves([source.value], f)
  }

  function BuildBind(b: Bind, f: nat): (r: Option<Value>)
    ensures r.Some? <==> f > 0
    ensures r.Some? ==> Nodes(r.value) <= f
  {
    if f == 0 then None
    else
      var name := Leaves([POid(b.name)], f - 1);
      var value := Copied(b.source, b.default, f - 1 - |name|);
      NodesConcat(name, value);
      Some(Complex(STRUCTURE, name + value))
  }

  function BuildBinds(bs: seq<Bind>, f: nat): (r: Option<seq<Value>>)
    ensures r.Some? ==> NodesAll(r.value) <= f && |r.value| == |bs|
    decreases bs
  {
    if bs == [] then Some([])
    else
      match BuildBind(bs[0], f)
      case None => None
      case Some(v) =>
        match BuildBinds(bs[1..], f - Nodes(v))
        case None => None
        case Some(rest) => Some([v] + rest)
  }

  lemma {:induction false} NodesConcat(a: seq<Value>, b: seq<Value>)
    ensures NodesAll(a + b) == NodesAll(a) + NodesAll(b)
  {
    if a == [] {
      assert a + b == b;
    } else {
      assert (a + b)[1..] == a[1..] + b;
      NodesConcat(a[1..], b);
    }
  }

  function Served(h: Option<Handler>): Option<Prim> { if h.Some? then ReadCell(h.value) else None }

  const NO_TIME: Prim := PInt(TIMESTAMP, 0)

  function CallbackBinds(hs: seq<Handler>): (r: seq<Bind>)
    ensures |r| == |hs|
  {
    if hs == [] then [] else [Bind(hs[0].oid, ReadCell(hs[0]), PNull(NULLTYPE))] + CallbackBinds(hs[1..])
  }

  /** Time and name, which version 1 carries in its header. */
  function HeadBinds(t: TrapData): seq<Bind>
    requires t.oid.Some?
  {
    if t.version == 0 then []
    else [Bind(TIME_NAME, Served(t.uptime), NO_TIME), Bind(TRAP_NAME, None, POid(t.oid.value))]
  }

  /** The varbinds of a trap that has its name. */
  function Binds(t: TrapData): seq<Bind>
    requires t.oid.Some?
  {
    HeadBinds(t) + CallbackBinds(t.callbacks)
  }

  /** The leaves in front of the varbind list, without the time of a version 1 trap. */
  function Fields(t: TrapData, requestID: int): seq<Prim> {
    if t.version == 0 then
      [POid(if t.oid.Some? then t.oid.value else []), PAddress(t.agentIP), PInt(INTEGER, t.generic),
       PInt(INTEGER, t.specific)]
    else [PInt(INTEGER, requestID), PInt(INTEGER, 0), PInt(INTEGER, 0)]
  }

  function Header(t: TrapData, requestID: int, f: nat): (r: seq<Value>)
    ensures NodesAll(r) <= f
  {
    var fields := Leaves(Fields(t, requestID), f);
    if t.version == 0 then
      var time := Copied(Served(t.uptime), NO_TIME, f - |fields|);
      NodesConcat(fields, time);
      fields + time
    else fields
  }

  /** setInform */
  function PduTag(t: TrapData): byte {
    if t.version == 0 then TRAP_V1 else if t.inform then INFORM_REQUEST else TRAP_V2
  }

  /** The varbind list: the list node, then its varbinds. */
  function BuildList(t: TrapData, f: nat): (r: Option<Value>)
    ensures r.Some? ==> Nodes(r.value) <= f
  {
    if f == 0 || t.oid.None? then None
    else
      match BuildBinds(Binds(t), f - 1)
      case None => None
      case Some(vs) => Some(Complex(STRUCTURE, vs))
  }

  /** The tree, if one is built, and how many slots of an unfinished one nobody frees. */
  datatype Built = Built(tree: Option<Value>, lost: nat)

  /** build with f free slots. */
  function Build(t: TrapData, requestID: int, f: nat): Built {
    if (t.version == 0 && t.oid.None?) || f == 0 then Built(None, 0)
    else
      var head := Leaves([PInt(INTEGER, t.version), POctets(t.community)], f - 1);
      var g := f - 1 - |head|;
      if g == 0 then Built(None, 0)
      else
        var fields := Header(t, requestID, g - 1);
        match BuildList(t, g - 1 - NodesAll(fields))
        case None => Built(None, 1 + NodesAll(fields))
        case Some(list) => Built(Some(Complex(STRUCTURE, head + [Complex(PduTag(t), fields + [list])])), 0)
  }

  // ------------------------------------------------------------- slot counting

  function WholeBind(b: Bind): Value {
    Complex(STRUCTURE, [Simple(POid(b.name)), Simple(if b.source.Some? then b.source.value else b.default)])
  }

  function WholeBinds(bs: seq<Bind>): (r: seq<Value>)
    ensures |r| == |bs|
  {
    if bs == [] then [] else [WholeBind(bs[0])] + WholeBinds(bs[1..])
  }

  function Simples(ps: seq<Prim>): seq<Value> { if ps == [] then [] else [Simple(ps[0])] + Simples(ps[1..]) }

  function WholeHeader(t: TrapData, requestID: int): seq<Value> {
    var time := if Served(t.uptime).Some? then Served(t.uptime).value else NO_TIME;
    Simples(Fields(t, requestID)) + if t.version == 0 then [Simple(time)] else []
  }

  function WholePdu(t: TrapData, requestID: int): Value
    requires t.oid.Some?
  {
    Complex(PduTag(t), WholeHeader(t, requestID) + [Complex(STRUCTURE, WholeBinds(Binds(t)))])
  }

  /** The tree with nothing left out. */
  function WholeTree(t: TrapData, requestID: int): Value
    requires t.oid.Some?
  {
    Complex(STRUCTURE, [Simple(PInt(INTEGER, t.version)), Simple(POctets(t.community)), WholePdu(t, requestID)])
  }

  /** Slots for these varbinds, all of them whole: three each, and one more while the last is copied. */
  function BindsNeed(bs: seq<Bind>): nat {
    if bs == [] then 0
    else if |bs| == 1 then (if bs[0].source.Some? then 4 else 3)
    else 3 + BindsNeed(bs[1..])
  }

  /** Slots with which a list is still built, its last varbinds incomplete. */
  function BindsLow(bs: seq<Bind>): nat {
    if bs == [] then 0
    else if |bs| == 1 then 1
    else if |bs| == 2 then (if bs[0].source.Some? then 3 else 4)
    else 3 + BindsLow(bs[1..])
  }

  function Need(t: TrapData): nat
    requires t.oid.Some?
  {
    (if t.version == 0 then 10 else 8) + BindsNeed(Binds(t))
  }

  function Low(t: TrapData): nat
    requires t.oid.Some?
  {
    if t.version == 0 && t.callbacks == [] then (if Served(t.uptime).Some? then 9 else 10)
    else (if t.version == 0 then 10 else 8) + BindsLow(Binds(t))
  }

  lemma OneLeaf(p: Prim, f: nat)
    ensures Leaves([p], f) == if f == 0 then [] else [Simple(p)]
  {
    assert [p][1..] == [];
  }

  /** Leaves are left out from the end. */
  lemma {:induction false} AllLeaves(ps: seq<Prim>, f: nat)
    ensures |Leaves(ps, f)| == if f < |ps| then f else |ps|
    ensures f >= |ps| ==> Leaves(ps, f) == Simples(ps)
    ensures |Simples(ps)| == |ps|
  {
    if ps != [] {
      AllLeaves(ps[1..], if f > 0 then f - 1 else 0);
    }
  }

  lemma BindSlots(b: Bind, f: nat)
    requires f > 0
    ensures var v := BuildBind(b, f).value;
            && (f >= 4 || (f == 3 && b.source.None?) ==> v == WholeBind(b) && Nodes(v) == 3)
            && (f == 3 && b.source.Some? ==> v != WholeBind(b) && Nodes(v) == 2)
            && (f < 3 ==> v != WholeBind(b) && Nodes(v) == f)
  {
    hide Leaves;
    OneLeaf(POid(b.name), f - 1);
    var name := Leaves([POid(b.name)], f - 1);
    var left := f - 1 - |name|;
    OneLeaf(b.default, left);
    if b.source.Some? { OneLeaf(b.source.value, left); }
    NodesConcat(name, Copied(b.source, b.default, left));
    assert |WholeBind(b).kids| == 2;
  }

  lemma WholeBindsFirst(b: Bind, bs: seq<Bind>)
    ensures WholeBinds([b] + bs) == [WholeBind(b)] + WholeBinds(bs) && WholeBinds([]) == []
  {
    assert ([b] + bs)[1..] == bs;
  }

  lemma SameFirst(x: Value, a: seq<Value>, y: Value, b: seq<Value>)
    ensures [x] + a == [y] + b <==> x == y && a == b
  {
    if [x] + a == [y] + b {
      assert ([x] + a)[0] == x && ([y] + b)[0] == y && ([x] + a)[1..] == a && ([y] + b)[1..] == b;
    }
  }

  lemma {:induction false} BindsSlots(bs: seq<Bind>, f: nat)
    requires bs != []
    ensures BuildBinds(bs, f).Some? <==> f >= BindsLow(bs)
    ensures BuildBinds(bs, f) == Some(WholeBinds(bs)) <==> f >= BindsNeed(bs)
    ensures 1 <= BindsLow(bs) < BindsNeed(bs) <= 3 * |bs| + 1
    ensures |bs| > 1 ==> BindsLow(bs) >= 3
    decreases bs
  {
    hide BuildBind, WholeBind, BuildBinds, WholeBinds;
    var b := bs[0];
    assert bs == [b] + bs[1..];
    BuildBindsFirst(b, bs[1..], f);
    WholeBindsFirst(b, bs[1..]);
    if f > 0 { BindSlots(b, f); }
    var left: nat := if f > 0 then f - Nodes(BuildBind(b, f).value) else 0;
    NoBinds(left);
    if |bs| == 1 {
      assert bs[1..] == [];
    } else {
      BindsSlots(bs[1..], left);
    }
    if f > 0 && BuildBinds(bs[1..], left).Some? {
      SameFirst(BuildBind(b, f).value, BuildBinds(bs[1..], left).value, WholeBind(b), WholeBinds(bs[1..]));
    }
  }

  lemma ListSlots(t: TrapData, f: nat)
    requires t.oid.Some?
    ensures BuildList(t, f).Some? <==> f >= 1 + BindsLow(Binds(t))
    ensures BuildList(t, f) == Some(Complex(STRUCTURE, WholeBinds(Binds(t)))) <==> f >= 1 + BindsNeed(Binds(t))
    ensures if Binds(t) == [] then BindsLow(Binds(t)) == BindsNeed(Binds(t)) == 0
            else 1 <= BindsLow(Binds(t)) < BindsNeed(Binds(t)) <= 3 * |Binds(t)| + 1
  {
    hide Binds;
    if Binds(t) != [] { BindsSlots(Binds(t), if f > 0 then f - 1 else 0); }
  }

  /** The header takes three slots, in version 1 five and one more while the time is copied. */
  lemma HeaderSlots(t: TrapData, requestID: int, f: nat)
    ensures var n := if t.version == 0 then 5 else 3;
            var copying := t.version == 0 && Served(t.uptime).Some?;
            var h := Header(t, requestID, f);
            && |WholeHeader(t, requestID)| == n
            && (f > n || (f == n && !copying) ==> h == WholeHeader(t, requestID) && NodesAll(h) == n)
            && (f == n && copying ==> h != WholeHeader(t, requestID) && NodesAll(h) == n - 1)
            && (f < n ==> h != WholeHeader(t, requestID) && NodesAll(h) == f)
  {
    hide Leaves, Simples, Served;
    var ps := Fields(t, requestID);
    AllLeaves(ps, f);
    var fields := Leaves(ps, f);
    if t.version == 0 {
      var source := Served(t.uptime);
      OneLeaf(NO_TIME, f - |fields|);
      if source.Some? { OneLeaf(source.value, f - |fields|); }
      NodesConcat(fields, Copied(source, NO_TIME, f - |fields|));
    } else {
      assert Simples(ps) + [] == Simples(ps);
    }
  }

  /** A build succeeds exactly from Low slots on, and exactly from Need slots on is the tree whole: in
      between a trap is built, and sent, with something left out. */
  lemma BuildSlots(t: TrapData, requestID: int, f: nat)
    requires t.oid.Some?
    ensures Build(t, requestID, f).tree.Some? <==> f >= Low(t)
    ensures Build(t, requestID, f).tree == Some(WholeTree(t, requestID)) <==> f >= Need(t)
    ensures if t.version == 0 && t.callbacks == [] && Served(t.uptime).None? then Low(t) == Need(t)
            else Low(t) < Need(t)
    ensures Need(t) <= 15 + 3 * |t.callbacks|
    ensures Build(t, requestID, f).lost <= 6
  {
    hide Build, Header, BuildList, Served, WholeHeader, BindsLow, BindsNeed, WholeBinds, WholeTree, WholePdu, Simples;
    BuildParts(t, requestID, f);
    WholeParts(t, requestID);
    var g := if f > 4 then f - 4 else 0;
    HeaderSlots(t, requestID, g);
    var fields := Header(t, requestID, g);
    var left := g - NodesAll(fields);
    ListSlots(t, left);
    var list := BuildList(t, left);
    if list.Some? {
      SameEnd(fields, list.value, WholeHeader(t, requestID), Complex(STRUCTURE, WholeBinds(Binds(t))));
      SameEnd(Front(t), Complex(PduTag(t), fields + [list.value]), Front(t), WholePdu(t, requestID));
    }
  }

  /** Version and community. */
  function Front(t: TrapData): seq<Value> { Simples([PInt(INTEGER, t.version), POctets(t.community)]) }

  /** The root, version, community and PDU take four slots, the header and the list what is left. */
  lemma BuildParts(t: TrapData, requestID: int, f: nat)
    requires t.oid.Some?
    ensures f <= 4 ==> Build(t, requestID, f).tree.None? && Build(t, requestID, f).lost <= 1
    ensures f > 4 ==>
              var fields := Header(t, requestID, f - 4);
              var list := BuildList(t, f - 4 - NodesAll(fields));
              && Build(t, requestID, f).lost <= 1 + NodesAll(fields)
              && Build(t, requestID, f).tree ==
                 if list.None? then None
                 else Some(Complex(STRUCTURE, Front(t) + [Complex(PduTag(t), fields + [list.value])]))
  {
    hide Leaves, Header, Served;
    AllLeaves([PInt(INTEGER, t.version), POctets(t.community)], if f > 0 then f - 1 else 0);
  }

  lemma WholeParts(t: TrapData, requestID: int)
    requires t.oid.Some?
    ensures WholeTree(t, requestID) == Complex(STRUCTURE, Front(t) + [WholePdu(t, requestID)])
    ensures WholePdu(t, requestID) ==
            Complex(PduTag(t), WholeHeader(t, requestID) + [Complex(STRUCTURE, WholeBinds(Binds(t)))])
  {
    TwoSimples(PInt(INTEGER, t.version), POctets(t.community));
  }

  lemma SameEnd(a: seq<Value>, x: Value, b: seq<Value>, y: Value)
    ensures a + [x] == b + [y] <==> a == b && x == y
  {
    if a + [x] == b + [y] {
      assert (a + [x])[..|a|] == a && (b + [y])[..|b|] == b && |a| == |b|;
      assert (a + [x])[|a|] == x && (b + [y])[|b|] == y;
    }
  }

  lemma TwoSimples(a: Prim, b: Prim)
    ensures Simples([a, b]) == [Simple(a), Simple(b)]
  {
    assert [a, b][1..] == [b] && [b][1..] == [];
    assert Simples([b]) == [Simple(b)] + Simples([]);
  }

  /** The last value is left out when the slots are one short of Need: the trap is built, and sent, without it. */
  lemma PartialTrap(t: TrapData, requestID: int)
    requires t.oid.Some? && (t.version != 0 || t.callbacks != [])
    ensures var tree := Build(t, requestID, Need(t) - 1).tree;
            tree.Some? && tree.value != WholeTree(t, requestID)
  {
    hide WholeTree, Build;
    BuildSlots(t, requestID, Need(t) - 1);
  }

  /** The slots the configuration reserves for a trap of up to reserve varbinds are enough: with the derived
      pool and a baseline within the handler cap its tree is always whole. */
  lemma ReserveIsEnough(t: TrapData, requestID: int, reserve: nat, callbacks: nat, baseline: nat)
    requires t.oid.Some? && |t.callbacks| <= reserve && baseline <= callbacks
    ensures var f := PoolLaws.DerivedPool(16 + 3 * reserve, callbacks) - baseline;
            Build(t, requestID, f) == Built(Some(WholeTree(t, requestID)), 0)
  {
    hide WholeTree;
    BuildSlots(t, requestID, PoolLaws.DerivedPool(16 + 3 * reserve, callbacks) - baseline);
  }

  // ----------------------------------------------------------- against the pool

  /** asn_new and addValueToListRaw of one leaf. */
  method AddLeaf(pool: ASNPool, p: Prim, ghost base: set<nat>, ghost used: nat, ghost held: seq<nat>)
    returns (kid: seq<Value>, own: seq<Owner>)
    requires pool.Holds(base, used, held) && used + |held| <= pool.slots.Length
    modifies pool, pool.slots
    ensures pool.slots == old(pool.slots) && pool.doubleReleaseAlarms == old(pool.doubleReleaseAlarms)
    ensures pool.SameBaseline(old(pool.permCount), old(pool.permFrozen))
    ensures pool.Holds(base, used, held + FlatAll(own)) && |FlatAll(own)| == |kid|
    ensures kid == Leaves([p], pool.slots.Length - used - |held|)
  {
    hide ASNPool.Holds, Leaves;
    OneLeaf(p, pool.slots.Length - used - |held|);
    var slot := pool.New(PrimTag(p), base, used, held);
    if slot.None? {
      NoOwned(held);
      return [], [];
    }
    OneOwned(slot.value);
    return [Simple(p)], [Owner(slot.value, [])];
  }

  lemma NoOwned(held: seq<nat>)
    ensures held + FlatAll([]) == held && FlatAll([]) == []
  {}

  lemma OneOwned(slot: nat)
    ensures FlatAll([Owner(slot, [])]) == [slot]
  {
    assert [Owner(slot, [])][1..] == [];
    assert Flat(Owner(slot, [])) == [slot] + FlatAll([]);
  }

  /** Several of them, one after the other. */
  method AddLeaves(pool: ASNPool, ps: seq<Prim>, ghost base: set<nat>, ghost used: nat, ghost held: seq<nat>)
    returns (kids: seq<Value>, owns: seq<Owner>)
    requires pool.Holds(base, used, held) && used + |held| <= pool.slots.Length
    modifies pool, pool.slots
    ensures pool.slots == old(pool.slots) && pool.doubleReleaseAlarms == old(pool.doubleReleaseAlarms)
    ensures pool.SameBaseline(old(pool.permCount), old(pool.permFrozen))
    ensures pool.Holds(base, used, held + FlatAll(owns)) && |FlatAll(owns)| == |kids|
    ensures kids == Leaves(ps, pool.slots.Length - used - |held|)
    decreases |ps|
  {
    hide ASNPool.Holds, FlatAll, Leaves;
    if ps == [] {
      NoOwned(held);
      NoLeaves(pool.slots.Length - used - |held|);
      return [], [];
    }
    var kid, own := AddLeaf(pool, ps[0], base, used, held);
    LeavesFirst(ps, pool.slots.Length - used - |held|);
    var rest, more := AddLeaves(pool, ps[1..], base, used, held + FlatAll(own));
    kids, owns := kid + rest, own + more;
    FlatConcat(own, more);
    assert held + FlatAll(own) + FlatAll(more) == held + (FlatAll(own) + FlatAll(more));
  }

  lemma NoLeaves(f: nat)
    ensures Leaves([], f) == []
  {}

  lemma LeavesFirst(ps: seq<Prim>, f: nat)
    requires ps != []
    ensures Leaves(ps, f) == Leaves([ps[0]], f) + Leaves(ps[1..], f - |Leaves([ps[0]], f)|)
  {
    OneLeaf(ps[0], f);
  }

  lemma {:induction false} FlatConcat(a: seq<Owner>, b: seq<Owner>)
    ensures FlatAll(a + b) == FlatAll(a) + FlatAll(b)
  {
    if a == [] {
      assert a + b == b;
    } else {
      assert (a + b)[1..] == a[1..] + b;
      FlatConcat(a[1..], b);
    }
  }

  /** getValueForCallback and the copy made of what it returns, which is deleted again afterwards. */
  method AddCopy(pool: ASNPool, callback: Option<Handler>, default: Prim, ghost base: set<nat>, ghost used: nat,
                 ghost held: seq<nat>)
    returns (kid: seq<Value>, own: seq<Owner>)
    requires pool.Holds(base, used, held) && used + |held| <= pool.slots.Length
    modifies pool, pool.slots
    ensures pool.slots == old(pool.slots) && pool.doubleReleaseAlarms == old(pool.doubleReleaseAlarms)
    ensures pool.SameBaseline(old(pool.permCount), old(pool.permFrozen))
    ensures pool.Holds(base, used, held + FlatAll(own)) && |FlatAll(own)| == |kid|
    ensures kid == Copied(Served(callback), default, pool.slots.Length - used - |held|)
  {
    hide ASNPool.Holds, Leaves, FlatAll;
    ghost var free: nat := pool.slots.Length - used - |held|;
    OneLeaf(default, free);
    NoOwned(held);
    var source := None;
    if callback.Some? && !callback.value.cell.NullCell? {
      var slot := pool.New(callback.value.htype, base, used, held);
      source := ReadCell(callback.value);
      if slot.None? { return [], []; }
      if source.Some? {
        OneLeaf(source.value, free);
        OneLeaf(source.value, free - 1);
        kid, own := AddLeaf(pool, source.value, base, used, held + [slot.value]);
        pool.Delete(slot.value, base, used, held, FlatAll(own));
        return;
      }
      assert held + [slot.value] == held + [slot.value] + [] && held + [] == held;
      pool.Delete(slot.value, base, used, held, []);
    }
    kid, own := AddLeaf(pool, default, base, used, held);
  }

  /** One varbind: its node, its name and a copy of its value. */
  method AddBind(pool: ASNPool, name: bytes, callback: Option<Handler>, default: Prim, ghost base: set<nat>,
                 ghost used: nat, ghost held: seq<nat>)
    returns (varBind: Option<Value>, own: seq<Owner>)
    requires pool.Holds(base, used, held) && used + |held| <= pool.slots.Length
    modifies pool, pool.slots
    ensures pool.slots == old(pool.slots) && pool.doubleReleaseAlarms == old(pool.doubleReleaseAlarms)
    ensures pool.SameBaseline(old(pool.permCount), old(pool.permFrozen))
    ensures pool.Holds(base, used, held + FlatAll(own))
    ensures |FlatAll(own)| == if varBind.Some? then Nodes(varBind.value) else 0
    ensures varBind == BuildBind(Bind(name, Served(callback), default), pool.slots.Length - used - |held|)
  {
    hide ASNPool.Holds, Leaves, FlatAll, Copied, Served;
    NoOwned(held);
    var node := pool.New(STRUCTURE, base, used, held);
    if node.None? { return None, []; }
    var a, x := AddLeaf(pool, POid(name), base, used, held + [node.value]);
    var b, y := AddCopy(pool, callback, default, base, used, held + [node.value] + FlatAll(x));
    varBind := Some(Complex(STRUCTURE, a + b));
    own := [Owner(node.value, x + y)];
    NodesConcat(a, b);
    FlatConcat(x, y);
    NodeFlat(node.value, x + y);
    assert held + [node.value] + FlatAll(x) + FlatAll(y) == held + ([node.value] + (FlatAll(x) + FlatAll(y)));
  }

  lemma NodeFlat(slot: nat, kids: seq<Owner>)
    ensures FlatAll([Owner(slot, kids)]) == [slot] + FlatAll(kids)
  {
    assert [Owner(slot, kids)][1..] == [];
    assert Flat(Owner(slot, kids)) + [] == Flat(Owner(slot, kids));
  }

  /** The varbind loop. What was built before a failure stays with the caller. */
  method AddCallbacks(pool: ASNPool, callbacks: seq<Handler>, ghost base: set<nat>, ghost used: nat,
                      ghost held: seq<nat>)
    returns (ok: bool, varBinds: seq<Value>, owns: seq<Owner>)
    requires pool.Holds(base, used, held) && used + |held| <= pool.slots.Length
    modifies pool, pool.slots
    ensures pool.slots == old(pool.slots) && pool.doubleReleaseAlarms == old(pool.doubleReleaseAlarms)
    ensures pool.SameBaseline(old(pool.permCount), old(pool.permFrozen))
    ensures pool.Holds(base, used, held + FlatAll(owns))
    ensures var r := BuildBinds(CallbackBinds(callbacks), pool.slots.Length - used - |held|);
            ok == r.Some? && (ok ==> varBinds == r.value && |FlatAll(owns)| == NodesAll(varBinds))
  {
    hide ASNPool.Holds, FlatAll, BuildBind, BuildBinds, CallbackBinds, Continues, NodesAll;
    varBinds, owns := [], [];
    ghost var free: nat := pool.slots.Length - used - |held|;
    ghost var whole := BuildBinds(CallbackBinds(callbacks), free);
    NoOwned(held);
    NoBinds(free);
    ContinuesStart(whole);
    assert callbacks[0..] == callbacks;
    var i := 0;
    while i < |callbacks|
      invariant 0 <= i <= |callbacks| && pool.slots == old(pool.slots)
      invariant pool.doubleReleaseAlarms == old(pool.doubleReleaseAlarms)
      invariant pool.SameBaseline(old(pool.permCount), old(pool.permFrozen))
      invariant pool.Holds(base, used, held + FlatAll(owns)) && |FlatAll(owns)| == NodesAll(varBinds) <= free
      invariant Continues(whole, varBinds, BuildBinds(CallbackBinds(callbacks[i..]), free - NodesAll(varBinds)))
    {
      var h := callbacks[i];
      ghost var left: nat := free - NodesAll(varBinds);
      var varBind, own := AddBind(pool, h.oid, Some(h), PNull(NULLTYPE), base, used, held + FlatAll(owns));
      BindsStep(whole, varBinds, callbacks, i, left);
      if varBind.None? {
        assert FlatAll(own) == [] && held + FlatAll(owns) + [] == held + FlatAll(owns);
        return false, varBinds, owns;
      }
      OneNode(varBind.value);
      NodesConcat(varBinds, [varBind.value]);
      FlatConcat(owns, own);
      assert held + FlatAll(owns) + FlatAll(own) == held + (FlatAll(owns) + FlatAll(own));
      varBinds := varBinds + [varBind.value];
      owns := owns + own;
      i := i + 1;
    }
    assert callbacks[i..] == [];
    NoBinds(free - NodesAll(varBinds));
    ContinuesEnd(whole, varBinds);
    return true, varBinds, owns;
  }

  lemma NoBinds(f: nat)
    ensures CallbackBinds([]) == [] && BuildBinds([], f) == Some([]) && NodesAll([]) == 0
  {}

  lemma OneNode(v: Value)
    ensures NodesAll([v]) == Nodes(v)
  {
    assert [v][1..] == [];
  }

  lemma BindsStep(whole: Option<seq<Value>>, done: seq<Value>, callbacks: seq<Handler>, i: nat, f: nat)
    requires i < |callbacks| && Continues(whole, done, BuildBinds(CallbackBinds(callbacks[i..]), f))
    ensures var h := callbacks[i];
            var v := BuildBind(Bind(h.oid, Served(Some(h)), PNull(NULLTYPE)), f);
            && (v.None? ==> whole == None)
            && (v.Some? ==> Continues(whole, done + [v.value],
                                      BuildBinds(CallbackBinds(callbacks[i + 1..]), f - Nodes(v.value))))
  {
    hide BuildBind, BuildBinds, CallbackBinds, Continues;
    var h := callbacks[i];
    var b := Bind(h.oid, Served(Some(h)), PNull(NULLTYPE));
    assert callbacks[i..][0] == h && callbacks[i..][1..] == callbacks[i + 1..];
    CallbackBindsFirst(callbacks[i..]);
    BuildBindsFirst(b, CallbackBinds(callbacks[i + 1..]), f);
    ContinuesNone(whole, done);
    var v := BuildBind(b, f);
    if v.Some? {
      ContinuesStep(whole, done, [v.value], BuildBinds(CallbackBinds(callbacks[i..]), f),
                    BuildBinds(CallbackBinds(callbacks[i + 1..]), f - Nodes(v.value)));
    }
  }

  lemma CallbackBindsFirst(hs: seq<Handler>)
    requires hs != []
    ensures CallbackBinds(hs) == [Bind(hs[0].oid, Served(Some(hs[0])), PNull(NULLTYPE))] + CallbackBinds(hs[1..])
  {}

  lemma BuildBindsFirst(b: Bind, bs: seq<Bind>, f: nat)
    ensures var v := BuildBind(b, f);
            BuildBinds([b] + bs, f) ==
            if v.None? then None
            else
              var rest := BuildBinds(bs, f - Nodes(v.value));
              if rest.None? then None else Some([v.value] + rest.value)
  {
    hide BuildBind;
    assert ([b] + bs)[1..] == bs;
  }

  /** The two varbinds every version 2c trap starts with. */
  method AddHeads(pool: ASNPool, t: TrapData, ghost base: set<nat>, ghost used: nat, ghost held: seq<nat>)
    returns (ok: bool, varBinds: seq<Value>, owns: seq<Owner>)
    requires pool.Holds(base, used, held) && used + |held| <= pool.slots.Length
    requires t.oid.Some? && t.version != 0
    modifies pool, pool.slots
    ensures pool.slots == old(pool.slots) && pool.doubleReleaseAlarms == old(pool.doubleReleaseAlarms)
    ensures pool.SameBaseline(old(pool.permCount), old(pool.permFrozen))
    ensures pool.Holds(base, used, held + FlatAll(owns))
    ensures var r := BuildBinds(HeadBinds(t), pool.slots.Length - used - |held|);
            ok == r.Some? && (ok ==> varBinds == r.value && |FlatAll(owns)| == NodesAll(varBinds))
  {
    hide ASNPool.Holds, FlatAll, BuildBind, BuildBinds, HeadBinds, NodesAll;
    ghost var free: nat := pool.slots.Length - used - |held|;
    ghost var a, b := Bind(TIME_NAME, Served(t.uptime), NO_TIME), Bind(TRAP_NAME, Served(None), POid(t.oid.value));
    assert HeadBinds(t) == [a] + ([b] + []) by { HeadsAre(t); }
    BuildBindsFirst(a, [b] + [], free);
    var first, x := AddBind(pool, TIME_NAME, t.uptime, NO_TIME, base, used, held);
    if first.None? { return false, [], x; }
    BuildBindsFirst(b, [], free - Nodes(first.value));
    var second, y := AddBind(pool, TRAP_NAME, None, POid(t.oid.value), base, used, held + FlatAll(x));
    owns := x + y;
    FlatConcat(x, y);
    assert held + FlatAll(x) + FlatAll(y) == held + (FlatAll(x) + FlatAll(y));
    if second.None? { return false, [], owns; }
    ok, varBinds := true, [first.value, second.value];
    NoBinds(free - Nodes(first.value) - Nodes(second.value));
    TwoNodes(first.value, second.value);
  }

  lemma HeadsAre(t: TrapData)
    requires t.oid.Some? && t.version != 0
    ensures HeadBinds(t) ==
            [Bind(TIME_NAME, Served(t.uptime), NO_TIME)] + ([Bind(TRAP_NAME, Served(None), POid(t.oid.value))] + [])
  {}

  lemma TwoNodes(a: Value, b: Value)
    ensures [a] + ([b] + []) == [a, b] && NodesAll([a, b]) == Nodes(a) + Nodes(b)
  {
    OneNode(b);
    assert [a, b][1..] == [b];
  }

  /** All the varbinds. What was built before a failure stays with the caller. */
  method AddVarBinds(pool: ASNPool, t: TrapData, ghost base: set<nat>, ghost used: nat, ghost held: seq<nat>)
    returns (ok: bool, varBinds: seq<Value>, owns: seq<Owner>)
    requires pool.Holds(base, used, held) && used + |held| <= pool.slots.Length && t.oid.Some? && Listable(t)
    modifies pool, pool.slots
    ensures pool.slots == old(pool.slots) && pool.doubleReleaseAlarms == old(pool.doubleReleaseAlarms)
    ensures pool.SameBaseline(old(pool.permCount), old(pool.permFrozen))
    ensures pool.Holds(base, used, held + FlatAll(owns))
    ensures var r := BuildBinds(Binds(t), pool.slots.Length - used - |held|);
            ok == r.Some? && (ok ==> varBinds == r.value && |FlatAll(owns)| == NodesAll(varBinds))
  {
    hide ASNPool.Holds, FlatAll, BuildBinds, CallbackBinds, Served, HeadBinds, NodesAll;
    ghost var free: nat := pool.slots.Length - used - |held|;
    BindsSplit(HeadBinds(t), CallbackBinds(t.callbacks), free);
    NoOwned(held);
    NoHeads(t, free);
    ok, varBinds, owns := true, [], [];
    if t.version != 0 { ok, varBinds, owns := AddHeads(pool, t, base, used, held); }
    if !ok { return; }
    var more, kids;
    ghost var first := FlatAll(owns);
    ok, more, kids := AddCallbacks(pool, t.callbacks, base, used, held + first);
    FlatConcat(owns, kids);
    assert held + first + FlatAll(kids) == held + (first + FlatAll(kids));
    NodesConcat(varBinds, more);
    varBinds, owns := varBinds + more, owns + kids;
  }

  lemma NoHeads(t: TrapData, f: nat)
    requires t.oid.Some?
    ensures t.version == 0 ==> BuildBinds(HeadBinds(t), f) == Some([])
    ensures NodesAll([]) == 0
  {}

  /** SNMPTrap::generateVarBindListRaw: a list that cannot be finished is deleted again. */
  method AddList(pool: ASNPool, t: TrapData, ghost base: set<nat>, ghost used: nat, ghost held: seq<nat>)
    returns (list: Option<Value>, own: seq<Owner>)
    requires pool.Holds(base, used, held) && used + |held| <= pool.slots.Length && Listable(t)
    modifies pool, pool.slots
    ensures pool.slots == old(pool.slots) && pool.doubleReleaseAlarms == old(pool.doubleReleaseAlarms)
    ensures pool.SameBaseline(old(pool.permCount), old(pool.permFrozen))
    ensures pool.Holds(base, used, held + FlatAll(own))
    ensures |FlatAll(own)| == if list.Some? then Nodes(list.value) else 0
    ensures list == BuildList(t, pool.slots.Length - used - |held|)
  {
    hide ASNPool.Holds, FlatAll, BuildBinds, Binds;
    NoOwned(held);
    var node := pool.New(STRUCTURE, base, used, held);
    if node.None? { return None, []; }
    if t.oid.None? {
      assert held + [node.value] == held + [node.value] + [] && held + [] == held;
      pool.Delete(node.value, base, used, held, []);
      return None, [];
    }
    var ok, varBinds, owns := AddVarBinds(pool, t, base, used, held + [node.value]);
    own := [Owner(node.value, owns)];
    NodeFlat(node.value, owns);
    assert held + [node.value] + FlatAll(owns) == held + ([node.value] + FlatAll(owns));
    if !ok {
      OnlyFlat(own[0]);
      assert held + FlatAll(own) == held + Flat(own[0]) + [] && held + [] == held;
      pool.DeleteTree(own[0], base, used, held, []);
      return None, [];
    }
    list := Some(Complex(STRUCTURE, varBinds));
  }

  lemma OnlyFlat(o: Owner)
    ensures FlatAll([o]) == Flat(o)
  {
    NodeFlat(o.slot, o.kids);
    assert [o] == [Owner(o.slot, o.kids)];
  }

  lemma {:induction false} BindsSplit(a: seq<Bind>, b: seq<Bind>, f: nat)
    ensures var x := BuildBinds(a, f);
            BuildBinds(a + b, f) ==
            if x.None? then None
            else var y := BuildBinds(b, f - NodesAll(x.value)); if y.None? then None else Some(x.value + y.value)
    decreases a
  {
    hide BuildBind, BuildBinds, NodesAll;
    if a == [] {
      assert a + b == b;
      NoBinds(f);
      var y := BuildBinds(b, f);
      if y.Some? { assert [] + y.value == y.value; }
    } else {
      assert a == [a[0]] + a[1..] && a + b == [a[0]] + (a[1..] + b);
      BuildBindsFirst(a[0], a[1..], f);
      BuildBindsFirst(a[0], a[1..] + b, f);
      var v := BuildBind(a[0], f);
      if v.Some? {
        BindsSplit(a[1..], b, f - Nodes(v.value));
        var rest := BuildBinds(a[1..], f - Nodes(v.value));
        if rest.Some? {
          OneNode(v.value);
          NodesConcat([v.value], rest.value);
          var y := BuildBinds(b, f - Nodes(v.value) - NodesAll(rest.value));
          if y.Some? { assert [v.value] + rest.value + y.value == [v.value] + (rest.value + y.value); }
        }
      }
    }
  }

  method AddHeader(pool: ASNPool, t: TrapData, requestID: int, ghost base: set<nat>, ghost used: nat,
                   ghost held: seq<nat>)
    returns (kids: seq<Value>, owns: seq<Owner>)
    requires pool.Holds(base, used, held) && used + |held| <= pool.slots.Length
    modifies pool, pool.slots
    ensures pool.slots == old(pool.slots) && pool.doubleReleaseAlarms == old(pool.doubleReleaseAlarms)
    ensures pool.SameBaseline(old(pool.permCount), old(pool.permFrozen))
    ensures pool.Holds(base, used, held + FlatAll(owns)) && |FlatAll(owns)| == NodesAll(kids)
    ensures kids == Header(t, requestID, pool.slots.Length - used - |held|)
  {
    hide ASNPool.Holds, FlatAll, Leaves, Copied, Served, Fields;
    kids, owns := AddLeaves(pool, Fields(t, requestID), base, used, held);
    if t.version == 0 {
      var time, own := AddCopy(pool, t.uptime, NO_TIME, base, used, held + FlatAll(owns));
      NodesConcat(kids, time);
      FlatConcat(owns, own);
      assert held + FlatAll(owns) + FlatAll(own) == held + (FlatAll(owns) + FlatAll(own));
      kids, owns := kids + time, owns + own;
    }
  }

  /** The slots of a packet tree. */
  function PacketSlots(packet: Option<Owner>): seq<nat> { if packet.Some? then Flat(packet.value) else [] }

  /** _build_pdu_envelope: the packet gets its root at once and the PDU only when that is finished. A PDU without
      its list belongs to nobody: its slots are lost until the next reset. */
  method BuildEnvelope(pool: ASNPool, t: TrapData, requestID: int, ghost base: set<nat>, ghost used: nat)
    returns (packet: Option<Owner>, tree: Option<Value>, ghost lost: seq<nat>)
    requires pool.Holds(base, used, []) && used <= pool.slots.Length && (t.version == 0 ==> t.oid.Some?) && Listable(t)
    modifies pool, pool.slots
    ensures pool.slots == old(pool.slots) && pool.doubleReleaseAlarms == old(pool.doubleReleaseAlarms)
    ensures pool.SameBaseline(old(pool.permCount), old(pool.permFrozen))
    ensures pool.Holds(base, used, PacketSlots(packet) + lost)
    ensures Build(t, requestID, pool.slots.Length - used) == Built(tree, |lost|)
    ensures tree.Some? ==> packet.Some? && |Flat(packet.value)| == Nodes(tree.value) && lost == []
  {
    hide ASNPool.Holds, FlatAll, NodesAll, Leaves, Header, BuildList;
    packet, tree, lost := None, None, [];
    NoOwned([]);
    var root := pool.New(STRUCTURE, base, used, []);
    assert [] + [] == ([] + lost);
    if root.None? { return; }
    var head, x := AddLeaves(pool, [PInt(INTEGER, t.version), POctets(t.community)], base, used, [] + [root.value]);
    packet := Some(Owner(root.value, x));
    ghost var held := [root.value] + FlatAll(x);
    assert [] + [root.value] + FlatAll(x) == held == held + [];
    var pdu := pool.New(PduTag(t), base, used, held);
    if pdu.None? { return; }
    var fields, y := AddHeader(pool, t, requestID, base, used, held + [pdu.value]);
    var list, z := AddList(pool, t, base, used, held + [pdu.value] + FlatAll(y));
    if list.None? {
      lost := [pdu.value] + FlatAll(y);
      assert held + [pdu.value] + FlatAll(y) + FlatAll(z) == held + lost;
      return;
    }
    WholeFlat(root.value, x, pdu.value, y, z);
    WholeNodes(head, PduTag(t), fields, list.value);
    packet := Some(Owner(root.value, x + [Owner(pdu.value, y + z)]));
    tree := Some(Complex(STRUCTURE, head + [Complex(PduTag(t), fields + [list.value])]));
    assert PacketSlots(packet) + [] == PacketSlots(packet);
  }

  lemma WholeNodes(head: seq<Value>, tag: byte, fields: seq<Value>, list: Value)
    ensures Nodes(Complex(STRUCTURE, head + [Complex(tag, fields + [list])])) ==
            2 + NodesAll(head) + NodesAll(fields) + Nodes(list)
  {
    hide NodesAll;
    NodesConcat(fields, [list]);
    OneNode(list);
    NodesConcat(head, [Complex(tag, fields + [list])]);
    OneNode(Complex(tag, fields + [list]));
  }

  lemma WholeFlat(root: nat, x: seq<Owner>, pdu: nat, y: seq<Owner>, z: seq<Owner>)
    ensures [root] + FlatAll(x) + [pdu] + FlatAll(y) + FlatAll(z) == Flat(Owner(root, x + [Owner(pdu, y + z)]))
  {
    hide FlatAll;
    FlatConcat(y, z);
    NodeFlat(pdu, y + z);
    FlatConcat(x, [Owner(pdu, y + z)]);
    var a, b, c := FlatAll(x), FlatAll(y), FlatAll(z);
    assert [root] + a + [pdu] + b + c == [root] + (a + ([pdu] + (b + c)));
  }

  /** The octets of a send with f free slots: those of the tree, if one is built, and fits. */
  function SentOctets(t: TrapData, requestID: int, f: nat, max: nat): Option<bytes> {
    var tree := Build(t, requestID, f).tree;
    if tree.Some? && |Enc(ValueTlv(tree.value))| <= max then Some(Enc(ValueTlv(tree.value))) else None
  }

  /** serialise into the packet buffer, which has spare octets for the open headers. */
  method SerialiseTree(tree: Value, max: nat) returns (wire: Option<bytes>)
    ensures wire == if |Enc(ValueTlv(tree))| <= max then Some(Enc(ValueTlv(tree))) else None
  {
    hide Enc, ValueTlv, Depth;
    var buffer := new byte[max + 2 + Depth(ValueTlv(tree))];
    var length := Serialise(buffer, 0, max, tree);
    EncStart(ValueTlv(tree));
    return if length > 0 then Some(buffer[..length]) else None;
  }

  // ------------------------------------------------------- deleting a packet

  function Free(st: State): nat { if st.used <= |st.slots| then |st.slots| - st.used else 0 }

  /** asn_delete(packet), where stands is the tree at the slot it refers to. */
  function PacketDeleted(st: State, packet: Option<nat>, stands: Owner): State {
    if packet.None? then st else Deleted(st, stands)
  }

  /** A reference that has outlived its object: its slot is free, by no reset. */
  predicate Dangling(st: State, k: nat) { k < |st.slots| && !st.slots[k].occupied && !st.slots[k].bulkFreed }

  /** What deleting through a reference does. A live tree, whosever it is, is given back. Of a free slot, the
      delete is silent if a reset freed it or the slot has been warned about, and otherwise an alarm. */
  lemma DeleteOutcome(st: State, stands: Owner)
    requires stands.slot < |st.slots|
    ensures st.slots[stands.slot].occupied && NoDup(Flat(stands)) && Quiet(st, Flat(stands)) ==>
              Erased(st, Deleted(st, stands), Flat(stands))
    ensures !st.slots[stands.slot].occupied && !Dangling(st, stands.slot) ==> Deleted(st, stands) == st
    ensures Dangling(st, stands.slot) ==>
              Deleted(st, stands) ==
              if st.slots[stands.slot].warned then st
              else st.(slots := st.slots[stands.slot := st.slots[stands.slot].(warned := true)],
                       alarms := st.alarms + 1)
  {
    hide NoDup, Erased, FlatAll, DeletedAll;
    if st.slots[stands.slot].occupied && NoDup(Flat(stands)) && Quiet(st, Flat(stands)) { DeletedIs(st, stands); }
  }

  /** The alarms that deleting slot k raises. */
  function Alarm(st: State, k: nat): nat { if Dangling(st, k) && !st.slots[k].warned then 1 else 0 }

  function Below(n: nat): (s: set<nat>)
    ensures forall k: nat :: k in s <==> k < n
  {
    if n == 0 then {} else Below(n - 1) + {n - 1}
  }

  /** A frozen pool none of whose permanent objects has been deleted. */
  predicate Settled(st: State) {
    st.frozen && st.perm <= |st.slots| && forall k :: 0 <= k < st.perm ==> st.slots[k].occupied
  }

  /** A reset and the deletion of a packet above the baseline leave exactly the baseline. The deletion raises
      an alarm exactly when the reference was dangling before the reset, and the slot had not been warned about. */
  lemma ResetAndDelete(st: State, packet: Option<nat>, stands: Owner)
    requires Settled(st) && (packet.Some? ==> st.perm <= stands.slot < |st.slots|)
    ensures var r := PacketDeleted(Step(st, Reset), packet, stands);
            && |r.slots| == |st.slots| && LiveSet(r) == Below(st.perm) && r.used == r.perm == st.perm && r.frozen
            && r.alarms == st.alarms + if packet.Some? then Alarm(st, stands.slot) else 0
  {
    var m := Step(st, Reset);
    assert m.slots == Swept(st.slots, st.perm);
    if packet.Some? { DeleteOutcome(m, stands); }
  }

  /** From st to r: the same pool, plus the slots in owned. */
  predicate Grown(st: State, r: State, owned: seq<nat>) {
    && Holding(r, LiveSet(st), st.used, owned) && |r.slots| == |st.slots|
    && r.alarms == st.alarms && r.perm == st.perm && r.frozen == st.frozen
  }

  lemma HeldIsGrown(pool: ASNPool, st: State, owned: seq<nat>)
    requires st.used >= 0 && pool.Holds(LiveSet(st), st.used, owned) && pool.slots.Length == |st.slots|
    requires pool.doubleReleaseAlarms == st.alarms && pool.SameBaseline(st.perm, st.frozen)
    ensures pool.Valid() && Grown(st, pool.Abs(), owned)
  {}

  /** A whole tree above what was there is given back. */
  lemma Shrunk(st: State, m: State, o: Owner, lost: seq<nat>)
    requires Grown(st, m, Flat(o) + lost)
    ensures Grown(st, Deleted(m, o), lost)
  {
    hide FlatAll, DeletedAll, Deleted;
    var all := Flat(o) + lost;
    NoDupParts(Flat(o), lost);
    assert forall k :: k in Flat(o) ==> k in all;
    assert forall k :: k in lost ==> k in all;
    DeletedIs(m, o);
  }

  lemma {:induction false} CountOwned(a: seq<Slot>, b: seq<Slot>, owned: seq<nat>)
    requires |a| == |b| && NoDup(owned)
    requires forall k :: k in owned ==> k < |a| && !a[k].occupied
    requires forall k :: 0 <= k < |a| ==> (b[k].occupied <==> a[k].occupied || k in owned)
    ensures Occupied(b) == Occupied(a) + |owned|
    decreases |owned|
  {
    if owned == [] {
      SameCount(a, b);
    } else {
      var k := owned[0];
      NoDupParts([k], owned[1..]);
      assert owned == [k] + owned[1..];
      assert forall j :: j in owned <==> j == k || j in owned[1..];
      assert k in owned;
      var c := a[k := a[k].(occupied := true)];
      CountUpdate(a, k, c[k]);
      CountOwned(c, b, owned[1..]);
    }
  }

  lemma {:induction false} SameCount(a: seq<Slot>, b: seq<Slot>)
    requires |a| == |b| && forall k :: 0 <= k < |a| ==> (a[k].occupied <==> b[k].occupied)
    ensures Occupied(a) == Occupied(b)
  {
    if a != [] { SameCount(a[..|a| - 1], b[..|b| - 1]); }
  }

  /** From the pool st, a tree of n slots built on top, the reset of its send, and that tree deleted. Nothing of it
      is an alarm. In a settled pool exactly the baseline is left. In a pool that was never frozen the reset takes
      the tree for a part of the baseline: its slots are free again afterwards, but the baseline counts them. */
  predicate Between(st: State, r: State, n: nat) {
    && |r.slots| == |st.slots| && r.alarms == st.alarms && r.frozen && r.used <= r.perm
    && (st.frozen ==> r.perm == st.perm)
    && (Settled(st) ==> LiveSet(r) == Below(st.perm) && r.used == st.perm)
    && (!st.frozen ==> LiveSet(r) == LiveSet(st) && r.used == r.perm - n && r.perm >= Occupied(st.slots) + n)
  }

  lemma BetweenBuilds(st: State, m: State, o: Owner)
    requires Inv(m) && Grown(st, m, Flat(o))
    ensures Between(st, Deleted(Step(m, Reset), o), |Flat(o)|)
  {
    hide FlatAll, DeletedAll, Deleted, Occupied, Warned;
    var w := Step(m, Reset);
    var f := if m.frozen then m else Frozen(m);
    assert w.slots == Swept(m.slots, f.perm);
    CountBounds(m.slots);
    DeletedIs(w, o);
    var r := Deleted(w, o);
    if !st.frozen {
      CountOwned(st.slots, m.slots, Flat(o));
      assert AllLive(w, Flat(o));
    }
    if Settled(st) {
      assert forall k :: 0 <= k < st.perm ==> k in LiveSet(st);
      RootFirst(o);
      SettledSweep(st, m, o);
    }
  }

  /** A trap sent before the first reset: unless the baseline is frozen again by hand, every later reset counts the
      slots of its tree as permanent, beside those of all that was there. */
  lemma EarlyTrap(st: State, r: State, end: State, n: nat, ops: seq<Op>)
    requires !st.frozen && Between(st, r, n) && Grown(r, end, []) && Freeze !in ops
    ensures var later := Step(Run(end, ops), Reset);
            |later.slots| == |st.slots| && later.used == later.perm == end.perm >= Occupied(st.slots) + n
  {
    hide Occupied;
    FrozenStays(end, ops);
  }

  lemma {:induction false} FrozenStays(st: State, ops: seq<Op>)
    requires st.frozen && Freeze !in ops
    ensures var r := Run(st, ops); r.frozen && r.perm == st.perm && |r.slots| == |st.slots|
    decreases ops
  {
    if ops != [] {
      assert ops[0] in ops;
      FrozenStays(Step(st, ops[0]), ops[1..]);
    }
  }

  lemma GrownSelf(st: State)
    ensures Grown(st, st, [])
  {}

  lemma OwnTree(st: State, m: State, o: Owner, lost: seq<nat>)
    requires Grown(st, m, Flat(o) + lost)
    ensures IsTree(o, |m.slots|)
  {
    NoDupParts(Flat(o), lost);
    assert forall k :: k in Flat(o) ==> k in Flat(o) + lost;
  }

  lemma RootFirst(o: Owner)
    ensures o.slot in Flat(o)
  {}

  lemma SettledSweep(st: State, m: State, o: Owner)
    requires Settled(st) && Grown(st, m, Flat(o))
    ensures var r := Deleted(Step(m, Reset), o); LiveSet(r) == Below(st.perm) && r.used == st.perm
  {
    hide FlatAll, DeletedAll;
    RootFirst(o);
    assert forall k :: 0 <= k < st.perm ==> k in LiveSet(st);
    assert m.slots[o.slot].occupied && o.slot >= st.perm;
    assert Settled(m);
    ResetAndDelete(m, Some(o.slot), o);
  }

  class SNMPTrap {
    const data: TrapData
    var requestID: int
    var packet: Option<nat>

    constructor (data: TrapData)
      ensures this.data == data && packet == None
    {
      this.data, requestID, packet := data, 0, None;
    }

    /** stands is the tree at the slot packet points to: the trap's own, or what has been put there since. */
    ghost predicate PointsTo(pool: ASNPool, stands: Owner)
      reads this, pool
    {
      packet.Some? ==> packet.value == stands.slot && IsTree(stands, pool.slots.Length)
    }

    /** asn_delete of the packet tree. */
    method DeletePacket(pool: ASNPool, stands: Owner)
      requires pool.Valid() && PointsTo(pool, stands)
      modifies this`packet, pool, pool.slots
      ensures packet == None && pool.Valid() && pool.slots == old(pool.slots)
      ensures pool.Abs() == PacketDeleted(old(pool.Abs()), old(packet), stands)
    {
      if packet.Some? { pool.AsnDelete(stands); }
      packet := None;
    }

    /** buildForSending without a new id: the old tree is deleted, the new one built. Without its name a version 1
        trap is not built at all, and keeps its old packet. */
    method Rebuild(pool: ASNPool, stands: Owner)
      returns (tree: Option<Value>, own: Option<Owner>, ghost lost: seq<nat>)
      requires pool.Valid() && PointsTo(pool, stands) && Listable(data)
      modifies this`packet, pool, pool.slots
      ensures pool.Valid() && pool.slots == old(pool.slots)
      ensures data.version == 0 && data.oid.None? ==>
                packet == old(packet) && pool.Abs() == old(pool.Abs()) && tree.None? && own.None? && lost == []
      ensures !(data.version == 0 && data.oid.None?) ==>
                var st := PacketDeleted(old(pool.Abs()), old(packet), stands);
                && packet == (if own.Some? then Some(own.value.slot) else None)
                && Grown(st, pool.Abs(), PacketSlots(own) + lost)
                && Build(data, requestID, Free(st)) == Built(tree, |lost|)
                && (tree.Some? ==> own.Some? && |Flat(own.value)| == Nodes(tree.value) && lost == [])
    {
      hide ASNPool.Holds, Inv, Build, Flat, IsTree;
      tree, own, lost := None, None, [];
      if data.version == 0 && data.oid.None? { return; }
      DeletePacket(pool, stands);
      ghost var st := pool.Abs();
      NothingExtra(pool);
      own, tree, lost := BuildEnvelope(pool, data, requestID, LiveSet(st), st.used);
      HeldIsGrown(pool, st, PacketSlots(own) + lost);
      packet := if own.Some? then Some(own.value.slot) else None;
    }

    /** releasePoolState: the packet just built, own, is deleted, or whatever stands at the slot of the old one. */
    method ReleasePoolState(pool: ASNPool, stands: Owner, own: Option<Owner>, ghost st: State, ghost lost: seq<nat>)
      requires pool.Valid()
      requires own.Some? ==> packet == Some(own.value.slot) && Grown(st, pool.Abs(), PacketSlots(own) + lost)
      requires own.None? && packet.None? ==> Grown(st, pool.Abs(), PacketSlots(own) + lost)
      requires own.None? && packet.Some? ==>
                 PointsTo(pool, stands) && st == PacketDeleted(pool.Abs(), packet, stands) && lost == []
      modifies this`packet, pool, pool.slots
      ensures packet == None && pool.Valid() && pool.slots == old(pool.slots) && Grown(st, pool.Abs(), lost)
    {
      hide Inv, Grown, Deleted, IsTree, Flat;
      if own.Some? {
        OwnTree(st, pool.Abs(), own.value, lost);
        Shrunk(st, pool.Abs(), own.value, lost);
        DeletePacket(pool, own.value);
      } else {
        NoPacket(lost);
        GrownSelf(st);
        DeletePacket(pool, stands);
      }
    }

    /** What is on the wire, and what is reported, when the pool st was left for the build. */
    ghost predicate Outcome(st: State, connected: bool, delivered: bool, max: nat, sent: bool, wire: Option<bytes>,
                            lost: nat)
      reads this
    {
      && lost == Build(data, requestID, Free(st)).lost
      && wire == (if connected then SentOctets(data, requestID, Free(st), max) else None)
      && sent == (wire.Some? && delivered)
    }

    /** sendTo: everything transient in the pool is reset, what the packet points to is deleted, and a fresh tree is
        built, serialised and given back. What goes out is the tree the slots free after the deletion allow.
        Afterwards the pool is as it was after the deletion, but for the slots of a PDU that could not be
        finished, and only the deletion can have raised an alarm. */
    method SendTo(pool: ASNPool, stands: Owner, skipBuild: bool, newId: int, connected: bool, delivered: bool, max: nat)
      returns (sent: bool, wire: Option<bytes>, ghost lost: seq<nat>)
      requires pool.Valid() && PointsTo(pool, stands) && Listable(data)
      modifies this, pool, pool.slots
      ensures packet == None && requestID == if skipBuild then old(requestID) else newId
      ensures pool.Valid() && pool.slots == old(pool.slots)
      ensures var st := PacketDeleted(Step(old(pool.Abs()), Reset), old(packet), stands);
              Grown(st, pool.Abs(), lost) && Outcome(st, connected, delivered, max, sent, wire, |lost|)
      ensures Settled(old(pool.Abs())) && (old(packet).Some? ==> old(pool.permCount) <= stands.slot) ==>
                && pool.doubleReleaseAlarms == old(pool.doubleReleaseAlarms) +
                     (if old(packet).Some? then Alarm(old(pool.Abs()), stands.slot) else 0)
                && Holding(pool.Abs(), Below(old(pool.permCount)), old(pool.permCount), lost)
                && pool.SameBaseline(old(pool.permCount), true)
    {
      hide Inv, Grown, Step, Settled, Alarm, Below, Holding, PacketDeleted, IsTree, Outcome;
      ghost var before, first := pool.Abs(), packet;
      pool.ResetAll();
      if !skipBuild { requestID := newId; }
      sent, wire, lost := RebuildAndSend(pool, stands, connected, delivered, max);
      SettledSend(before, first, stands, pool.Abs(), lost);
    }

    /** What sendTo does after its reset. */
    method RebuildAndSend(pool: ASNPool, stands: Owner, connected: bool, delivered: bool, max: nat)
      returns (sent: bool, wire: Option<bytes>, ghost lost: seq<nat>)
      requires pool.Valid() && PointsTo(pool, stands) && Listable(data)
      modifies this`packet, pool, pool.slots
      ensures packet == None && pool.Valid() && pool.slots == old(pool.slots)
      ensures var st := PacketDeleted(old(pool.Abs()), old(packet), stands);
              Grown(st, pool.Abs(), lost) && Outcome(st, connected, delivered, max, sent, wire, |lost|)
    {
      hide Inv, Build, Grown, Deleted, IsTree, Flat, Enc, ValueTlv;
      ghost var st := PacketDeleted(pool.Abs(), packet, stands);
      GrownSelf(st);
      NoPacket([]);
      if data.version == 0 && data.oid.None? { Unnamed(data, requestID, Free(st)); }
      var tree, own;
      tree, own, lost := Rebuild(pool, stands);
      sent, wire := false, None;
      if connected && tree.Some? {
        wire := SerialiseTree(tree.value, max);
        sent := wire.Some? && delivered;
      }
      ReleasePoolState(pool, stands, own, st, lost);
    }

    /** queue_and_send_trap as the trap sees it: what the packet points to is deleted and a first tree built, under
        a new id. The send then resets the pool under that tree and builds it again, a plain trap under another
        new id; r is the pool left for that second build. An inform that finds no place in the queue is not
        sent: its tree, kept, stays in the pool and the packet goes on pointing there, through any reset. */
    method BuildAndSend(pool: ASNPool, stands: Owner, newId: int, newerId: int, queued: bool, connected: bool,
                        delivered: bool, max: nat)
      returns (built: bool, sent: bool, wire: Option<bytes>, kept: Option<Owner>, ghost lost: seq<nat>, ghost r: State)
      requires pool.Valid() && PointsTo(pool, stands) && Listable(data)
      modifies this, pool, pool.slots
      ensures pool.Valid() && pool.slots == old(pool.slots)
      ensures requestID == if built && !data.inform then newerId else newId
      ensures var st := PacketDeleted(old(pool.Abs()), old(packet), stands);
              var first := Build(data, newId, Free(st));
              && built == first.tree.Some? && pool.doubleReleaseAlarms == st.alarms
              && (!built ==>
                    packet == None && Grown(st, pool.Abs(), lost) && |lost| == first.lost && !sent && wire == None)
              && (built && data.inform && !queued ==>
                    && kept.Some? && packet == Some(kept.value.slot) && Grown(st, pool.Abs(), Flat(kept.value))
                    && |Flat(kept.value)| == Nodes(first.tree.value) && !sent && wire == None)
              && (built && (queued || !data.inform) ==>
                    && packet == None && Between(st, r, Nodes(first.tree.value)) && Grown(r, pool.Abs(), lost)
                    && Outcome(r, connected, delivered, max, sent, wire, |lost|))
    {
      hide Inv, Build, Grown, Deleted, IsTree, Flat, SentOctets, Between;
      requestID := newId;
      ghost var st := PacketDeleted(pool.Abs(), packet, stands);
      GrownSelf(st);
      NoPacket([]);
      if data.version == 0 && data.oid.None? { Unnamed(data, newId, Free(st)); }
      var tree;
      tree, kept, lost := Rebuild(pool, stands);
      built, sent, wire, r := tree.Some?, false, None, st;
      if !built {
        ReleasePoolState(pool, stands, kept, st, lost);
        GrownAlarms(st, pool.Abs(), lost);
        return;
      }
      assert PacketSlots(kept) + [] == Flat(kept.value);
      GrownAlarms(st, pool.Abs(), Flat(kept.value));
      if data.inform && !queued { return; }
      OwnTree(st, pool.Abs(), kept.value, []);
      BetweenBuilds(st, pool.Abs(), kept.value);
      r := Deleted(Step(pool.Abs(), Reset), kept.value);
      BetweenAlarms(st, r, Nodes(tree.value));
      sent, wire, lost := SendTo(pool, kept.value, data.inform, newerId, connected, delivered, max);
      GrownAlarms(r, pool.Abs(), lost);
    }
  }

  lemma NoPacket(lost: seq<nat>)
    ensures PacketSlots(None) + lost == lost
  {}

  lemma Unnamed(t: TrapData, requestID: int, f: nat)
    requires t.version == 0 && t.oid.None?
    ensures Build(t, requestID, f) == Built(None, 0)
  {}

  lemma GrownAlarms(st: State, r: State, owned: seq<nat>)
    requires Grown(st, r, owned)
    ensures r.alarms == st.alarms
  {}

  /** A send in a settled pool. */
  lemma SettledSend(st: State, packet: Option<nat>, stands: Owner, end: State, lost: seq<nat>)
    requires packet.Some? ==> IsTree(stands, |st.slots|)
    requires Grown(PacketDeleted(Step(st, Reset), packet, stands), end, lost)
    ensures Settled(st) && (packet.Some? ==> st.perm <= stands.slot) ==>
              && end.alarms == st.alarms + (if packet.Some? then Alarm(st, stands.slot) else 0)
              && Holding(end, Below(st.perm), st.perm, lost) && end.perm == st.perm && end.frozen
  {
    hide Step, Settled, Alarm, Below, PacketDeleted, Deleted, FlatAll;
    RootFirst(stands);
    if Settled(st) && (packet.Some? ==> st.perm <= stands.slot) { ResetAndDelete(st, packet, stands); }
  }

  lemma BetweenAlarms(st: State, r: State, n: nat)
    requires Between(st, r, n)
    ensures r.alarms == st.alarms
  {}
}
