/** ComplexType::fromBuffer against the pool: every node of the tree takes a slot, a child that
    fails is given back, and what was built before a failure is left to the caller's delete. */
module ContainerPool {
  import opened Bytes
  import opened Ber
  import opened Caps
  import opened Containers
  import opened Pool

  /** fromBuffer of a container whose own slot is already taken. Success is exactly what Decode says
      with the free slots the pool has, and every descendant then owns one slot. */
  method FromBuffer(pool: ASNPool, tag: byte, s: bytes, ghost base: set<nat>, ghost baseUsed: nat,
                    ghost owned: seq<nat>)
    returns (r: int, value: Value, kids: seq<Owner>)
    requires IsPrimTag(tag) || IsComplexTag(tag)
    requires pool.Holds(base, baseUsed, owned) && baseUsed + |owned| <= pool.slots.Length
    modifies pool, pool.slots
    ensures pool.slots == old(pool.slots) && pool.doubleReleaseAlarms == old(pool.doubleReleaseAlarms)
    ensures pool.Holds(base, baseUsed, owned + FlatAll(kids))
    ensures var d := Decode(tag, s, pool.slots.Length - baseUsed - |owned|);
            if d.Some? then r == d.value.used && value == d.value.value && |FlatAll(kids)| + 1 == Nodes(value)
            else r < 0
    ensures IsPrimTag(tag) ==> kids == [] && pool.usedCountPeak == old(pool.usedCountPeak)
    decreases |s|, 0
  {
    hide Peek, DecodePrim, DecodeKids, Continues, Rest, FlatAll, NodesAll, ASNPool.Holds;
    kids, value := [], Complex(tag, []);
    NoOwners(owned);
    if IsPrimTag(tag) {
      var p;
      r, p := PrimFromBuffer(tag, s);
      return r, Simple(p), [];
    }
    var peeked := Peek(s);
    if peeked.None? { return -11, value, kids; }
    var j := peeked.value.headerLen;
    var values: seq<Value> := [];
    ghost var free: nat := pool.slots.Length - baseUsed - |owned|;
    ghost var whole := DecodeKids(s[j..], peeked.value.len, 0, free);
    var at := j;
    var remaining: int := peeked.value.len;
    FirstRest(s, j, remaining, free);
    ContinuesStart(whole);
    while remaining > 0
      invariant j <= at && (remaining > 0 ==> at + remaining <= |s|) && pool.slots == old(pool.slots)
      invariant pool.doubleReleaseAlarms == old(pool.doubleReleaseAlarms)
      invariant pool.Holds(base, baseUsed, owned + FlatAll(kids))
      invariant |FlatAll(kids)| == NodesAll(values) <= free
      invariant Continues(whole, values, Rest(s, at, remaining, |values|, free - NodesAll(values)))
      decreases remaining
    {
      ghost var budget: nat := free - NodesAll(values);
      RestFails(s, at, remaining, |values|, budget);
      ContinuesNone(whole, values);
      if |values| >= CHILDREN { return -14, value, kids; }
      var used, child, owner := Child(pool, s[at..], base, baseUsed, owned + FlatAll(kids));
      if used < 0 { return used, value, kids; }
      FlatAppend(kids, owner);
      NodesAppend(values, child);
      Assoc3(owned, FlatAll(kids), Flat(owner));
      KidsNext(s, at, remaining, |values|, budget, Decoded(child, used));
      ContinuesStep(whole, values, [child],
                    Rest(s, at, remaining, |values|, budget),
                    Rest(s, at + used, remaining - used, |values| + 1, budget - Nodes(child)));
      kids := kids + [owner];
      values := values + [child];
      at := at + used;
      remaining := remaining - used;
    }
    RestEnds(s, at, remaining, |values|, free - NodesAll(values));
    ContinuesEnd(whole, values);
    return j + peeked.value.len, Complex(tag, values), kids;
  }

  /** One child: created for the type its first octet announces, decoded, deleted again if that fails. */
  method Child(pool: ASNPool, s: bytes, ghost base: set<nat>, ghost baseUsed: nat, ghost held: seq<nat>)
    returns (used: int, child: Value, owner: Owner)
    requires s != []
    requires pool.Holds(base, baseUsed, held) && baseUsed + |held| <= pool.slots.Length
    modifies pool, pool.slots
    ensures pool.slots == old(pool.slots) && pool.doubleReleaseAlarms == old(pool.doubleReleaseAlarms)
    ensures used < 0 ==> pool.Holds(base, baseUsed, held) && ChildFails(s, pool.slots.Length - baseUsed - |held|)
    ensures used >= 0 ==>
              && pool.Holds(base, baseUsed, held + Flat(owner)) && |Flat(owner)| == Nodes(child)
              && Creatable(s[0]) && baseUsed + |held| < pool.slots.Length
              && Decode(s[0], s, pool.slots.Length - baseUsed - |held| - 1) == Some(Decoded(child, used))
    decreases |s|, 1
  {
    hide ASNPool.Holds, Decode;
    child, owner := Complex(STRUCTURE, []), Owner(0, []);
    if !Creatable(s[0]) { return -14, child, owner; }
    var slot := pool.New(s[0], base, baseUsed, held);
    if slot.None? { return -14, child, owner; }
    var sub;
    used, child, sub := FromBuffer(pool, s[0], s, base, baseUsed, held + [slot.value]);
    owner := Owner(slot.value, sub);
    assert held + [slot.value] + FlatAll(sub) == held + Flat(owner) + [] == held + Flat(owner);
    if used < 0 {
      pool.DeleteTree(owner, base, baseUsed, held, []);
      assert held + [] == held;
      return -13, child, owner;
    }
  }

  predicate ChildFails(s: bytes, free: nat)
    requires s != []
  {
    !Creatable(s[0]) || free == 0 || Decode(s[0], s, free - 1).None?
  }

  lemma NoOwners(owned: seq<nat>)
    ensures FlatAll([]) == [] && NodesAll([]) == 0 && owned + FlatAll([]) == owned
  {}

  lemma Assoc3(a: seq<nat>, b: seq<nat>, c: seq<nat>)
    ensures a + b + c == a + (b + c)
  {}

  /** What is left of the child loop. */
  function Rest(s: bytes, at: nat, remaining: int, n: nat, free: int): Option<seq<Value>> {
    if remaining <= 0 then Some([])
    else if at + remaining <= |s| && free >= 0 then DecodeKids(s[at..], remaining, n, free)
    else None
  }

  lemma FirstRest(s: bytes, at: nat, remaining: nat, free: nat)
    requires at + remaining <= |s|
    ensures Rest(s, at, remaining, 0, free) == DecodeKids(s[at..], remaining, 0, free)
  {}

  lemma RestFails(s: bytes, at: nat, remaining: nat, n: nat, free: nat)
    requires 0 < remaining && at + remaining <= |s|
    ensures n >= CHILDREN || ChildFails(s[at..], free) ==> Rest(s, at, remaining, n, free).None?
  {
    hide Decode;
  }

  lemma RestEnds(s: bytes, at: nat, remaining: int, n: nat, free: int)
    requires remaining <= 0
    ensures Rest(s, at, remaining, n, free) == Some([])
  {}

  lemma KidsNext(s: bytes, at: nat, remaining: nat, n: nat, free: nat, d: Decoded)
    requires 0 < remaining && at + remaining <= |s| && n < CHILDREN && Creatable(s[at]) && free > 0
    requires Decode(s[at], s[at..], free - 1) == Some(d)
    ensures var next := Rest(s, at + d.used, remaining - d.used, n + 1, free - Nodes(d.value));
            Rest(s, at, remaining, n, free) == if next.None? then None else Some([d.value] + next.value)
  {
    hide Decode;
    if d.used < remaining {
      assert s[at..][d.used..] == s[at + d.used..];
    } else {
      assert [d.value] + [] == [d.value];
    }
  }

  lemma {:induction false} FlatAppend(os: seq<Owner>, o: Owner)
    ensures FlatAll(os + [o]) == FlatAll(os) + Flat(o)
  {
    if os == [] {
      assert [o][1..] == [] && FlatAll([o]) == Flat(o) + [];
    } else {
      assert (os + [o])[1..] == os[1..] + [o];
      FlatAppend(os[1..], o);
    }
  }

  lemma {:induction false} NodesAppend(vs: seq<Value>, v: Value)
    ensures NodesAll(vs + [v]) == NodesAll(vs) + Nodes(v)
  {
    if vs == [] {
      assert [v][1..] == [];
    } else {
      assert (vs + [v])[1..] == vs[1..] + [v];
      NodesAppend(vs[1..], v);
    }
  }
}
