/** The derived pool size is enough: with the handlers' permanent objects within their cap, no
    request of primitive values ever sees the pool run dry. */
module PoolLaws {
  import opened Bytes
  import opened Ber
  import opened Caps
  import opened Containers
  import opened BerView
  import opened Roster
  import opened Handling
  import opened PlanFacts

  /** SNMP_POOL_ASN_OBJECTS: the larger of the trap tree and two slots a varbind, the idle margin, and
      one slot a handler. */
  function DerivedPool(trapTree: nat, callbacks: nat): nat { Max(trapTree, 2 * VB) + 4 + callbacks }

  lemma {:induction false} DecodeEnough(vbs: seq<ReqVb>, f: nat, g: nat)
    requires AllPrim(vbs) && f >= |vbs| && g >= |vbs|
    ensures DecodeValues(vbs, f) == DecodeValues(vbs, g)
  {
    hide DecodeValue, DecodeValues;
    if vbs == [] {
      NoValues(f);
      NoValues(g);
    } else {
      assert IsPrimTag(vbs[0].tag);
      PrimEnough(vbs[0], f, g);
      DecodeUnfold(vbs, f);
      DecodeUnfold(vbs, g);
      if DecodeValue(vbs[0], f).Some? { DecodeEnough(vbs[1..], f - 1, g - 1); }
    }
  }

  lemma PrimEnough(vb: ReqVb, f: nat, g: nat)
    requires IsPrimTag(vb.tag) && f > 0 && g > 0
    ensures DecodeValue(vb, f) == DecodeValue(vb, g)
    ensures DecodeValue(vb, f).Some? ==> Nodes(DecodeValue(vb, f).value) == 1
  {
    hide DecodePrim;
  }

  lemma {:induction false} GetsEnough(store: seq<Handler>, version: int, vbs: seq<ReqVb>, next: bool, room: nat,
                                      f: nat, g: nat)
    requires f > room && g > room
    ensures Gets(store, version, vbs, next, room, f) == Gets(store, version, vbs, next, room, g)
    decreases vbs
  {
    hide GetRow, Gets, OidOk;
    if vbs == [] {
      GetsDone(store, version, next, room, f);
      GetsDone(store, version, next, room, g);
    } else {
      GetRowEnough(store, version, vbs[0], next, f, g);
      GetsUnfold(store, version, vbs, next, room, f);
      GetsUnfold(store, version, vbs, next, room, g);
      var row := GetRow(store, version, vbs[0], next, f);
      if room > 0 { GetsEnough(store, version, vbs[1..], next, room - 1, f - Cost(row), g - Cost(row)); }
    }
  }

  lemma GetRowEnough(store: seq<Handler>, version: int, vb: ReqVb, next: bool, f: nat, g: nat)
    requires f > 0 && g > 0
    ensures GetRow(store, version, vb, next, f) == GetRow(store, version, vb, next, g)
  {
    hide FindFrom, ReadCell;
  }

  lemma NonRepeaterRowEnough(store: seq<Handler>, vb: ReqVb, f: nat, g: nat)
    requires f > 0 && g > 0
    ensures NonRepeaterRow(store, vb, f) == NonRepeaterRow(store, vb, g)
  {
    hide FindFrom, ReadCell;
  }

  lemma SetRowEnough(store: seq<Handler>, version: int, vb: ReqVb, value: Value, rest: Residue, f: nat, g: nat)
    requires f > 0 && g > 0
    ensures SetRow(store, version, vb, value, rest, f) == SetRow(store, version, vb, value, rest, g)
  {
    hide FindFrom, ReadCell, SetHandler;
  }

  lemma {:induction false} NonRepeatersEnough(store: seq<Handler>, vbs: seq<ReqVb>, room: nat, f: nat, g: nat)
    requires f > room && g > room
    ensures NonRepeaters(store, vbs, room, f) == NonRepeaters(store, vbs, room, g)
    ensures var r := NonRepeaters(store, vbs, room, f); r.Some? ==> CostAll(r.value) <= |r.value| <= room
    decreases vbs
  {
    hide NonRepeaterRow, NonRepeaters, OidOk, CostAll;
    var r := NonRepeaters(store, vbs, room, f);
    if r.Some? { CostAtMost(r.value); }
    if vbs == [] {
      NonRepeatersDone(store, room, f);
      NonRepeatersDone(store, room, g);
    } else {
      NonRepeaterRowEnough(store, vbs[0], f, g);
      NonRepeatersUnfold(store, vbs, room, f);
      NonRepeatersUnfold(store, vbs, room, g);
      var row := NonRepeaterRow(store, vbs[0], f);
      if room > 0 { NonRepeatersEnough(store, vbs[1..], room - 1, f - Cost(row), g - Cost(row)); }
    }
  }

  lemma {:induction false} RepeatEnough(store: seq<Handler>, cursor: bytes, foundAt: nat, reps: nat, room: nat, f: nat,
                                        g: nat)
    requires f > room && g > room
    ensures Repeat(store, cursor, foundAt, reps, room, f) == Repeat(store, cursor, foundAt, reps, room, g)
    ensures var r := Repeat(store, cursor, foundAt, reps, room, f); r.Some? ==> CostAll(r.value) <= |r.value| <= room
    decreases reps
  {
    hide FindFrom, ReadCell, OidOk;
    if reps > 0 {
      var found := FindFrom(Names(store), cursor, true, foundAt);
      if found.Some? && ReadCell(store[found.value]).Some? && room > 0 {
        RepeatEnough(store, store[found.value].oid, found.value, reps - 1, room - 1, f - 1, g - 1);
      }
      var r := Repeat(store, cursor, foundAt, reps, room, f);
      if r.Some? { CostAtMost(r.value); }
    }
  }

  lemma {:induction false} RepeatersEnough(store: seq<Handler>, vbs: seq<ReqVb>, reps: nat, room: nat, f: nat, g: nat)
    requires f > room && g > room
    ensures Repeaters(store, vbs, reps, room, f) == Repeaters(store, vbs, reps, room, g)
    decreases vbs
  {
    hide Repeat, OidOk, CostAll;
    if vbs != [] {
      RepeatEnough(store, vbs[0].oid, 0, reps, room, f, g);
      var r := Repeat(store, vbs[0].oid, 0, reps, room, f);
      if r.Some? {
        RepeatersEnough(store, vbs[1..], reps, room - |r.value|, f - CostAll(r.value), g - CostAll(r.value));
      }
    }
  }

  lemma BulkEnough(store: seq<Handler>, q: Request, f: nat, g: nat)
    requires f > VB && g > VB
    ensures Bulk(store, q, f) == Bulk(store, q, g)
  {
    hide NonRepeaters, Repeaters, CostAll;
    var nonRepeaters := U32(q.errorStatus);
    var n := if nonRepeaters < |q.vbs| then nonRepeaters else |q.vbs|;
    NonRepeatersEnough(store, q.vbs[..n], VB, f, g);
    var first := NonRepeaters(store, q.vbs[..n], VB, f);
    if first.Some? {
      RepeatersEnough(store, q.vbs[n..], U32(q.errorIndex), VB - |first.value|, f - CostAll(first.value),
                      g - CostAll(first.value));
    }
  }

  lemma {:induction false} SetsEnough(store: seq<Handler>, version: int, vbs: seq<ReqVb>, values: seq<Value>,
                                      memory: Memory, at: nat, room: nat, f: nat, g: nat)
    requires f > room && g > room && |values| == |vbs|
    ensures Sets(store, version, vbs, values, memory, at, room, f)
            == Sets(store, version, vbs, values, memory, at, room, g)
    decreases vbs
  {
    hide SetRow, Sets, OidOk;
    if vbs == [] {
      SetsDone(store, version, memory, at, room, f);
      SetsDone(store, version, memory, at, room, g);
    } else {
      SetRowEnough(store, version, vbs[0], values[0], memory(at), f, g);
      SetsUnfold(store, version, vbs, values, memory, at, room, f);
      SetsUnfold(store, version, vbs, values, memory, at, room, g);
      var (row, next) := SetRow(store, version, vbs[0], values[0], memory(at), f);
      if room > 0 {
        SetsEnough(next, version, vbs[1..], values[1..], memory, at + 1, room - 1, f - Cost(row), g - Cost(row));
      }
    }
  }

  lemma StageEnough(permission: Permission, store: seq<Handler>, q: Request, values: seq<Value>, memory: Memory,
                    f: nat, g: nat)
    requires f > VB && g > VB && |values| == |q.vbs|
    ensures Stage(permission, store, q, values, memory, f) == Stage(permission, store, q, values, memory, g)
  {
    hide Gets, Bulk, Sets;
    GetsEnough(store, q.version, q.vbs, q.pduType == GETNEXT_REQUEST, VB, f, g);
    BulkEnough(store, q, f, g);
    SetsEnough(store, q.version, q.vbs, values, memory, 0, VB, f, g);
  }

  /** Two slots a varbind and one more: beyond that the outcome no longer depends on the pool. */
  lemma Enough(cfg: Settings, store: seq<Handler>, memory: Memory, f: nat, g: nat, s: bytes)
    requires PrimitiveRequest(s)
    requires f > 2 * VB && g > 2 * VB
    ensures Handle(cfg, store, memory, f, s) == Handle(cfg, store, memory, g, s)
  {
    hide Walk, DecodeValues, Stage, Answer, PermissionOf, AllPrim;
    var lo, hi, cuts := WalkSound(s);
    if Walk(s).value.count <= VB {
      var q := Read(s, Walk(s).value);
      DecodeEnough(q.vbs, f, g);
      if DecodeValues(q.vbs, f).Some? {
        var values := DecodeValues(q.vbs, f).value;
        PrimNodes(q.vbs, f);
        StageEnough(PermissionOf(cfg, q.community), store, q, values, memory, f - |q.vbs|, g - |q.vbs|);
      }
    }
  }

  /** With the derived pool and a baseline within the handler cap, every request of primitive values is
      handled as it would be with any larger pool. */
  lemma NeverDry(cfg: Settings, store: seq<Handler>, memory: Memory, trapTree: nat, callbacks: nat, baseline: nat,
                 larger: nat, s: bytes)
    requires PrimitiveRequest(s)
    requires baseline <= callbacks && larger >= DerivedPool(trapTree, callbacks)
    ensures Handle(cfg, store, memory, DerivedPool(trapTree, callbacks) - baseline, s) ==
            Handle(cfg, store, memory, larger - baseline, s)
  {
    hide Handle, PrimitiveRequest;
    Enough(cfg, store, memory, DerivedPool(trapTree, callbacks) - baseline, larger - baseline, s);
  }
}
