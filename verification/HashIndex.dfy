// The verifier's chained hash table (reg_hashtable, find_hashtable) and what it refines:
// a map in which the first registration of a (type, path) pair wins.
module HashIndex {
  import opened Bytes
  import opened ProcTable
  import opened Buckets

  const HTABLE_SZ: nat := 1024

  const PICA_ENT_CONF_PROCINFO: int := 1
  const PICA_ENT_CONF_POLICY: int := 3

  datatype Key = Key(kind: int, path: cstring)

  // -------------------------------------------------------- specification

  function FirstBinding<T>(m: map<Key, T>, k: Key, addr: T): map<Key, T>
  {
    if k in m then m else m[k := addr]
  }

  datatype Reg<T> = Reg(key: Key, addr: T)

  /** A run of registrations. */
  function Run<T>(m: map<Key, T>, regs: seq<Reg<T>>): map<Key, T>
  {
    if |regs| == 0 then m
    else FirstBinding(Run(m, regs[..|regs| - 1]), regs[|regs| - 1].key, regs[|regs| - 1].addr)
  }

  ghost predicate FirstAt<T>(regs: seq<Reg<T>>, k: Key, i: nat)
  {
    i < |regs| && regs[i].key == k && forall j :: 0 <= j < i ==> regs[j].key != k
  }

  /** After any run a key is bound iff it was bound before or registered in the run,
      and a key first registered in the run keeps the address of that first registration. */
  lemma {:induction false} FirstRegistrationWins<T>(m: map<Key, T>, regs: seq<Reg<T>>, k: Key)
    ensures k in Run(m, regs) <==> k in m || exists i: nat :: FirstAt(regs, k, i)
    ensures k in m ==> Run(m, regs)[k] == m[k]
    ensures forall i: nat :: FirstAt(regs, k, i) && k !in m ==> Run(m, regs)[k] == regs[i].addr
  {
    if |regs| > 0 {
      var n := |regs| - 1;
      var front := regs[..n];
      FirstRegistrationWins(m, front, k);
      forall i: nat | FirstAt(regs, k, i) ensures i < n ==> FirstAt(front, k, i) {
        if i < n { assert regs[i] == front[i]; }
      }
      forall i: nat | FirstAt(front, k, i) ensures FirstAt(regs, k, i) {
        assert forall j :: 0 <= j <= i ==> regs[j] == front[j];
      }
      if regs[n].key == k && k !in m {
        if !FirstAt(regs, k, n) { FirstExists(regs, k, n); }
      }
    }
  }

  lemma {:induction false} FirstExists<T>(regs: seq<Reg<T>>, k: Key, n: nat)
    requires n < |regs| && regs[n].key == k
    ensures exists i: nat :: i <= n && FirstAt(regs, k, i)
  {
    if !FirstAt(regs, k, n) {
      var j :| 0 <= j < n && regs[j].key == k;
      FirstExists(regs, k, j);
    }
  }

  lemma {:induction false} RunAppend<T>(m: map<Key, T>, a: seq<Reg<T>>, b: seq<Reg<T>>)
    ensures Run(m, a + b) == Run(Run(m, a), b)
  {
    if |b| == 0 {
      assert a + b == a;
    } else {
      RunAppend(m, a, b[..|b| - 1]);
      assert (a + b)[..|a + b| - 1] == a + b[..|b| - 1];
    }
  }

  // -------------------------------------------------------- implementation

  /** struct pica_hentry; `home` and `rank` say in which chain, and where, the node sits. */
  class HEntry<T> {
    var path: CStr
    var kind: int
    var addr: Option<T>
    var next: HEntry?<T>
    ghost var home: nat
    ghost var rank: nat

    constructor (path: CStr, kind: int, addr: Option<T>, ghost home: nat, ghost rank: nat)
      ensures this.path == path && this.kind == kind && this.addr == addr && next == null
      ensures this.home == home && this.rank == rank
    {
      this.path, this.kind, this.addr, next := path, kind, addr, null;
      this.home, this.rank := home, rank;
    }
  }

  /** MurmurHash folded to a slot number; slot 0 is never used, so that hash 0 can mean "empty". */
  function SlotOf(murmur: cstring -> bv32, p: cstring): (h: nat)
    ensures 1 <= h < HTABLE_SZ
  {
    var m := murmur(p);
    var h := (((m >> 16) ^ (m & 0xffff)) as nat) % HTABLE_SZ;
    if h == 0 then 1 else h
  }

  /** The bucket of a key. */
  function Slots(murmur: cstring -> bv32): Key -> nat { (k: Key) => SlotOf(murmur, k.path) }

  class HTable<T> {
    const murmur: cstring -> bv32
    const hash: array<nat>
    const slot: array<HEntry<T>>

    ghost var chain: seq<seq<HEntry<T>>>
    ghost var items: seq<seq<Item<Key, T>>>
    ghost var nodes: set<HEntry<T>>
    ghost var bindings: map<Key, T>

    /** Chain `b` starts at its slot, is linked in order, ends, owns its nodes and holds its items;
        slot hash 0 exactly when the bucket is empty. */
    ghost predicate ChainOk(b: nat)
      requires slot.Length == hash.Length == |chain| == |items| == HTABLE_SZ && b < HTABLE_SZ
      reads this, hash, slot, nodes
    {
      && |chain[b]| > 0 && chain[b][0] == slot[b]
      && (if hash[b] == 0 then |chain[b]| == 1 && items[b] == [] else hash[b] == b && |items[b]| == |chain[b]|)
      && forall i :: 0 <= i < |chain[b]| ==> NodeOk(b, i)
    }

    ghost predicate NodeOk(b: nat, i: nat)
      requires |items| == |chain| && b < |chain| && i < |chain[b]|
      reads this, nodes
    {
      var e := chain[b][i];
      && e in nodes && e.home == b && e.rank == i
      && e.next == (if i + 1 < |chain[b]| then chain[b][i + 1] else null)
      && (i < |items[b]| ==>
            e.kind == items[b][i].key.kind && e.path == Str(items[b][i].key.path) && e.addr == Some(items[b][i].val))
    }

    ghost predicate Valid()
      reads this, hash, slot, nodes
    {
      && slot.Length == hash.Length == |chain| == |items| == HTABLE_SZ && hash as object != slot
      && Indexed(Slots(murmur), HTABLE_SZ, items, bindings)
      && forall b :: 0 <= b < HTABLE_SZ ==> ChainOk(b)
    }

    /** An all-zero table (static storage, or the memset of pica_build_hashtable). */
    constructor (murmur: cstring -> bv32)
      ensures Valid() && fresh(nodes) && fresh(hash) && fresh(slot)
      ensures bindings == map[] && this.murmur == murmur
    {
      this.murmur := murmur;
      hash := new nat[HTABLE_SZ](_ => 0);
      var first := new HEntry<T>(Null, 0, None, 0, 0);
      slot := new HEntry<T>[HTABLE_SZ](_ => first);
      chain, items, nodes, bindings := [], seq(HTABLE_SZ, _ => []), {}, map[];
      new;
      IndexedEmpty<Key, T>(Slots(murmur), HTABLE_SZ);
      hide Indexed;
      var b := 0;
      while b < HTABLE_SZ
        invariant b <= HTABLE_SZ == |slot[..]| && |chain| == b
        invariant bindings == map[] && this.murmur == murmur
        invariant |items| == HTABLE_SZ && (forall k :: 0 <= k < HTABLE_SZ ==> items[k] == [])
        invariant Indexed(Slots(this.murmur), HTABLE_SZ, items, bindings)
        invariant forall k :: 0 <= k < HTABLE_SZ ==> hash[k] == 0
        invariant fresh(nodes)
        invariant forall k :: 0 <= k < b ==>
          chain[k] == [slot[k]] && slot[k] in nodes && slot[k].home == k && slot[k].rank == 0 && slot[k].next == null
        modifies slot, this
      {
        var e := new HEntry<T>(Null, 0, None, b, 0);
        slot[b] := e;
        chain, nodes := chain + [[e]], nodes + {e};
        b := b + 1;
      }
    }

    /** find_hashtable */
    method Find(path: cstring, which: int) returns (r: Option<T>)
      requires Valid()
      ensures r == if Key(which, path) in bindings then Some(bindings[Key(which, path)]) else None
    {
      var h := SlotOf(murmur, path);
      ghost var k := Key(which, path);
      hide Indexed, SlotOf;
      BoundIffListed(Slots(murmur), HTABLE_SZ, items, bindings, k);
      assert ChainOk(h);
      if hash[h] == 0 { return None; }
      var ph: HEntry?<T> := slot[h];
      ghost var i := 0;
      while ph != null
        invariant i <= |chain[h]| && ph == if i < |chain[h]| then chain[h][i] else null
        invariant forall j :: 0 <= j < i ==> items[h][j].key != k
        decreases |chain[h]| - i
      {
        assert NodeOk(h, i);
        if ph.kind == which && ph.path == Str(path) {
          return ph.addr;
        }
        ph := ph.next;
        i := i + 1;
      }
      return None;
    }

    /** reg_hashtable */
    method Reg(which: int, addr: T, path: cstring)
      requires Valid()
      modifies this, hash, nodes
      ensures Valid() && fresh(nodes - old(nodes))
      ensures bindings == FirstBinding(old(bindings), Key(which, path), addr)
    {
      var h := SlotOf(murmur, path);
      ghost var k := Key(which, path);
      hide Indexed, SlotOf;
      BoundIffListed(Slots(murmur), HTABLE_SZ, items, bindings, k);
      assert ChainOk(h);
      if hash[h] == 0 {
        FillSlot(h, which, addr, path);
      } else {
        assert NodeOk(h, 0);
        if slot[h].kind == which && slot[h].path == Str(path) {
        } else {
          var ph := slot[h];
          ghost var i := 0;
          while ph.next != null
            invariant i < |chain[h]| && ph == chain[h][i]
            invariant forall j :: 0 <= j <= i ==> items[h][j].key != k
            decreases |chain[h]| - i
          {
            assert NodeOk(h, i);
            ph := ph.next;
            i := i + 1;
            assert NodeOk(h, i);
            if ph.kind == which && ph.path == Str(path) { return; }
          }
          assert NodeOk(h, i);
          Extend(h, ph, which, addr, path);
        }
      }
    }

    method FillSlot(h: nat, which: int, addr: T, path: cstring)
      requires Valid() && h == SlotOf(murmur, path) && hash[h] == 0
      requires Key(which, path) !in bindings
      modifies this, hash, nodes
      ensures Valid() && nodes == old(nodes)
      ensures bindings == old(bindings)[Key(which, path) := addr]
    {
      hide Indexed, SlotOf;
      assert ChainOk(h) && NodeOk(h, 0);
      var e := slot[h];
      ghost var it := Item(Key(which, path), addr);
      IndexedAppend(Slots(murmur), HTABLE_SZ, items, bindings, it);
      hash[h] := h;
      e.kind := which;
      e.path := Str(path);
      e.addr := Some(addr);
      items := items[h := items[h] + [it]];
      bindings := bindings[it.key := addr];
      forall b | 0 <= b < HTABLE_SZ ensures ChainOk(b) {
        assert old(ChainOk(b));
        forall i | 0 <= i < |chain[b]| ensures NodeOk(b, i) { assert old(NodeOk(b, i)); }
      }
    }

    method Extend(h: nat, ph: HEntry<T>, which: int, addr: T, path: cstring)
      requires Valid() && h == SlotOf(murmur, path) && hash[h] != 0
      requires |chain[h]| > 0 && ph == chain[h][|chain[h]| - 1]
      requires Key(which, path) !in bindings
      modifies this, nodes
      ensures Valid() && fresh(nodes - old(nodes))
      ensures bindings == old(bindings)[Key(which, path) := addr]
    {
      hide Indexed, SlotOf;
      ghost var n := |chain[h]|;
      assert ChainOk(h) && NodeOk(h, n - 1);
      ghost var it := Item(Key(which, path), addr);
      IndexedAppend(Slots(murmur), HTABLE_SZ, items, bindings, it);
      var nent := new HEntry<T>(Str(path), which, Some(addr), h, n);
      ph.next := nent;
      chain := chain[h := chain[h] + [nent]];
      items := items[h := items[h] + [it]];
      nodes := nodes + {nent};
      bindings := bindings[it.key := addr];
      forall b | 0 <= b < HTABLE_SZ ensures ChainOk(b) {
        assert old(ChainOk(b));
        forall i | 0 <= i < |chain[b]| ensures NodeOk(b, i) {
          if b != h || i < n { assert old(NodeOk(b, i)); }
        }
      }
    }
  }
}
