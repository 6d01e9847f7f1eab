// The attester's measurements: the per-path digest cache (find_hashentry, sha256_file) and the list
// of a process's shared libraries built through it (path_exists, add_path, sha256_libs).
module Measure {
  import opened Bytes
  import opened ProcTable
  import opened Buckets

  const FP_HTABLE_SZ: nat := 512

  // -------------------------------------------------------- specification

  /** A call: the cache key, and what opening and hashing the file yields at that moment. */
  datatype Call = Call(key: cstring, measured: Option<digest>)

  function CacheAfter(cache: map<cstring, digest>, c: Call): map<cstring, digest>
  {
    if c.key in cache then cache
    else cache[c.key := if c.measured.Some? then c.measured.value else ZeroDigest()]
  }

  /** The digest a call delivers; None is its failure return. */
  function Answer(cache: map<cstring, digest>, c: Call): Option<digest>
  {
    if c.key in cache then Some(cache[c.key]) else c.measured
  }

  function CacheRun(calls: seq<Call>, n: nat): map<cstring, digest>
    requires n <= |calls|
  {
    if n == 0 then map[] else CacheAfter(CacheRun(calls, n - 1), calls[n - 1])
  }

  ghost predicate FirstCall(calls: seq<Call>, key: cstring, i: nat)
  {
    i < |calls| && calls[i].key == key && forall k :: 0 <= k < i ==> calls[k].key != key
  }

  lemma {:induction false} CacheHolds(calls: seq<Call>, n: nat, key: cstring)
    requires n <= |calls|
    ensures key in CacheRun(calls, n) <==> exists i: nat :: i < n && FirstCall(calls, key, i)
    ensures forall i: nat :: i < n && FirstCall(calls, key, i) ==>
      key in CacheRun(calls, n)
      && CacheRun(calls, n)[key] == if calls[i].measured.Some? then calls[i].measured.value else ZeroDigest()
  {
    if n > 0 {
      CacheHolds(calls, n - 1, key);
      if calls[n - 1].key == key && key !in CacheRun(calls, n - 1) {
        forall k | 0 <= k < n - 1 ensures calls[k].key != key {
          if calls[k].key == key { FirstCallExists(calls, key, k); }
        }
        assert FirstCall(calls, key, n - 1);
      }
    }
  }

  lemma {:induction false} FirstCallExists(calls: seq<Call>, key: cstring, n: nat)
    requires n < |calls| && calls[n].key == key
    ensures exists i: nat :: i <= n && FirstCall(calls, key, i)
  {
    if !FirstCall(calls, key, n) {
      var k :| 0 <= k < n && calls[k].key == key;
      FirstCallExists(calls, key, k);
    }
  }

  /** Over any run a file is read at its key's first call only, and every later call succeeds; it
      delivers what the first call measured exactly when that measurement succeeded. */
  lemma {:induction false} CacheCoherent(calls: seq<Call>, i: nat, j: nat)
    requires j < |calls| && FirstCall(calls, calls[j].key, i)
    ensures var m := CacheRun(calls, j);
      && (calls[j].key !in m <==> i == j)
      && (i == j ==> Answer(m, calls[j]) == calls[j].measured)
      && (i < j ==> Answer(m, calls[j]).Some?)
      && (i < j ==> (Answer(m, calls[j]) == calls[i].measured <==> calls[i].measured.Some?))
  {
    CacheHolds(calls, j, calls[j].key);
    assert i == j ==> forall k: nat :: k < j ==> !FirstCall(calls, calls[j].key, k);
  }

  // -------------------------------------------------------- the hash table

  function FpSlot(murmur: cstring -> bv32, p: cstring): (h: nat)
    ensures h < FP_HTABLE_SZ
  {
    var m := murmur(p);
    (((m >> 16) ^ (m & 0xffff)) as nat) % FP_HTABLE_SZ
  }

  function Slots(murmur: cstring -> bv32): cstring -> nat { (p: cstring) => FpSlot(murmur, p) }

  /** struct fp_hentry */
  class FpEntry {
    var path: CStr
    var dig: digest
    var next: FpEntry?
    ghost var home: nat
    ghost var rank: nat

    constructor (ghost home: nat, ghost rank: nat)
      ensures path == Null && dig == ZeroDigest() && next == null && this.home == home && this.rank == rank
    {
      path, dig, next := Null, ZeroDigest(), null;
      this.home, this.rank := home, rank;
    }
  }

  class FpTable {
    const murmur: cstring -> bv32
    const slot: array<FpEntry>

    ghost var chain: seq<seq<FpEntry>>
    ghost var items: seq<seq<Item<cstring, digest>>>
    ghost var nodes: set<FpEntry>
    ghost var cache: map<cstring, digest>

    /** Chain `b` is linked and ends; its nodes hold the bucket's items; a node behind them (an
        unused head, or the entry find_hashentry has just made) has no path. */
    ghost predicate ChainOk(b: nat, open: int)
      requires slot.Length == |chain| == |items| == FP_HTABLE_SZ && b < FP_HTABLE_SZ
      reads this, slot, nodes
    {
      && |chain[b]| == |items[b]| + (if b == open || items[b] == [] then 1 else 0)
      && chain[b][0] == slot[b]
      && forall i :: 0 <= i < |chain[b]| ==> NodeOk(b, i)
    }

    ghost predicate NodeOk(b: nat, i: nat)
      requires |items| == |chain| && b < |chain| && i < |chain[b]|
      reads this, nodes
    {
      var e := chain[b][i];
      && e in nodes && e.home == b && e.rank == i
      && e.next == (if i + 1 < |chain[b]| then chain[b][i + 1] else null)
      && if i < |items[b]| then e.path == Str(items[b][i].key) && e.dig == items[b][i].val
         else e.path == Null && e.dig == ZeroDigest()
    }

    ghost predicate LastOf(h: nat, fp: FpEntry)
      reads this
    {
      h < |chain| && |chain[h]| > 0 && fp == chain[h][|chain[h]| - 1] && fp in nodes
    }

    /** `open` is the bucket with an entry still to be named, or -1 between calls. */
    ghost predicate Shape(open: int)
      reads this, slot, nodes
    {
      && slot.Length == |chain| == |items| == FP_HTABLE_SZ
      && Indexed(Slots(murmur), FP_HTABLE_SZ, items, cache)
      && forall b :: 0 <= b < FP_HTABLE_SZ ==> ChainOk(b, open)
    }

    ghost predicate Valid()
      reads this, slot, nodes
    {
      Shape(-1)
    }

    constructor (murmur: cstring -> bv32)
      ensures Valid() && fresh(nodes) && fresh(slot) && cache == map[] && this.murmur == murmur
    {
      this.murmur := murmur;
      var first := new FpEntry(0, 0);
      slot := new FpEntry[FP_HTABLE_SZ](_ => first);
      chain, items, nodes, cache := [], seq(FP_HTABLE_SZ, _ => []), {}, map[];
      new;
      IndexedEmpty<cstring, digest>(Slots(murmur), FP_HTABLE_SZ);
      hide Indexed;
      var b := 0;
      while b < FP_HTABLE_SZ
        invariant b <= FP_HTABLE_SZ == |slot[..]| && |chain| == b && this.murmur == murmur
        invariant cache == map[] && Indexed(Slots(this.murmur), FP_HTABLE_SZ, items, cache)
        invariant |items| == FP_HTABLE_SZ && (forall k :: 0 <= k < FP_HTABLE_SZ ==> items[k] == [])
        invariant fresh(nodes)
        invariant forall k :: 0 <= k < b ==>
          chain[k] == [slot[k]] && slot[k] in nodes && slot[k].home == k && slot[k].rank == 0
          && slot[k].next == null && slot[k].path == Null && slot[k].dig == ZeroDigest()
        modifies slot, this
      {
        var e := new FpEntry(b, 0);
        slot[b] := e;
        chain, nodes := chain + [[e]], nodes + {e};
        b := b + 1;
      }
    }

    /** find_hashentry: the entry of `path`, or an entry without a path at the end of its chain. */
    method FindHashEntry(path: cstring) returns (fp: FpEntry)
      requires Valid()
      modifies this, nodes
      ensures cache == old(cache) && items == old(items) && fresh(nodes - old(nodes))
      ensures path in cache ==> Valid() && fp.path == Str(path) && fp.dig == cache[path]
      ensures path !in cache ==>
        var h := FpSlot(murmur, path);
        Shape(h) && LastOf(h, fp) && fp.path == Null
    {
      hide Indexed, FpSlot;
      var h := FpSlot(murmur, path);
      BoundIffListed(Slots(murmur), FP_HTABLE_SZ, items, cache, path);
      assert ChainOk(h, -1) && NodeOk(h, 0);
      fp := slot[h];
      if fp.path.Null? {
        assert forall b :: 0 <= b < FP_HTABLE_SZ ==> ChainOk(b, -1) ==> ChainOk(b, h);
        return;
      }
      if fp.path == Str(path) { return; }
      ghost var i := 0;
      while fp.next != null
        invariant i < |chain[h]| == |items[h]| && fp == chain[h][i]
        invariant forall j :: 0 <= j <= i ==> items[h][j].key != path
        decreases |chain[h]| - i
      {
        assert NodeOk(h, i) && NodeOk(h, i + 1);
        var nx := fp.next;
        if nx.path == Str(path) {
          fp := nx;
          return;
        }
        fp := nx;
        i := i + 1;
      }
      assert NodeOk(h, i);
      fp := Grow(h, fp);
    }

    method Grow(h: nat, last: FpEntry) returns (fp: FpEntry)
      requires Valid() && h < FP_HTABLE_SZ && items[h] != [] && LastOf(h, last)
      modifies this, nodes
      ensures cache == old(cache) && items == old(items) && fresh(nodes - old(nodes))
      ensures Shape(h) && LastOf(h, fp) && fp.path == Null
    {
      hide Indexed;
      ghost var n := |chain[h]|;
      assert ChainOk(h, -1) && NodeOk(h, n - 1);
      fp := new FpEntry(h, n);
      last.next := fp;
      chain := chain[h := chain[h] + [fp]];
      nodes := nodes + {fp};
      forall b | 0 <= b < FP_HTABLE_SZ ensures ChainOk(b, h) {
        assert old(ChainOk(b, -1));
        forall i | 0 <= i < |chain[b]| ensures NodeOk(b, i) {
          if b != h || i < n { assert old(NodeOk(b, i)); }
        }
      }
    }

    /** sha256_file: a cached path is answered from the table; otherwise the entry is named before
        the file is read, and keeps a zero digest when reading fails. */
    method Sha256File(libpath: cstring, measured: Option<digest>) returns (r: Option<digest>)
      requires Valid()
      modifies this, nodes
      ensures Valid() && fresh(nodes - old(nodes))
      ensures cache == CacheAfter(old(cache), Call(libpath, measured))
      ensures r == Answer(old(cache), Call(libpath, measured))
    {
      hide Indexed, FpSlot;
      var fp := FindHashEntry(libpath);
      if fp.path.Str? { return Some(fp.dig); }
      NameEntry(fp, libpath);
      if measured.None? { return None; }
      SetDigest(fp, libpath, measured.value);
      r := measured;
    }

    method NameEntry(fp: FpEntry, path: cstring)
      requires Shape(FpSlot(murmur, path)) && LastOf(FpSlot(murmur, path), fp) && fp.path == Null
      requires path !in cache
      modifies this, fp
      ensures Valid() && nodes == old(nodes) && cache == old(cache)[path := ZeroDigest()]
      ensures fp.path == Str(path) && fp in nodes && EntryIs(fp)
    {
      hide Indexed, FpSlot;
      ghost var h := FpSlot(murmur, path);
      ghost var it := Item(path, ZeroDigest());
      assert ChainOk(h, h) && NodeOk(h, |chain[h]| - 1);
      IndexedAppend(Slots(murmur), FP_HTABLE_SZ, items, cache, it);
      fp.path := Str(path);
      items := items[h := items[h] + [it]];
      cache := cache[path := ZeroDigest()];
      forall b | 0 <= b < FP_HTABLE_SZ ensures ChainOk(b, -1) {
        assert old(ChainOk(b, h));
        forall i | 0 <= i < |chain[b]| ensures NodeOk(b, i) { assert old(NodeOk(b, i)); }
      }
    }

    method SetDigest(fp: FpEntry, path: cstring, d: digest)
      requires Valid() && path in cache && fp.path == Str(path) && fp in nodes
      requires EntryIs(fp)
      modifies this, fp
      ensures Valid() && nodes == old(nodes) && cache == old(cache)[path := d]
    {
      hide Indexed, FpSlot;
      ghost var h, r := fp.home, fp.rank;
      assert ChainOk(h, -1) && NodeOk(h, r);
      IndexedReplace(Slots(murmur), FP_HTABLE_SZ, items, cache, h, r, d);
      fp.dig := d;
      items := items[h := items[h][r := Item(path, d)]];
      cache := cache[path := d];
      forall b | 0 <= b < FP_HTABLE_SZ ensures ChainOk(b, -1) {
        assert old(ChainOk(b, -1));
        forall i | 0 <= i < |chain[b]| ensures NodeOk(b, i) { assert old(NodeOk(b, i)); }
      }
    }

    /** The entry is in a chain, at the place its ghost coordinates say. */
    ghost predicate EntryIs(fp: FpEntry)
      reads this, fp
    {
      fp.home < |chain| == |items| && fp.rank < |chain[fp.home]| && chain[fp.home][fp.rank] == fp
      && fp.rank < |items[fp.home]|
    }
  }

  // ------------------------------------------------------- shared libraries

  /** One line of /proc/<pid>/maps: its pathname (trimmed, possibly empty) and what measuring the
      mapped file yields. */
  datatype Line = Line(path: cstring, measured: Option<digest>)

  /** is_shared_library on a named mapping: not anonymous, and ".so" occurs in the name. */
  predicate SharedLib(p: cstring)
  {
    p != [] && p[0] != 91 && exists i :: 0 <= i < |p| && DotSo(p, i)
  }

  predicate DotSo(p: cstring, i: nat) { i + 3 <= |p| && p[i..i + 3] == [46, 115, 111] }

  /** struct path_entry list; entries do not change once pushed. */
  datatype PathList = End | Entry(path: cstring, dig: digest, next: PathList)

  function Libs(l: PathList): seq<FDigest>
  {
    match l case End => [] case Entry(p, d, next) => [FDigest(p, d)] + Libs(next)
  }

  /** path_exists */
  method PathExists(head: PathList, path: cstring) returns (found: bool)
    ensures found <==> HasPath(Libs(head), path)
  {
    var p := head;
    while p.Entry?
      invariant HasPath(Libs(head), path) <==> HasPath(Libs(p), path)
      decreases p
    {
      if p.path == path {
        assert Libs(p)[0].path == path;
        return true;
      }
      ghost var all, rest := Libs(p), Libs(p.next);
      assert forall i :: 0 <= i < |rest| ==> rest[i] == all[i + 1];
      assert forall i :: 1 <= i < |all| ==> all[i] == rest[i - 1];
      p := p.next;
    }
    return false;
  }

  datatype Listing = Listing(cache: map<cstring, digest>, libs: seq<FDigest>)

  ghost function ListStep(s: Listing, l: Line): Listing
  {
    if !SharedLib(l.path) || HasPath(s.libs, l.path) then s
    else
      var c := Call(l.path, l.measured);
      Listing(CacheAfter(s.cache, c),
              if Answer(s.cache, c).Some? then [FDigest(l.path, Answer(s.cache, c).value)] + s.libs else s.libs)
  }

  ghost function ListRun(cache0: map<cstring, digest>, lines: seq<Line>, n: nat): Listing
    requires n <= |lines|
  {
    if n == 0 then Listing(cache0, []) else ListStep(ListRun(cache0, lines, n - 1), lines[n - 1])
  }

  /** sha256_libs, starting from an empty list */
  method Sha256Libs(tab: FpTable, lines: seq<Line>) returns (count: nat, head: PathList)
    requires tab.Valid()
    modifies tab, tab.nodes
    ensures tab.Valid() && fresh(tab.nodes - old(tab.nodes))
    ensures Listing(tab.cache, Libs(head)) == ListRun(old(tab.cache), lines, |lines|)
    ensures count == |Libs(head)|
  {
    hide SharedLib, FpTable.Valid, HasPath;
    head, count := End, 0;
    for i := 0 to |lines|
      invariant tab.Valid() && fresh(tab.nodes - old(tab.nodes)) && count == |Libs(head)|
      invariant Listing(tab.cache, Libs(head)) == ListRun(old(tab.cache), lines, i)
    {
      var path := lines[i].path;
      if SharedLib(path) {
        var found := PathExists(head, path);
        if !found {
          var dig := tab.Sha256File(path, lines[i].measured);
          if dig.Some? {
            head := Entry(path, dig.value, head);
            count := count + 1;
          }
        }
      }
    }
  }

  /** Line `i` maps the library `p`. */
  ghost predicate Maps(lines: seq<Line>, i: nat, p: cstring)
  {
    i < |lines| && lines[i].path == p && SharedLib(p)
  }

  /** Measuring line `i` succeeds: the name is cached already, or mapped by an earlier line (which
      put it into the cache), or the file can be read now. */
  ghost predicate Measured(cache0: map<cstring, digest>, lines: seq<Line>, i: nat, p: cstring)
  {
    Maps(lines, i, p)
    && (p in cache0 || lines[i].measured.Some? || exists k: nat :: k < i && Maps(lines, k, p))
  }

  lemma {:induction false} ListedAfter(cache0: map<cstring, digest>, lines: seq<Line>, n: nat, p: cstring)
    requires n <= |lines|
    ensures p in ListRun(cache0, lines, n).cache <==> p in cache0 || exists i: nat :: i < n && Maps(lines, i, p)
    ensures HasPath(ListRun(cache0, lines, n).libs, p) <==> exists i: nat :: i < n && Measured(cache0, lines, i, p)
  {
    if n > 0 {
      ListedAfter(cache0, lines, n - 1, p);
      var s, l := ListRun(cache0, lines, n - 1), lines[n - 1];
      var s' := ListStep(s, l);
      var c := Call(l.path, l.measured);
      assert s' == ListRun(cache0, lines, n);
      if SharedLib(l.path) && !HasPath(s.libs, l.path) && Answer(s.cache, c).Some? {
        PushHas(s.libs, FDigest(l.path, Answer(s.cache, c).value), p);
      }
      if p == l.path && SharedLib(p) {
        assert Maps(lines, n - 1, p);
        if !HasPath(s.libs, p) { assert Measured(cache0, lines, n - 1, p) <==> Answer(s.cache, c).Some?; }
      }
    }
  }

  lemma {:induction false} PushHas(libs: seq<FDigest>, f: FDigest, p: cstring)
    ensures HasPath([f] + libs, p) <==> f.path == p || HasPath(libs, p)
  {
    var all := [f] + libs;
    if HasPath(libs, p) {
      var i :| 0 <= i < |libs| && libs[i].path == p;
      assert all[i + 1].path == p;
    }
    if f.path == p { assert all[0].path == p; }
  }

  lemma {:induction false} ListedOnce(cache0: map<cstring, digest>, lines: seq<Line>, n: nat)
    requires n <= |lines|
    ensures var s := ListRun(cache0, lines, n);
      DistinctNames(s.libs) && forall i :: 0 <= i < |s.libs| ==>
        s.libs[i].path in s.cache && s.cache[s.libs[i].path] == s.libs[i].digest
  {
    if n > 0 { ListedOnce(cache0, lines, n - 1); }
  }

  ghost predicate FirstMaps(lines: seq<Line>, i: nat, p: cstring)
  {
    Maps(lines, i, p) && forall k :: 0 <= k < i ==> !Maps(lines, k, p)
  }

  lemma {:induction false} CachedFromFirst(cache0: map<cstring, digest>, lines: seq<Line>, n: nat, i: nat, p: cstring)
    requires i < n <= |lines| && FirstMaps(lines, i, p) && p !in cache0
    ensures var m := ListRun(cache0, lines, n).cache;
      p in m && m[p] == if lines[i].measured.Some? then lines[i].measured.value else ZeroDigest()
  {
    ListedAfter(cache0, lines, n - 1, p);
    if i < n - 1 { CachedFromFirst(cache0, lines, n - 1, i, p); }
  }

  /** The library list of a process: no path twice; exactly the mapped names containing ".so" for
      which some measurement succeeded; and the digest of a newly measured library is that of its
      first mapping. */
  lemma {:induction false} LibraryList(cache0: map<cstring, digest>, lines: seq<Line>, p: cstring)
    ensures var libs := ListRun(cache0, lines, |lines|).libs;
      && DistinctNames(libs)
      && (HasPath(libs, p) <==> exists i: nat :: Measured(cache0, lines, i, p))
      && forall j, i: nat :: 0 <= j < |libs| && libs[j].path == p && p !in cache0 && FirstMaps(lines, i, p) ==>
           libs[j].digest == if lines[i].measured.Some? then lines[i].measured.value else ZeroDigest()
  {
    ListedOnce(cache0, lines, |lines|);
    ListedAfter(cache0, lines, |lines|, p);
    forall i: nat | FirstMaps(lines, i, p) && p !in cache0
      ensures p in ListRun(cache0, lines, |lines|).cache
      ensures ListRun(cache0, lines, |lines|).cache[p]
           == if lines[i].measured.Some? then lines[i].measured.value else ZeroDigest()
    {
      CachedFromFirst(cache0, lines, |lines|, i, p);
    }
  }

  /** A library that cannot be read is listed all the same once it is mapped twice: the first attempt
      leaves its name in the cache, and the second is answered from there with the zero digest. */
  lemma {:induction false} UnreadableButListed()
    ensures var name: cstring := [46, 115, 111];
      ListRun(map[], [Line(name, None), Line(name, None)], 2).libs == [FDigest(name, ZeroDigest())]
  {
    var name: cstring := [46, 115, 111];
    var lines := [Line(name, None), Line(name, None)];
    assert name[0..3] == name;
    assert DotSo(name, 0);
    assert SharedLib(name);
    assert ListRun(map[], lines, 0) == Listing(map[], []);
    assert !HasPath([], name);
    assert ListRun(map[], lines, 1) == Listing(map[name := ZeroDigest()], []);
  }

  // ------------------------------------------------ which names are libraries

  lemma {:induction false} DotSoAt(p: cstring, a: bytes, b: bytes)
    requires p == a + [46, 115, 111] + b
    ensures |a| < |p| && DotSo(p, |a|)
  {
    assert p[|a|..|a| + 3] == [46, 115, 111];
  }

  /** A name is a library's when ".so" stands anywhere in it, unless it begins with '['. */
  lemma {:induction false} SharedLibExact(p: cstring)
    ensures SharedLib(p) <==>
      p != [] && p[0] as int != '[' as int && exists a: bytes, b: bytes :: p == a + [46, 115, 111] + b
  {
    if SharedLib(p) {
      var i :| 0 <= i < |p| && DotSo(p, i);
      var a: bytes, b: bytes := p[..i], p[i + 3..];
      assert p == a + p[i..i + 3] + b == a + [46, 115, 111] + b;
    }
    if a: bytes, b: bytes :| p == a + [46, 115, 111] + b { DotSoAt(p, a, b); }
  }

  /** Whatever surrounds ".so" in its name, a mapped library that can be read is listed. */
  lemma {:induction false} NamedLibraryListed(cache0: map<cstring, digest>, lines: seq<Line>, i: nat,
                                              a: bytes, b: bytes)
    requires i < |lines| && lines[i].path == a + [46, 115, 111] + b && lines[i].path[0] as int != '[' as int
    requires lines[i].measured.Some?
    ensures HasPath(ListRun(cache0, lines, |lines|).libs, lines[i].path)
  {
    hide SharedLib, HasPath, ListRun;
    var p := lines[i].path;
    SharedLibExact(p);
    assert Measured(cache0, lines, i, p);
    LibraryList(cache0, lines, p);
  }

  /** No other name is listed. */
  lemma {:induction false} OtherNameNotListed(cache0: map<cstring, digest>, lines: seq<Line>, p: cstring)
    requires p == [] || p[0] as int == '[' as int || forall a: bytes, b: bytes :: p != a + [46, 115, 111] + b
    ensures !HasPath(ListRun(cache0, lines, |lines|).libs, p)
  {
    hide SharedLib, HasPath, ListRun;
    SharedLibExact(p);
    LibraryList(cache0, lines, p);
  }

  /** New libraries go in front of those already listed. */
  lemma {:induction false} NewInFront(cache0: map<cstring, digest>, lines: seq<Line>, m: nat, n: nat)
    requires m <= n <= |lines|
    ensures var a, b := ListRun(cache0, lines, m).libs, ListRun(cache0, lines, n).libs;
      |a| <= |b| && b[|b| - |a|..] == a
    decreases n
  {
    hide SharedLib, HasPath;
    if m < n { NewInFront(cache0, lines, m, n - 1); }
  }
}
