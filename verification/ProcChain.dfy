// The measured process chain: the attester walks from the requester to init, measures each process
// through its digest cache, serializes one CBOR map per process and packs them
// (mycbor_sha256_binaries, mycbor_pack_procchain); the verifier decodes them by position
// (extract_procinfo, pica_extract_pinfo).
module ProcChain {
  import opened Bytes
  import opened ProcTable
  import opened Cbor
  import opened Measure
  import opened Processes

  const K_PID: cstring := [112, 105, 100]              // "pid"
  const K_PPID: cstring := [112, 112, 105, 100]        // "ppid"
  const K_RUID: cstring := [114, 117, 105, 100]        // "ruid"
  const K_RGID: cstring := [114, 103, 105, 100]        // "rgid"
  const K_EUID: cstring := [101, 117, 105, 100]        // "euid"
  const K_EGID: cstring := [101, 103, 105, 100]        // "egid"
  const K_SUID: cstring := [115, 117, 105, 100]        // "suid"
  const K_SGID: cstring := [115, 103, 105, 100]        // "sgid"
  const K_PATH: cstring := [112, 97, 116, 104]         // "path"
  const K_SHA256: cstring := [115, 104, 97, 50, 53, 54] // "sha256"

  const PROCINFO_BASE_ENTRIES: nat := 10

  // ----------------------------------------------------------- one process

  function BasePairs(p: ProcInfo): (ps: seq<Pair>)
    ensures |ps| == PROCINFO_BASE_ENTRIES
  {
    [Pair(TStr(K_PID), UInt(8, p.ids.pid)), Pair(TStr(K_PPID), UInt(8, p.ids.ppid)),
     Pair(TStr(K_RUID), UInt(8, p.ids.ruid)), Pair(TStr(K_RGID), UInt(8, p.ids.rgid)),
     Pair(TStr(K_EUID), UInt(8, p.ids.euid)), Pair(TStr(K_EGID), UInt(8, p.ids.egid)),
     Pair(TStr(K_SUID), UInt(8, p.ids.suid)), Pair(TStr(K_SGID), UInt(8, p.ids.sgid)),
     Pair(TStr(K_PATH), TStr(PathOf(p))), Pair(TStr(K_SHA256), BStr(p.digest))]
  }

  function LibPairs(libs: seq<FDigest>): (ps: seq<Pair>)
    ensures |ps| == |libs|
  {
    seq(|libs|, i requires 0 <= i < |libs| => Pair(TStr(libs[i].path), BStr(libs[i].digest)))
  }

  function ProcItem(p: ProcInfo): Item { Map(BasePairs(p) + LibPairs(p.libs)) }

  /** mycbor_sha256_binaries: the process is measured, executable first; then the base entries go
      into the map, and one entry per library. */
  method Sha256Binaries(tab: FpTable, pr: Process) returns (cmap: Item)
    requires tab.Valid()
    modifies tab, tab.nodes
    ensures tab.Valid() && fresh(tab.nodes - old(tab.nodes))
    ensures tab.cache == CacheLeft(old(tab.cache), pr)
    ensures cmap == ProcItem(Reported(old(tab.cache), pr))
  {
    hide FpTable.Valid, ExeKey, SharedLib;
    var dig := tab.Sha256File(ExeKey(pr.ids.pid), Some(pr.exe));
    var count, paths := Sha256Libs(tab, pr.lines);
    ghost var libs := Libs(paths);
    var base := ProcInfo(pr.ids, Str(pr.path), dig.value, []);
    var pairs, pa := BasePairs(base), paths;
    for i := 0 to count
      invariant pairs == BasePairs(base) + LibPairs(libs)[..i] && Libs(pa) == libs[i..]
    {
      assert libs[i..][0] == libs[i] && libs[i..][1..] == libs[i + 1..];
      pairs := pairs + [Pair(TStr(pa.path), BStr(pa.dig))];
      assert LibPairs(libs)[..i + 1] == LibPairs(libs)[..i] + [LibPairs(libs)[i]];
      pa := pa.next;
    }
    cmap := Map(pairs);
  }

  function Packets(c: seq<ProcInfo>): (xs: seq<Item>)
    ensures |xs| == |c|
  {
    seq(|c|, i requires 0 <= i < |c| => BStr(Ser(ProcItem(c[i]))))
  }

  function ChainItem(c: seq<ProcInfo>): Item { Array(Packets(c)) }

  /** struct tmplist: serialized records, most recently pushed first. */
  datatype TmpList = Nil | Cons(ser: bytes, next: TmpList)

  ghost function Listed(l: TmpList): seq<Item>
  {
    match l case Nil => [] case Cons(ser, next) => [BStr(ser)] + Listed(next)
  }

  method DrainList(top: TmpList) returns (items: seq<Item>)
    ensures items == Listed(top)
  {
    items := [];
    var tl := top;
    while tl.Cons?
      invariant items + Listed(tl) == Listed(top)
      decreases tl
    {
      items := items + [BStr(tl.ser)];
      tl := tl.next;
    }
  }

  lemma {:induction false} PacketsCons(p: ProcInfo, c: seq<ProcInfo>)
    ensures Packets([p] + c) == [BStr(Ser(ProcItem(p)))] + Packets(c)
  {}

  lemma {:induction false} ChainStep(world: map<word, Process>, cache: Cache, pid: word, k: nat, done: seq<ProcInfo>)
    requires Ancestry(world, pid, k)
    ensures var p, left, up := Reported(cache, world[pid]), CacheLeft(cache, world[pid]), world[pid].ids.ppid;
      && (k > 1 ==> Chain(world, cache, pid, k) + done == Chain(world, left, up, k - 1) + ([p] + done)
                    && CacheBehind(world, cache, pid, k) == CacheBehind(world, left, up, k - 1))
      && (k == 1 ==> Chain(world, cache, pid, k) + done == [p] + done && CacheBehind(world, cache, pid, k) == left)
  {
    hide Reported, CacheLeft;
  }

  /** mycbor_pack_procchain */
  method PackProcChain(tab: FpTable, world: map<word, Process>, pid0: word, ghost n: nat) returns (outser: bytes)
    requires tab.Valid() && Ancestry(world, pid0, n)
    modifies tab, tab.nodes
    ensures tab.Valid() && fresh(tab.nodes - old(tab.nodes))
    ensures outser == Ser(ChainItem(Chain(world, old(tab.cache), pid0, n)))
    ensures tab.cache == CacheBehind(world, old(tab.cache), pid0, n)
  {
    hide FpTable.Valid, Ser, ProcItem, Chain, CacheBehind, Packets, Reported, CacheLeft;
    var top := Nil;
    var pid := pid0;
    var again := true;
    ghost var k, done, all, last := n, [], Chain(world, tab.cache, pid0, n), CacheBehind(world, tab.cache, pid0, n);
    assert Packets(done) == [];
    while again
      invariant tab.Valid() && fresh(tab.nodes - old(tab.nodes))
      invariant again ==> Ancestry(world, pid, k) && all == Chain(world, tab.cache, pid, k) + done
                          && last == CacheBehind(world, tab.cache, pid, k)
      invariant !again ==> all == done && tab.cache == last
      invariant Listed(top) == Packets(done)
      decreases again, k
    {
      ChainStep(world, tab.cache, pid, k, done);
      ghost var p := Reported(tab.cache, world[pid]);
      var cmap := Sha256Binaries(tab, world[pid]);
      var serial := Ser(cmap);
      top := Cons(serial, top);
      PacketsCons(p, done);
      done := [p] + done;
      pid := world[pid].ids.ppid;
      k := k - 1;
      again := pid != 1;
    }
    var items := DrainList(top);
    outser := Ser(Array(items));
  }

  // -------------------------------------------------------------- decoding

  /** mycbor_get_int, stored in a 32-bit field: -1 for anything but an unsigned integer. */
  function GetWord(x: Item): word { if x.UInt? then x.value % TWO32 else TWO32 - 1 }

  function CutAtNul(t: bytes): (s: cstring)
    ensures NulFree(t) ==> s == t
  {
    if |t| == 0 || t[0] == 0 then [] else
      var rest := CutAtNul(t[1..]);
      assert t == [t[0]] + t[1..];
      [t[0]] + rest
  }

  /** mycbor_get_string: NULL for anything but a text string; a C string ends at its first NUL. */
  function GetString(x: Item): CStr { if x.TStr? then Str(CutAtNul(x.ts)) else Null }

  /** mycbor_copy_bstring into a zeroed field of 32 bytes. */
  function GetDigest(x: Item): digest { if x.BStr? && |x.bs| == 32 then x.bs else seq(32, _ => 0) }

  /** A library entry that leaves no field unset. */
  predicate LibPairOk(p: Pair) { p.key.TStr? && p.val.BStr? && |p.val.bs| == 32 }

  function LibOf(p: Pair): FDigest
    requires LibPairOk(p)
  {
    FDigest(CutAtNul(p.key.ts), p.val.bs)
  }

  /** Entries are read by position; the keys of the first ten are not looked at. */
  function ProcOf(ps: seq<Pair>): ProcInfo
    requires |ps| >= PROCINFO_BASE_ENTRIES && forall k :: PROCINFO_BASE_ENTRIES <= k < |ps| ==> LibPairOk(ps[k])
  {
    ProcInfo(Ids(GetWord(ps[0].val), GetWord(ps[1].val), GetWord(ps[2].val), GetWord(ps[3].val),
                 GetWord(ps[4].val), GetWord(ps[5].val), GetWord(ps[6].val), GetWord(ps[7].val)),
             GetString(ps[8].val), GetDigest(ps[9].val),
             seq(|ps| - PROCINFO_BASE_ENTRIES, j requires 0 <= j < |ps| - PROCINFO_BASE_ENTRIES =>
               LibOf(ps[PROCINFO_BASE_ENTRIES + j])))
  }

  /** A map the positional reader is defined on: ten entries, none of the strings among them in
      chunks, and complete library entries. */
  predicate PairsOk(ps: seq<Pair>)
  {
    && |ps| >= PROCINFO_BASE_ENTRIES && !ChunkedText(ps[8].val) && !ChunkedBytes(ps[9].val)
    && forall k :: PROCINFO_BASE_ENTRIES <= k < |ps| ==> LibPairOk(ps[k])
  }

  function PacketPairs(x: Item): Option<seq<Pair>>
  {
    if !x.BStr? then None else match LoadItem(x.bs) { case Some(y) => PairsOf(y) case None => None }
  }

  /** An array element the positional reader is defined on: a byte string that holds such a map. */
  predicate PacketOk(x: Item) { PacketPairs(x).Some? && PairsOk(PacketPairs(x).value) }

  function PacketProc(x: Item): ProcInfo
    requires PacketOk(x)
  {
    ProcOf(PacketPairs(x).value)
  }

  /** pica_extract_pinfo: refused (-1), outside what the reader is defined on, or a table. */
  datatype Extracted = Refused | Undefined | Table(t: seq<ProcInfo>)

  function Extract(body: bytes): Extracted
  {
    match BodyItems(body)
    case Some(xs) =>
      if xs == [] then Refused
      else if exists i :: 0 <= i < |xs| && !PacketOk(xs[i]) then Undefined
      else Table(seq(|xs|, i requires 0 <= i < |xs| && PacketOk(xs[i]) => PacketProc(xs[i])))
    case None => Refused
  }

  function BodyItems(body: bytes): Option<seq<Item>>
  {
    match LoadItem(body) { case Some(y) => ItemsOf(y) case None => None }
  }

  /** The bytes of an executable in ELF form begin with 7f 45 4c 46; as CBOR they are no array. */
  predicate IsElf(file: bytes) { |file| >= 4 && file[..4] == [0x7f, 0x45, 0x4c, 0x46] }

  lemma {:induction false} ElfIsRefused(file: bytes)
    requires IsElf(file)
    ensures Extract(file) == Refused
  {
    assert file[0] == file[..4][0];
    assert file[0] / 32 == 3 && file[0] % 32 == 31;
    assert Load(file) == LoadIndefinite(3, file);
    assert Load(file).Good? ==> Load(file).value.Chunks?;
  }

  method ReadProc(ps: seq<Pair>) returns (p: ProcInfo)
    requires PairsOk(ps)
    ensures p == ProcOf(ps)
  {
    var ids := Ids(GetWord(ps[0].val), GetWord(ps[1].val), GetWord(ps[2].val), GetWord(ps[3].val),
                   GetWord(ps[4].val), GetWord(ps[5].val), GetWord(ps[6].val), GetWord(ps[7].val));
    var path := GetString(ps[8].val);
    var dig := GetDigest(ps[9].val);
    var libs: seq<FDigest> := [];
    var j, k := 0, PROCINFO_BASE_ENTRIES;
    while k < |ps|
      invariant k == PROCINFO_BASE_ENTRIES + j <= |ps| && |libs| == j
      invariant forall m :: 0 <= m < j ==> libs[m] == LibOf(ps[PROCINFO_BASE_ENTRIES + m])
    {
      libs := libs + [LibOf(ps[k])];
      j, k := j + 1, k + 1;
    }
    p := ProcInfo(ids, path, dig, libs);
  }

  method ExtractPinfo(body: bytes) returns (r: Extracted)
    ensures r == Extract(body)
  {
    var cbor := LoadItem(body);
    if cbor.None? || ItemsOf(cbor.value).None? { return Refused; }
    var xs := cbor.value.items;
    var pinfo: seq<ProcInfo> := [];
    var i := 0;
    while i < |xs|
      invariant i <= |xs| && |pinfo| == i
      invariant forall k :: 0 <= k < i ==> PacketOk(xs[k]) && pinfo[k] == PacketProc(xs[k])
    {
      if !PacketOk(xs[i]) { return Undefined; }
      var p := ReadProc(PacketPairs(xs[i]).value);
      pinfo := pinfo + [p];
      i := i + 1;
    }
    if |pinfo| == 0 { return Refused; }
    r := Table(pinfo);
  }

  // ----------------------------------------------------------- round trip

  /** Every length fits a 64-bit count. */
  ghost predicate Sized(c: seq<ProcInfo>)
  {
    |c| < TWO64 && forall i :: 0 <= i < |c| ==> SizedProc(c[i])
  }

  ghost predicate SizedProc(p: ProcInfo)
  {
    && |PathOf(p)| < TWO64 && PROCINFO_BASE_ENTRIES + |p.libs| < TWO64
    && (forall j :: 0 <= j < |p.libs| ==> |p.libs[j].path| < TWO64)
    && |Ser(ProcItem(p))| < TWO64
  }

  lemma {:induction false} ProcItemFits(p: ProcInfo)
    requires SizedProc(p)
    ensures Fits(ProcItem(p))
  {
    Pow256Values();
    hide Pow256, Ser;
    var ps := BasePairs(p) + LibPairs(p.libs);
    forall q | q in ps ensures Fits(q.key) && Fits(q.val) {
      var i :| 0 <= i < |ps| && ps[i] == q;
      if i >= PROCINFO_BASE_ENTRIES { assert q == LibPairs(p.libs)[i - PROCINFO_BASE_ENTRIES]; }
      else { assert q == BasePairs(p)[i]; BaseFits(p, i); }
    }
  }

  lemma {:induction false} BaseFits(p: ProcInfo, i: nat)
    requires i < PROCINFO_BASE_ENTRIES && |PathOf(p)| < TWO64
    ensures Fits(BasePairs(p)[i].key) && Fits(BasePairs(p)[i].val)
  {
    Pow256Values();
    hide Pow256;
  }

  lemma {:induction false} ProcDecodes(p: ProcInfo)
    requires SizedProc(p) && p.path.Str?
    ensures PacketOk(BStr(Ser(ProcItem(p)))) && PacketProc(BStr(Ser(ProcItem(p)))) == p
  {
    hide Ser, LoadItem, Fits, CutAtNul;
    ProcItemFits(p);
    LoadItemInverts(ProcItem(p));
    var ps := BasePairs(p) + LibPairs(p.libs);
    forall k | PROCINFO_BASE_ENTRIES <= k < |ps|
      ensures LibPairOk(ps[k]) && LibOf(ps[k]) == p.libs[k - PROCINFO_BASE_ENTRIES]
    {
      assert ps[k] == LibPairs(p.libs)[k - PROCINFO_BASE_ENTRIES];
    }
    assert ProcOf(ps).libs == p.libs;
    assert ProcOf(ps) == p;
  }

  /** What the attester packs, the verifier decodes: every record, in order. */
  lemma {:induction false} ChainDecodes(c: seq<ProcInfo>)
    requires Sized(c) && |c| > 0 && AllNamed(c)
    ensures Extract(Ser(ChainItem(c))) == Table(c)
  {
    hide Ser, LoadItem, ProcItem, PacketOk, PacketProc;
    var xs := Packets(c);
    forall x | x in xs ensures Fits(x) {
      var i :| 0 <= i < |xs| && xs[i] == x;
      assert SizedProc(c[i]);
    }
    LoadItemInverts(ChainItem(c));
    forall i | 0 <= i < |c| ensures PacketOk(xs[i]) && PacketProc(xs[i]) == c[i] {
      ProcDecodes(c[i]);
    }
  }

  /** Attester and verifier together. */
  method PackAndExtract(tab: FpTable, world: map<word, Process>, pid: word, ghost n: nat) returns (r: Extracted)
    requires tab.Valid() && Ancestry(world, pid, n) && Sized(Chain(world, tab.cache, pid, n))
    modifies tab, tab.nodes
    ensures tab.Valid() && fresh(tab.nodes - old(tab.nodes))
    ensures r == Table(Chain(world, old(tab.cache), pid, n))
  {
    ChainMeasured(world, tab.cache, pid, n);
    ChainDecodes(Chain(world, tab.cache, pid, n));
    var body := PackProcChain(tab, world, pid, n);
    r := ExtractPinfo(body);
  }

  // ------------------------------------------------ what a record reads as

  /** A text ends at its first NUL. */
  lemma {:induction false} CutExact(t: bytes)
    ensures var s := CutAtNul(t); |s| <= |t| && s == t[..|s|] && (|s| < |t| ==> t[|s|] == 0)
  {
    if |t| > 0 && t[0] != 0 {
      CutExact(t[1..]);
      var s := CutAtNul(t[1..]);
      assert CutAtNul(t) == [t[0]] + s;
      assert t[..|s| + 1] == [t[0]] + t[1..][..|s|];
    }
  }

  /** An id is the value modulo 2^32, all ones for anything but an unsigned integer. */
  ghost predicate ReadsWord(x: Item, w: word)
  {
    if x.UInt? then w == x.value % 0x1_0000_0000 else w == 0xFFFF_FFFF
  }

  /** Which entry each field comes from, and what an entry of another type reads as. */
  lemma {:induction false} FieldsExact(ps: seq<Pair>)
    requires PairsOk(ps)
    ensures var p := ProcOf(ps);
      && ReadsWord(ps[0].val, p.ids.pid) && ReadsWord(ps[1].val, p.ids.ppid)
      && ReadsWord(ps[2].val, p.ids.ruid) && ReadsWord(ps[3].val, p.ids.rgid)
      && ReadsWord(ps[4].val, p.ids.euid) && ReadsWord(ps[5].val, p.ids.egid)
      && ReadsWord(ps[6].val, p.ids.suid) && ReadsWord(ps[7].val, p.ids.sgid)
      && (if ps[8].val.TStr? then p.path == Str(CutAtNul(ps[8].val.ts)) else p.path == Null)
      && (if ps[9].val.BStr? && |ps[9].val.bs| == 32 then p.digest == ps[9].val.bs
          else forall k :: 0 <= k < 32 ==> p.digest[k] == 0)
      && |p.libs| == |ps| - 10
      && forall j :: 0 <= j < |p.libs| ==>
           && ps[10 + j].key.TStr? && p.libs[j].path == CutAtNul(ps[10 + j].key.ts)
           && ps[10 + j].val == BStr(p.libs[j].digest)
  {
    hide CutAtNul;
    var p := ProcOf(ps);
    forall j | 0 <= j < |p.libs|
      ensures LibPairOk(ps[10 + j]) && p.libs[j] == LibOf(ps[10 + j])
    {
      assert p.libs[j] == LibOf(ps[PROCINFO_BASE_ENTRIES + j]);
    }
  }

  /** A chain is refused exactly when it is no CBOR, no array or an empty one; a table has one record for
      each element, each read from the map in its byte string. */
  lemma {:induction false} ExtractExact(body: bytes)
    ensures Extract(body).Refused? <==>
      (match LoadItem(body) case Some(Array(xs)) => xs == [] case Some(ArrayI(xs)) => xs == [] case _ => true)
    ensures Extract(body).Table? ==>
      var x, t := LoadItem(body).value, Extract(body).t;
      && (x.Array? || x.ArrayI?) && |t| == |x.items|
      && forall i :: 0 <= i < |t| ==>
           && x.items[i].BStr? && LoadItem(x.items[i].bs).Some?
           && var y := LoadItem(x.items[i].bs).value; (y.Map? || y.MapI?) && PairsOk(y.pairs) && t[i] == ProcOf(y.pairs)
  {
    hide LoadItem, ProcOf, PairsOk;
    if Extract(body).Table? {
      forall i | 0 <= i < |Extract(body).t|
        ensures PacketOk(LoadItem(body).value.items[i])
        ensures Extract(body).t[i] == PacketProc(LoadItem(body).value.items[i])
      {}
    }
  }

  /** The keys of the base entries, in order. */
  lemma {:induction false} BaseKeys(p: ProcInfo)
    ensures var b := BasePairs(p);
      && b[0].key == TStr(Ascii("pid")) && b[1].key == TStr(Ascii("ppid")) && b[2].key == TStr(Ascii("ruid"))
      && b[3].key == TStr(Ascii("rgid")) && b[4].key == TStr(Ascii("euid"))
  {
    assert K_PID == Ascii("pid") && K_PPID == Ascii("ppid") && K_RUID == Ascii("ruid");
    assert K_RGID == Ascii("rgid") && K_EUID == Ascii("euid");
  }

  lemma {:induction false} OtherBaseKeys(p: ProcInfo)
    ensures var b := BasePairs(p);
      && b[5].key == TStr(Ascii("egid")) && b[6].key == TStr(Ascii("suid")) && b[7].key == TStr(Ascii("sgid"))
      && b[8].key == TStr(Ascii("path")) && b[9].key == TStr(Ascii("sha256"))
  {
    assert K_EGID == Ascii("egid") && K_SUID == Ascii("suid") && K_SGID == Ascii("sgid");
    assert K_PATH == Ascii("path") && K_SHA256 == Ascii("sha256");
  }
}
