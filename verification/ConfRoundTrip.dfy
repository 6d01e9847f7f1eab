// What the packed configuration file means: unpacking the image of a table gives the table back,
// exactly when its paths are non-NULL and its string pool can be measured by an `int`.
module ConfRoundTrip {
  import opened Bytes
  import opened ProcTable
  import opened ConfFormat

  // ------------------------------------------------- where the strings lie

  lemma {:induction false} LibPoolHas(libs: seq<FDigest>, j: nat, n: nat)
    requires j < n <= |libs|
    ensures Holds(LibPool(libs, n), |LibPool(libs, j)|, libs[j].path + [0])
  {
    if j < n - 1 {
      LibPoolHas(libs, j, n - 1);
    }
  }

  lemma {:induction false} PoolHasProc(t: seq<ProcInfo>, i: nat, n: nat)
    requires i < n <= |t|
    ensures Holds(Pool(t, n), |Pool(t, i)|, ProcPool(t[i]))
  {
    hide ProcPool, LibPool;
    if i < n - 1 {
      PoolHasProc(t, i, n - 1);
    }
  }

  lemma {:induction false} PathFound(t: seq<ProcInfo>, i: nat, n: nat)
    requires i < n <= |t|
    ensures StrAt(Pool(t, n), |Pool(t, i)|) == Some(PathOf(t[i]))
  {
    PoolHasProc(t, i, n);
    assert Holds(ProcPool(t[i]), 0, PathOf(t[i]) + [0]);
    HoldsPart(Pool(t, n), |Pool(t, i)|, ProcPool(t[i]), 0, PathOf(t[i]) + [0]);
    StrAtFinds(Pool(t, n), |Pool(t, i)|, PathOf(t[i]));
  }

  lemma {:induction false} LibPathFound(t: seq<ProcInfo>, i: nat, j: nat, n: nat)
    requires i < n <= |t| && j < |t[i].libs|
    ensures StrAt(Pool(t, n), LibBase(t, i) + |LibPool(t[i].libs, j)|) == Some(t[i].libs[j].path)
  {
    hide Pool, LibPool, StrAt;
    var p := t[i];
    var libPool, piece := LibPool(p.libs, |p.libs|), p.libs[j].path + [0];
    PoolHasProc(t, i, n);
    LibPoolHas(p.libs, j, |p.libs|);
    assert Holds(ProcPool(p), |PathOf(p)| + 1, libPool);
    HoldsPart(ProcPool(p), |PathOf(p)| + 1, libPool, |LibPool(p.libs, j)|, piece);
    HoldsPart(Pool(t, n), |Pool(t, i)|, ProcPool(p), |PathOf(p)| + 1 + |LibPool(p.libs, j)|, piece);
    StrAtFinds(Pool(t, n), LibBase(t, i) + |LibPool(p.libs, j)|, p.libs[j].path);
  }

  lemma {:induction false} LibFdsAt(libs: seq<FDigest>, base: nat, j: nat, n: nat)
    requires j < n <= |libs|
    ensures LibFds(libs, base, n)[j] == LibFd(libs, base, j)
  {
    if j < n - 1 { LibFdsAt(libs, base, j, n - 1); }
  }

  /** Process `i`'s digest records form one run of the shared array. */
  lemma {:induction false} FdsHasProc(t: seq<ProcInfo>, i: nat, n: nat)
    requires i < n <= |t|
    ensures |Fds(t, i)| + |t[i].libs| <= |Fds(t, n)|
    ensures forall j :: 0 <= j < |t[i].libs| ==> Fds(t, n)[|Fds(t, i)| + j] == LibFd(t[i].libs, LibBase(t, i), j)
  {
    hide Pool, LibPool, LibFds;
    if i < n - 1 {
      FdsHasProc(t, i, n - 1);
    } else {
      forall j | 0 <= j < |t[i].libs|
        ensures Fds(t, n)[|Fds(t, i)| + j] == LibFd(t[i].libs, LibBase(t, i), j)
      {
        LibFdsAt(t[i].libs, LibBase(t, i), j, |t[i].libs|);
      }
    }
  }

  // ------------------------------------------------------------- decoding

  lemma {:induction false} FdMeaningsMake(rs: seq<RawFd>, pool: bytes, libs: seq<FDigest>)
    requires |rs| == |libs| && forall j :: 0 <= j < |libs| ==> FdMeaning(rs[j], pool) == Some(libs[j])
    ensures FdsMeaning(rs, pool) == Some(libs)
  {
    if |libs| > 0 {
      FdMeaningsMake(rs[1..], pool, libs[1..]);
      assert [libs[0]] + libs[1..] == libs;
    }
  }

  lemma {:induction false} LibsDecode(t: seq<ProcInfo>, i: nat, n: nat, rs: seq<RawFd>)
    requires i < n <= |t| && |rs| == |t[i].libs|
    requires forall j :: 0 <= j < |rs| ==> rs[j] == LibFd(t[i].libs, LibBase(t, i), j)
    ensures FdsMeaning(rs, Pool(t, n)) == Some(t[i].libs)
  {
    hide Pool, LibPool, StrAt;
    forall j | 0 <= j < |rs| ensures FdMeaning(rs[j], Pool(t, n)) == Some(t[i].libs[j]) {
      LibPathFound(t, i, j, n);
    }
    FdMeaningsMake(rs, Pool(t, n), t[i].libs);
  }

  lemma {:induction false} MeaningFrom(r: RawProc, fds: seq<RawFd>, pool: bytes, path: cstring, libs: seq<FDigest>)
    requires r.count == |libs| && StrAt(pool, r.path.n) == Some(path)
    requires |libs| > 0 ==> r.libs.n + |libs| <= |fds|
                            && FdsMeaning(fds[r.libs.n..r.libs.n + |libs|], pool) == Some(libs)
    ensures ProcMeaning(r, fds, pool) == Some(ProcInfo(r.ids, Str(path), r.digest, libs))
  {
    if |libs| == 0 { assert libs == []; }
  }

  lemma {:induction false} RunMeans(t: seq<ProcInfo>, i: nat, n: nat)
    requires i < n <= |t|
    ensures |Fds(t, i)| + |t[i].libs| <= |Fds(t, n)|
    ensures FdsMeaning(Fds(t, n)[|Fds(t, i)|..|Fds(t, i)| + |t[i].libs|], Pool(t, n)) == Some(t[i].libs)
  {
    hide Fds, Pool, LibPool, FdsMeaning;
    FdsHasProc(t, i, n);
    var fds, fpos := Fds(t, n), |Fds(t, i)|;
    var run := fds[fpos..fpos + |t[i].libs|];
    forall j | 0 <= j < |run| ensures run[j] == LibFd(t[i].libs, LibBase(t, i), j) {
      assert run[j] == fds[fpos + j];
    }
    LibsDecode(t, i, n, run);
  }

  lemma {:induction false} ProcDecodes(t: seq<ProcInfo>, raw: seq<Raw>, i: nat)
    requires AllNamed(t) && i < |t| == |raw|
    ensures ProcMeaning(PackedProc(t, raw, i), Fds(t, |t|), Pool(t, |t|)) == Some(t[i])
  {
    hide Fds, Pool, StrAt, FdsMeaning;
    PathFound(t, i, |t|);
    RunMeans(t, i, |t|);
    MeaningFrom(PackedProc(t, raw, i), Fds(t, |t|), Pool(t, |t|), PathOf(t[i]), t[i].libs);
  }

  lemma {:induction false} MeaningsMake(rs: seq<RawProc>, fds: seq<RawFd>, pool: bytes, t: seq<ProcInfo>)
    requires |rs| == |t| && forall i :: 0 <= i < |t| ==> ProcMeaning(rs[i], fds, pool) == Some(t[i])
    ensures TableMeaning(rs, fds, pool) == Some(t)
  {
    if |t| > 0 {
      MeaningsMake(rs[1..], fds, pool, t[1..]);
      assert [t[0]] + t[1..] == t;
    }
  }

  lemma {:induction false} TableDecodes(t: seq<ProcInfo>, raw: seq<Raw>)
    requires AllNamed(t) && |t| == |raw|
    ensures TableMeaning(Procs(t, raw, |t|), Fds(t, |t|), Pool(t, |t|)) == Some(t)
  {
    forall i | 0 <= i < |t|
      ensures ProcMeaning(Procs(t, raw, |t|)[i], Fds(t, |t|), Pool(t, |t|)) == Some(t[i])
    {
      ProcDecodes(t, raw, i);
    }
    MeaningsMake(Procs(t, raw, |t|), Fds(t, |t|), Pool(t, |t|), t);
  }

  // ----------------------------------------------------------- file layout

  lemma {:induction false} OffsetsBounded(t: seq<ProcInfo>, i: nat, n: nat)
    requires i <= n <= |t|
    ensures |Pool(t, i)| <= |Pool(t, n)| && |Fds(t, i)| <= |Fds(t, n)|
  {
    if i < n { OffsetsBounded(t, i, n - 1); }
  }

  lemma {:induction false} FdsFit(t: seq<ProcInfo>, k: nat, n: nat)
    requires n <= |t| && k < |Fds(t, n)|
    ensures Fds(t, n)[k].path.Pos? && Fds(t, n)[k].path.n < |Pool(t, n)|
  {
    if k < |Fds(t, n - 1)| {
      FdsFit(t, k, n - 1);
    } else {
      LibFdsAt(t[n - 1].libs, LibBase(t, n - 1), k - |Fds(t, n - 1)|, |t[n - 1].libs|);
      LibPoolHas(t[n - 1].libs, k - |Fds(t, n - 1)|, |t[n - 1].libs|);
    }
  }

  lemma {:induction false} RecordsFit(t: seq<ProcInfo>, raw: seq<Raw>)
    requires Packable(t, raw)
    ensures forall i :: 0 <= i < |t| ==> ProcFits(Procs(t, raw, Named(t))[i])
    ensures forall k :: 0 <= k < |Fds(t, Named(t))| ==> FdFits(Fds(t, Named(t))[k])
  {
    var n := Named(t);
    forall i | 0 <= i < |t| ensures ProcFits(Procs(t, raw, n)[i]) {
      if i < n { OffsetsBounded(t, i, n); }
    }
    forall k | 0 <= k < |Fds(t, n)| ensures FdFits(Fds(t, n)[k]) { FdsFit(t, k, n); }
  }

  /** The header of an image reads back as written. */
  lemma {:induction false} ImageHead(t: seq<ProcInfo>, raw: seq<Raw>)
    requires Packable(t, raw)
    ensures |Image(t, raw)| == HEAD_SIZE + PROC_SIZE * |t| + FD_SIZE * |Fds(t, Named(t))| + |Pool(t, Named(t))|
    ensures DecHead(Image(t, raw)) == HeadOf(t)
  {
    var n := Named(t);
    var procs, fds, pool := Procs(t, raw, n), Fds(t, n), Pool(t, n);
    HeadRoundTrip(HeadOf(t), EncProcs(procs) + (EncFds(fds) + pool));
  }

  lemma {:induction false} ImageCuts(head: bytes, ps: bytes, fs: bytes, pool: bytes)
    ensures var b := head + (ps + (fs + pool));
      && b[|head|..] == ps + (fs + pool)
      && b[|head| + |ps|..] == fs + pool
      && b[|head| + |ps| + |fs|..|head| + |ps| + |fs| + |pool|] == pool
  {}

  ghost predicate RegionsAre(b: bytes, procs: seq<RawProc>, fds: seq<RawFd>, pool: bytes)
  {
    RegionsInside(b) && ProcRegion(b) == procs && FdRegion(b) == fds && PoolRegion(b) == pool
  }

  lemma {:induction false} RegionsOf(h: Head, procs: seq<RawProc>, fds: seq<RawFd>, pool: bytes)
    requires |h.magic| == 8 && IntRange(h.procCnt) && IntRange(h.figCnt) && IntRange(h.strSize)
    requires h.procCnt == |procs| && h.figCnt == |fds| && h.strSize == |pool|
    requires forall i :: 0 <= i < |procs| ==> ProcFits(procs[i])
    requires forall k :: 0 <= k < |fds| ==> FdFits(fds[k])
    ensures (forall i :: 0 <= i < |procs| ==> |procs[i].pad| == 4)
    ensures var b := EncHead(h) + (EncProcs(procs) + (EncFds(fds) + pool));
      RegionsAre(b, procs, fds, pool)
  {
    hide EncProcs, EncFds, DecProcs, DecFds, EncHead, DecHead;
    assert forall i :: 0 <= i < |procs| ==> ProcFits(procs[i]) && |procs[i].pad| == 4;
    var head, ps, fs := EncHead(h), EncProcs(procs), EncFds(fds);
    HeadRoundTrip(h, ps + (fs + pool));
    ProcsRoundTrip(procs, fs + pool);
    FdsRoundTrip(fds, pool);
    ImageCuts(head, ps, fs, pool);
  }

  lemma {:induction false} ImageRegions(t: seq<ProcInfo>, raw: seq<Raw>)
    requires Packable(t, raw)
    requires |Pool(t, Named(t))| < TWO31
    ensures RegionsAre(Image(t, raw), Procs(t, raw, Named(t)), Fds(t, Named(t)), Pool(t, Named(t)))
  {
    RecordsFit(t, raw);
    assert HeadOf(t).strSize == |Pool(t, Named(t))|;
    RegionsOf(HeadOf(t), Procs(t, raw, Named(t)), Fds(t, Named(t)), Pool(t, Named(t)));
  }

  // ---------------------------------------------------------- main results

  /** The size test of build_conf, in the 64-bit unsigned arithmetic it uses. */
  function ExpectedSize(h: Head): nat
  {
    (HEAD_SIZE + PROC_SIZE * h.procCnt + FD_SIZE * h.figCnt + h.strSize) % TWO64
  }

  predicate SizeTest(b: bytes)
    requires |b| >= HEAD_SIZE
  {
    |b| == ExpectedSize(DecHead(b))
  }

  ghost predicate SizeAccepted(b: bytes) { |b| >= HEAD_SIZE && SizeTest(b) }

  /** build_conf accepts the file, and it denotes exactly this table. */
  ghost predicate LoadsAs(b: bytes, t: seq<ProcInfo>) { SizeAccepted(b) && ReadsAs(b, t) }

  lemma {:induction false} SizeWraps(base: nat, ssz: nat)
    requires base < TWO64 / 4 && ssz < TWO64 / 2
    ensures base + ssz == (base + WordInt(IntWord(ssz))) % TWO64 <==> ssz < TWO31
  {
    var e := base + WordInt(IntWord(ssz));
    if ssz >= TWO31 {
      assert WordInt(IntWord(ssz)) < ssz;
      if e < 0 { assert e % TWO64 == e + TWO64; }
    }
  }

  lemma {:induction false} SizeTestOf(h: Head, b: bytes, ssz: nat)
    requires |b| >= HEAD_SIZE && DecHead(b) == h && 0 <= h.procCnt < TWO31 && 0 <= h.figCnt < TWO31
    requires |b| == HEAD_SIZE + PROC_SIZE * h.procCnt + FD_SIZE * h.figCnt + ssz
    requires ssz < TWO64 / 2 && h.strSize == WordInt(IntWord(ssz))
    ensures SizeTest(b) <==> ssz < TWO31
  {
    SizeWraps(HEAD_SIZE + PROC_SIZE * h.procCnt + FD_SIZE * h.figCnt, ssz);
  }

  /** An image passes the size test exactly when its string pool can be counted in an `int`. */
  lemma {:induction false} SizeTestExact(t: seq<ProcInfo>, raw: seq<Raw>)
    requires Packable(t, raw)
    ensures SizeAccepted(Image(t, raw)) <==> |Pool(t, Named(t))| < TWO31
  {
    ImageHead(t, raw);
    SizeTestOf(HeadOf(t), Image(t, raw), |Pool(t, Named(t))|);
  }

  /** Unpacking gives the packed table back iff every path is non-NULL and the pool fits an `int`. */
  lemma {:induction false} RoundTripExact(t: seq<ProcInfo>, raw: seq<Raw>)
    requires Packable(t, raw)
    ensures AllNamed(t) && |Pool(t, Named(t))| < TWO31
        <==> LoadsAs(Image(t, raw), t)
  {
    SizeTestExact(t, raw);
    if |Pool(t, Named(t))| < TWO31 {
      ImageRegions(t, raw);
      if AllNamed(t) {
        TableDecodes(t, raw);
      }
    }
  }

  /** A table with a NULL path does not survive: its tail is written with stale pointer words. */
  lemma {:induction false} NullPathIsLost()
    ensures var t := [ProcInfo(Ids(7, 1, 0, 0, 0, 0, 0, 0), Null, seq(32, _ => 0), [])];
      var raw := [Raw(0, 0, [0, 0, 0, 0])];
      && Packable(t, raw)
      && SizeAccepted(Image(t, raw)) && !ReadsAs(Image(t, raw), t)
  {
    var t := [ProcInfo(Ids(7, 1, 0, 0, 0, 0, 0, 0), Null, seq(32, _ => 0), [])];
    var raw := [Raw(0, 0, [0, 0, 0, 0])];
    assert t[0].path.Null? && !AllNamed(t);
    SizeTestExact(t, raw);
    RoundTripExact(t, raw);
  }

  // ------------------------------------- without the size test (read_conf)

  lemma {:induction false} MeaningsAt(rs: seq<RawProc>, fds: seq<RawFd>, pool: bytes, i: nat)
    requires i < |rs| && TableMeaning(rs, fds, pool).Some?
    ensures ProcMeaning(rs[i], fds, pool) == Some(TableMeaning(rs, fds, pool).value[i])
  {
    if i > 0 { MeaningsAt(rs[1..], fds, pool, i - 1); }
  }

  lemma {:induction false} FdMeaningsAt(rs: seq<RawFd>, pool: bytes, j: nat)
    requires j < |rs| && FdsMeaning(rs, pool).Some?
    ensures FdMeaning(rs[j], pool) == Some(FdsMeaning(rs, pool).value[j])
  {
    if j > 0 { FdMeaningsAt(rs[1..], pool, j - 1); }
  }

  lemma {:induction false} PoolEnds(t: seq<ProcInfo>)
    requires |t| > 0
    ensures var i, libs := |t| - 1, t[|t| - 1].libs;
      && |Pool(t, |t|)| == LibBase(t, i) + |LibPool(libs, |libs|)|
      && (|libs| > 0 ==> |LibPool(libs, |libs|)| == |LibPool(libs, |libs| - 1)| + |libs[|libs| - 1].path| + 1)
      && (|libs| == 0 ==> |LibPool(libs, |libs|)| == 0)
  {}

  lemma {:induction false} LastStringInside(r: RawProc, fds: seq<RawFd>, pool: bytes, p: ProcInfo)
    requires ProcMeaning(r, fds, pool) == Some(p) && r.count == |p.libs| && p.path.Str?
    ensures |p.libs| == 0 ==> r.path.n + |p.path.s| + 1 <= |pool|
    ensures |p.libs| > 0 ==> r.libs.n + |p.libs| <= |fds|
    ensures |p.libs| > 0 ==>
      fds[r.libs.n + |p.libs| - 1].path.n + |p.libs[|p.libs| - 1].path| + 1 <= |pool|
  {
    if |p.libs| > 0 {
      FdMeaningsAt(fds[r.libs.n..r.libs.n + r.count], pool, |p.libs| - 1);
    }
  }

  /** A pool that decodes the last entry is as long as the packed one. */
  lemma {:induction false} PoolIsLongEnough(t: seq<ProcInfo>, raw: seq<Raw>, pool: bytes)
    requires AllNamed(t) && 0 < |t| == |raw|
    requires TableMeaning(Procs(t, raw, |t|), Fds(t, |t|), pool) == Some(t)
    ensures |Pool(t, |t|)| <= |pool|
  {
    hide Pool, LibPool, Fds, TableMeaning, StrAt, FdsMeaning;
    var i := |t| - 1;
    var n := |t[i].libs|;
    PoolEnds(t);
    MeaningsAt(Procs(t, raw, |t|), Fds(t, |t|), pool, i);
    LastStringInside(PackedProc(t, raw, i), Fds(t, |t|), pool, t[i]);
    if n > 0 {
      FdsHasProc(t, i, |t|);
      assert Fds(t, |t|)[|Fds(t, i)| + (n - 1)] == LibFd(t[i].libs, LibBase(t, i), n - 1);
    }
  }

  lemma {:induction false} RegionsWithoutSize(h: Head, procs: seq<RawProc>, fds: seq<RawFd>, pool: bytes)
    requires |h.magic| == 8 && IntRange(h.procCnt) && IntRange(h.figCnt) && IntRange(h.strSize)
    requires h.procCnt == |procs| && h.figCnt == |fds|
    requires forall i :: 0 <= i < |procs| ==> ProcFits(procs[i])
    requires forall k :: 0 <= k < |fds| ==> FdFits(fds[k])
    ensures (forall i :: 0 <= i < |procs| ==> |procs[i].pad| == 4)
    ensures var b := EncHead(h) + (EncProcs(procs) + (EncFds(fds) + pool));
      RegionsInside(b) ==> ProcRegion(b) == procs && FdRegion(b) == fds
  {
    hide EncProcs, EncFds, DecProcs, DecFds, EncHead, DecHead;
    assert forall i :: 0 <= i < |procs| ==> ProcFits(procs[i]) && |procs[i].pad| == 4;
    var head, ps, fs := EncHead(h), EncProcs(procs), EncFds(fds);
    HeadRoundTrip(h, ps + (fs + pool));
    ProcsRoundTrip(procs, fs + pool);
    FdsRoundTrip(fds, pool);
    ImageCuts(head, ps, fs, pool);
  }

  /** Read back without a size test, an image means the packed table exactly when the pool fits. */
  lemma {:induction false} UncheckedRoundTripExact(t: seq<ProcInfo>, raw: seq<Raw>)
    requires Packable(t, raw) && AllNamed(t)
    ensures |Pool(t, |t|)| < TWO31
        <==> ReadsAs(Image(t, raw), t)
  {
    RoundTripExact(t, raw);
    var b := Image(t, raw);
    if |Pool(t, |t|)| >= TWO31 && ReadsAs(b, t) {
      RecordsFit(t, raw);
      ImageHead(t, raw);
      RegionsWithoutSize(HeadOf(t), Procs(t, raw, |t|), Fds(t, |t|), Pool(t, |t|));
      PoolIsLongEnough(t, raw, PoolRegion(b));
    }
  }

  // ------------------------------------------------ byte for byte

  /** struct confhead and struct fdigest, as they lie in the file. */
  lemma {:induction false} HeadAndDigestLayout(h: Head, r: RawFd)
    requires |h.magic| == 8
    ensures var b := EncHead(h);
      && |b| == 20 && b[..8] == h.magic && b[8..12] == Le(IntWord(h.procCnt), 4)
      && b[12..16] == Le(IntWord(h.figCnt), 4) && b[16..20] == Le(IntWord(h.strSize), 4)
    ensures var b := EncFd(r); |b| == 40 && b[..8] == Le(r.path.n, 8) && b[8..40] == r.digest
  {
    hide Le, IntWord;
  }

  /** struct procinfo, as it lies in the file. */
  lemma {:induction false} ProcLayout(r: RawProc)
    requires |r.pad| == 4
    ensures var b := EncProc(r);
      && |b| == 88 && b[0..4] == Le(r.ids.pid, 4) && b[4..8] == Le(r.ids.ppid, 4)
      && b[8..12] == Le(r.ids.ruid, 4) && b[12..16] == Le(r.ids.rgid, 4)
      && b[16..20] == Le(r.ids.euid, 4) && b[20..24] == Le(r.ids.egid, 4)
      && b[24..28] == Le(r.ids.suid, 4) && b[28..32] == Le(r.ids.sgid, 4)
      && b[32..40] == Le(r.path.n, 8) && b[40..72] == r.digest
      && b[72..76] == Le(IntWord(r.count), 4) && b[76..80] == r.pad && b[80..88] == Le(r.libs.n, 8)
  {
    hide Le, IntWord, EncIds;
    IdsLayout(r.ids);
    var b, ids := EncProc(r), EncIds(r.ids);
    assert b[..32] == ids;
    assert forall i, j :: 0 <= i <= j <= 32 ==> b[i..j] == ids[i..j] by {
      forall i, j | 0 <= i <= j <= 32 ensures b[i..j] == ids[i..j] { assert b[i..j] == b[..32][i..j]; }
    }
  }

  lemma {:induction false} IdsLayout(x: Ids)
    ensures var b := EncIds(x);
      && b[0..4] == Le(x.pid, 4) && b[4..8] == Le(x.ppid, 4) && b[8..12] == Le(x.ruid, 4) && b[12..16] == Le(x.rgid, 4)
      && b[16..20] == Le(x.euid, 4) && b[20..24] == Le(x.egid, 4) && b[24..28] == Le(x.suid, 4)
      && b[28..32] == Le(x.sgid, 4)
  {
    hide Le;
  }

  lemma {:induction false} ProcRecordAt(rs: seq<RawProc>, i: nat)
    requires i < |rs| && forall k :: 0 <= k < |rs| ==> |rs[k].pad| == 4
    ensures EncProcs(rs)[88 * i..88 * i + 88] == EncProc(rs[i])
  {
    hide EncProc;
    var b := EncProcs(rs);
    assert b == EncProc(rs[0]) + EncProcs(rs[1..]);
    if i > 0 {
      ProcRecordAt(rs[1..], i - 1);
      assert b[88..] == EncProcs(rs[1..]);
      assert b[88 * i..88 * i + 88] == b[88..][88 * (i - 1)..88 * (i - 1) + 88];
    }
  }

  lemma {:induction false} FdRecordAt(rs: seq<RawFd>, i: nat)
    requires i < |rs|
    ensures EncFds(rs)[40 * i..40 * i + 40] == EncFd(rs[i])
  {
    hide EncFd;
    var b := EncFds(rs);
    assert b == EncFd(rs[0]) + EncFds(rs[1..]);
    if i > 0 {
      FdRecordAt(rs[1..], i - 1);
      assert b[40..] == EncFds(rs[1..]);
      assert b[40 * i..40 * i + 40] == b[40..][40 * (i - 1)..40 * (i - 1) + 40];
    }
  }

  /** The header of the file: "PROCCNF", the counts of processes and digest records, the size of the
      string pool as far as it fits. */
  lemma {:induction false} ImageHeader(t: seq<ProcInfo>, raw: seq<Raw>)
    requires Packable(t, raw)
    ensures var b := Image(t, raw);
      && |b| >= 20 && b[..8] == Ascii("PROCCNF") + [0] && b[8..12] == Le(|t|, 4)
      && b[12..16] == Le(|Fds(t, Named(t))|, 4) && b[16..20] == Le(|Pool(t, Named(t))| % TWO32, 4)
  {
    hide EncHead, EncProcs, EncFds, Pool, Fds, Le, Procs;
    RecordsPadded(t, raw);
    HeadAndDigestLayout(HeadOf(t), RawFd(Pos(0), ZeroDigest()));
    var h, np, nf, b := EncHead(HeadOf(t)), |t|, |Fds(t, Named(t))|, Image(t, raw);
    assert HeadOf(t).magic == MAGIC == Ascii("PROCCNF") + [0];
    assert forall i, j :: 0 <= i <= j <= 20 ==> b[i..j] == h[i..j];
    assert IntWord(np) == np && IntWord(nf) == nf;
    assert IntWord(HeadOf(t).strSize) == |Pool(t, Named(t))| % TWO32;
  }

  /** The regions behind it: processes, digest records, strings. */
  lemma {:induction false} ImageRegionsAt(t: seq<ProcInfo>, raw: seq<Raw>)
    requires Packable(t, raw)
    ensures forall i :: 0 <= i < |t| ==> |Procs(t, raw, Named(t))[i].pad| == 4
    ensures var b, f := Image(t, raw), 20 + 88 * |t|;
      var p := f + 40 * |Fds(t, Named(t))|;
      && |b| == p + |Pool(t, Named(t))| && b[20..f] == EncProcs(Procs(t, raw, Named(t)))
      && b[f..p] == EncFds(Fds(t, Named(t))) && b[p..] == Pool(t, Named(t))
  {
    hide EncHead, EncProcs, EncFds, Pool, Fds, PackedProc;
    RecordsPadded(t, raw);
    ImageCuts(EncHead(HeadOf(t)), EncProcs(Procs(t, raw, Named(t))), EncFds(Fds(t, Named(t))), Pool(t, Named(t)));
  }

  /** Without a size test, bytes behind the image change nothing. */
  lemma {:induction false} TrailingBytesIgnored(t: seq<ProcInfo>, raw: seq<Raw>, tail: bytes)
    requires Packable(t, raw) && AllNamed(t) && |Pool(t, |t|)| < TWO31
    ensures ReadsAs(Image(t, raw) + tail, t)
  {
    hide EncHead, EncProcs, EncFds, Pool, Fds, PackedProc, DecHead, DecProcs, DecFds, TableMeaning;
    RecordsFit(t, raw);
    RecordsPadded(t, raw);
    var procs, fds, pool := Procs(t, raw, |t|), Fds(t, |t|), Pool(t, |t|);
    var h, ps, fs := EncHead(HeadOf(t)), EncProcs(procs), EncFds(fds);
    var b := Image(t, raw) + tail;
    assert b == h + (ps + (fs + (pool + tail)));
    HeadRoundTrip(HeadOf(t), ps + (fs + (pool + tail)));
    assert HeadOf(t).strSize == |pool|;
    RegionsWithoutSize(HeadOf(t), procs, fds, pool + tail);
    ImageCuts(h, ps, fs, pool + tail);
    assert PoolRegion(b) == pool;
    TableDecodes(t, raw);
  }

  lemma {:induction false} RecordsPadded(t: seq<ProcInfo>, raw: seq<Raw>)
    requires RawOf(t, raw)
    ensures forall i :: 0 <= i < |t| ==> |Procs(t, raw, Named(t))[i].pad| == 4
  {}

  /** A file that has lost or gained bytes is refused. */
  lemma {:induction false} OtherSizeRefused(b: bytes, c: bytes)
    requires SizeAccepted(b) && |c| >= 20 && c[..20] == b[..20] && |c| != |b|
    ensures !SizeAccepted(c)
  {
    assert forall i, j :: 0 <= i <= j <= 20 ==> b[i..j] == c[i..j] by {
      forall i, j | 0 <= i <= j <= 20 ensures b[i..j] == c[i..j] { assert b[i..j] == b[..20][i..j] == c[..20][i..j]; }
    }
    hide UnLe, WordInt;
    assert DecHead(b) == DecHead(c);
  }
}
