// The packed configuration file: struct confhead, an array of struct procinfo, one shared array of
// struct fdigest and one pool of NUL-terminated strings.  This module says which bytes the file
// holds and what a file means; ConfStore has the loops that write and read it.
module ConfFormat {
  import opened Bytes
  import opened ProcTable

  const HEAD_SIZE: nat := 20
  const PROC_SIZE: nat := 88
  const FD_SIZE: nat := 40
  /** PROCCONF_MAGIC, "PROCCNF" with its NUL. */
  const MAGIC: bytes := [80, 82, 79, 67, 67, 78, 70, 0]

  /** A union of a file offset and, once the file is in memory, a pointer
      (into the string pool or the fdigest array, as an index there). */
  datatype Ref = Pos(n: nat) | At(n: nat)

  datatype RawFd = RawFd(path: Ref, digest: digest)

  datatype RawProc = RawProc(ids: Ids, path: Ref, digest: digest, count: int, pad: bytes, libs: Ref)

  datatype Head = Head(magic: bytes, procCnt: int, figCnt: int, strSize: int)

  /** What the pointer fields of an in-memory struct procinfo hold besides their targets:
      the raw words, copied into the file wherever no offset replaces them. */
  datatype Raw = Raw(path: nat, libs: nat, pad: bytes)

  ghost predicate RawOf(t: seq<ProcInfo>, raw: seq<Raw>)
  {
    && |raw| == |t|
    && forall i :: 0 <= i < |t| ==>
         && raw[i].path < TWO64 && raw[i].libs < TWO64 && |raw[i].pad| == 4
         && (raw[i].path == 0 <==> t[i].path.Null?)
  }

  // ---------------------------------------------------------- record codecs

  function EncIds(x: Ids): (b: bytes)
    ensures |b| == 32
  {
    Le(x.pid, 4) + Le(x.ppid, 4) + Le(x.ruid, 4) + Le(x.rgid, 4)
    + Le(x.euid, 4) + Le(x.egid, 4) + Le(x.suid, 4) + Le(x.sgid, 4)
  }

  function Word(b: bytes, off: nat): word
    requires off + 4 <= |b|
  {
    UnLe(b[off..off + 4]) % TWO32
  }

  function DecIds(b: bytes): Ids
    requires |b| == 32
  {
    Ids(Word(b, 0), Word(b, 4), Word(b, 8), Word(b, 12), Word(b, 16), Word(b, 20), Word(b, 24), Word(b, 28))
  }

  lemma {:induction false} WordAt(b: bytes, off: nat, n: word)
    requires off + 4 <= |b| && b[off..off + 4] == Le(n, 4)
    ensures Word(b, off) == n
  {
    Pow256Values();
    LeRoundTrip(n, 4);
  }

  lemma {:induction false} IdsRoundTrip(x: Ids)
    ensures DecIds(EncIds(x)) == x
  {
    hide Le, UnLe, Word;
    var b := EncIds(x);
    WordAt(b, 0, x.pid);
    WordAt(b, 4, x.ppid);
    WordAt(b, 8, x.ruid);
    WordAt(b, 12, x.rgid);
    WordAt(b, 16, x.euid);
    WordAt(b, 20, x.egid);
    WordAt(b, 24, x.suid);
    WordAt(b, 28, x.sgid);
  }

  function EncFd(r: RawFd): (b: bytes)
    ensures |b| == FD_SIZE
  {
    Le(r.path.n, 8) + r.digest
  }

  function DecFd(b: bytes): RawFd
    requires |b| == FD_SIZE
  {
    RawFd(Pos(UnLe(b[..8])), b[8..])
  }

  function EncProc(r: RawProc): (b: bytes)
    requires |r.pad| == 4
    ensures |b| == PROC_SIZE
  {
    EncIds(r.ids) + Le(r.path.n, 8) + r.digest + Le(IntWord(r.count), 4) + r.pad + Le(r.libs.n, 8)
  }

  function DecProc(b: bytes): RawProc
    requires |b| == PROC_SIZE
  {
    RawProc(DecIds(b[..32]), Pos(UnLe(b[32..40])), b[40..72], WordInt(UnLe(b[72..76])), b[76..80],
            Pos(UnLe(b[80..])))
  }

  ghost predicate FdFits(r: RawFd) { r.path.Pos? && r.path.n < TWO64 }

  ghost predicate ProcFits(r: RawProc)
  {
    r.path.Pos? && r.path.n < TWO64 && r.libs.Pos? && r.libs.n < TWO64 && 0 <= r.count < TWO31 && |r.pad| == 4
  }

  lemma {:induction false} FdRoundTrip(r: RawFd)
    requires FdFits(r)
    ensures DecFd(EncFd(r)) == r
  {
    Pow256Values();
    LeRoundTrip(r.path.n, 8);
    assert EncFd(r)[..8] == Le(r.path.n, 8);
  }

  lemma {:induction false} ProcRoundTrip(r: RawProc)
    requires ProcFits(r)
    ensures DecProc(EncProc(r)) == r
  {
    hide Le, UnLe, EncIds, DecIds, Pow256;
    Pow256Values();
    LeRoundTrip(r.path.n, 8);
    LeRoundTrip(r.libs.n, 8);
    LeRoundTrip(IntWord(r.count), 4);
    IdsRoundTrip(r.ids);
    var b := EncProc(r);
    assert b[..32] == EncIds(r.ids);
    assert b[32..40] == Le(r.path.n, 8);
    assert b[40..72] == r.digest;
    assert b[72..76] == Le(IntWord(r.count), 4);
    assert b[76..80] == r.pad;
    assert b[80..] == Le(r.libs.n, 8);
  }

  function EncHead(h: Head): (b: bytes)
    requires |h.magic| == 8
    ensures |b| == HEAD_SIZE
  {
    h.magic + Le(IntWord(h.procCnt), 4) + Le(IntWord(h.figCnt), 4) + Le(IntWord(h.strSize), 4)
  }

  function DecHead(b: bytes): Head
    requires |b| >= HEAD_SIZE
  {
    Head(b[..8], WordInt(UnLe(b[8..12])), WordInt(UnLe(b[12..16])), WordInt(UnLe(b[16..20])))
  }

  ghost predicate IntRange(n: int) { -0x8000_0000 <= n < TWO31 }

  lemma {:induction false} IntWordRoundTrip(n: int)
    requires IntRange(n)
    ensures IntWord(n) < Pow256(4) && WordInt(UnLe(Le(IntWord(n), 4))) == n
  {
    Pow256Values();
    LeRoundTrip(IntWord(n), 4);
  }

  lemma {:induction false} HeadRoundTrip(h: Head, rest: bytes)
    requires |h.magic| == 8 && IntRange(h.procCnt) && IntRange(h.figCnt) && IntRange(h.strSize)
    ensures DecHead(EncHead(h) + rest) == h
  {
    IntWordRoundTrip(h.procCnt);
    IntWordRoundTrip(h.figCnt);
    IntWordRoundTrip(h.strSize);
    var b := EncHead(h) + rest;
    assert b[..8] == h.magic;
    assert b[8..12] == Le(IntWord(h.procCnt), 4);
    assert b[12..16] == Le(IntWord(h.figCnt), 4);
    assert b[16..20] == Le(IntWord(h.strSize), 4);
  }

  // ---------------------------------------------------------- record arrays

  function EncFds(rs: seq<RawFd>): (b: bytes)
    ensures |b| == FD_SIZE * |rs|
  {
    if |rs| == 0 then [] else EncFd(rs[0]) + EncFds(rs[1..])
  }

  /** The first `n` records of `b` (fewer when `b` ends early). */
  function DecFds(b: bytes, n: nat): (rs: seq<RawFd>)
    ensures |rs| <= n && (FD_SIZE * n <= |b| ==> |rs| == n)
  {
    if n == 0 || |b| < FD_SIZE then [] else [DecFd(b[..FD_SIZE])] + DecFds(b[FD_SIZE..], n - 1)
  }

  function EncProcs(rs: seq<RawProc>): (b: bytes)
    requires forall i :: 0 <= i < |rs| ==> |rs[i].pad| == 4
    ensures |b| == PROC_SIZE * |rs|
  {
    if |rs| == 0 then [] else EncProc(rs[0]) + EncProcs(rs[1..])
  }

  function DecProcs(b: bytes, n: nat): (rs: seq<RawProc>)
    ensures |rs| <= n && (PROC_SIZE * n <= |b| ==> |rs| == n)
  {
    if n == 0 || |b| < PROC_SIZE then [] else [DecProc(b[..PROC_SIZE])] + DecProcs(b[PROC_SIZE..], n - 1)
  }

  lemma {:induction false} FdsRoundTrip(rs: seq<RawFd>, rest: bytes)
    requires forall i :: 0 <= i < |rs| ==> FdFits(rs[i])
    ensures DecFds(EncFds(rs) + rest, |rs|) == rs
  {
    if |rs| > 0 {
      var b := EncFds(rs) + rest;
      assert b[..FD_SIZE] == EncFd(rs[0]);
      assert b[FD_SIZE..] == EncFds(rs[1..]) + rest;
      FdRoundTrip(rs[0]);
      FdsRoundTrip(rs[1..], rest);
    }
  }

  lemma {:induction false} ProcsRoundTrip(rs: seq<RawProc>, rest: bytes)
    requires forall i :: 0 <= i < |rs| ==> ProcFits(rs[i])
    ensures (forall i :: 0 <= i < |rs| ==> |rs[i].pad| == 4) && DecProcs(EncProcs(rs) + rest, |rs|) == rs
  {
    assert forall i :: 0 <= i < |rs| ==> ProcFits(rs[i]) && |rs[i].pad| == 4;
    if |rs| > 0 {
      var b := EncProcs(rs) + rest;
      assert b[..PROC_SIZE] == EncProc(rs[0]);
      assert b[PROC_SIZE..] == EncProcs(rs[1..]) + rest;
      ProcRoundTrip(rs[0]);
      ProcsRoundTrip(rs[1..], rest);
    }
  }

  // ------------------------------------------------------- packing a table

  /** The paths of the first `n` libraries, each with its NUL. */
  function LibPool(libs: seq<FDigest>, n: nat): bytes
    requires n <= |libs|
  {
    if n == 0 then [] else LibPool(libs, n - 1) + (libs[n - 1].path + [0])
  }

  function ProcPool(p: ProcInfo): bytes { (PathOf(p) + [0]) + LibPool(p.libs, |p.libs|) }

  /** The string pool of the first `n` processes: each path followed by its libraries' paths. */
  function Pool(t: seq<ProcInfo>, n: nat): bytes
    requires n <= |t|
  {
    if n == 0 then [] else Pool(t, n - 1) + ProcPool(t[n - 1])
  }

  /** Digest record `j` of a process whose library paths start at `base` in the pool. */
  function LibFd(libs: seq<FDigest>, base: nat, j: nat): RawFd
    requires j < |libs|
  {
    RawFd(Pos(base + |LibPool(libs, j)|), libs[j].digest)
  }

  function LibFds(libs: seq<FDigest>, base: nat, n: nat): (r: seq<RawFd>)
    requires n <= |libs|
    ensures |r| == n
  {
    if n == 0 then [] else LibFds(libs, base, n - 1) + [LibFd(libs, base, n - 1)]
  }

  /** Where the library paths of process `i` start in the pool. */
  function LibBase(t: seq<ProcInfo>, i: nat): nat
    requires i < |t|
  {
    |Pool(t, i)| + |PathOf(t[i])| + 1
  }

  /** The shared digest array of the first `n` processes. */
  function Fds(t: seq<ProcInfo>, n: nat): seq<RawFd>
    requires n <= |t|
  {
    if n == 0 then [] else Fds(t, n - 1) + LibFds(t[n - 1].libs, LibBase(t, n - 1), |t[n - 1].libs|)
  }

  /** Entries before the first NULL path; the packing loops stop there. */
  function Live(t: seq<ProcInfo>, from: nat): (n: nat)
    requires from <= |t|
    ensures from <= n <= |t| && (forall i :: from <= i < n ==> t[i].path.Str?) && (n < |t| ==> t[n].path.Null?)
    decreases |t| - from
  {
    if from == |t| || t[from].path.Null? then from else Live(t, from + 1)
  }

  function Named(t: seq<ProcInfo>): (n: nat)
    ensures n <= |t| && (n == |t| <==> AllNamed(t)) && (n < |t| ==> t[n].path.Null?)
    ensures forall i :: 0 <= i < n ==> t[i].path.Str?
  {
    Live(t, 0)
  }

  function CopyOf(p: ProcInfo, raw: Raw): RawProc
  {
    RawProc(p.ids, Pos(raw.path), p.digest, |p.libs|, raw.pad, Pos(raw.libs))
  }

  /** An entry with its offsets filled in; without libraries it keeps its stale pointer word. */
  function WithOffsets(c: RawProc, spos: nat, fpos: nat): RawProc
  {
    var p := c.(path := Pos(spos));
    if c.count > 0 then p.(libs := Pos(fpos)) else p
  }

  function PackedProc(t: seq<ProcInfo>, raw: seq<Raw>, i: nat): RawProc
    requires i < |t| == |raw|
  {
    WithOffsets(CopyOf(t[i], raw[i]), |Pool(t, i)|, |Fds(t, i)|)
  }

  /** The process array when the first `n` entries have been packed. */
  function Procs(t: seq<ProcInfo>, raw: seq<Raw>, n: nat): (r: seq<RawProc>)
    requires n <= |t| == |raw|
    ensures |r| == |t|
  {
    seq(|t|, i requires 0 <= i < |t| => if i < n then PackedProc(t, raw, i) else CopyOf(t[i], raw[i]))
  }

  function HeadOf(t: seq<ProcInfo>): (h: Head)
    ensures |h.magic| == 8 && h.procCnt == |t| && IntRange(h.strSize)
  {
    Head(MAGIC, |t|, |Fds(t, Named(t))|, WordInt(IntWord(|Pool(t, Named(t))|)))
  }

  /** The bytes of the packed file. */
  function Image(t: seq<ProcInfo>, raw: seq<Raw>): bytes
    requires |t| == |raw| && forall i :: 0 <= i < |raw| ==> |raw[i].pad| == 4
  {
    EncHead(HeadOf(t))
    + (EncProcs(Procs(t, raw, Named(t))) + (EncFds(Fds(t, Named(t))) + Pool(t, Named(t))))
  }

  /** The sizes a C `int` (and, for the pool, a size_t) must hold while the table is packed. */
  ghost predicate CountsFit(t: seq<ProcInfo>)
  {
    && |t| < TWO31 && |Fds(t, Named(t))| < TWO31 && |Pool(t, Named(t))| < TWO64 / 2
    && forall i :: 0 <= i < |t| ==> |t[i].libs| < TWO31
  }

  ghost predicate Packable(t: seq<ProcInfo>, raw: seq<Raw>) { RawOf(t, raw) && CountsFit(t) }

  // ------------------------------------------------------ meaning of a file

  /** Where `spos` and `fpos` of the file lead; None when one leads outside the file.  A table needs
      non-negative counts: the C code adds and compares them as they are. */
  function FdMeaning(r: RawFd, pool: bytes): Option<FDigest>
  {
    match StrAt(pool, r.path.n)
    case Some(s) => Some(FDigest(s, r.digest))
    case None => None
  }

  function FdsMeaning(rs: seq<RawFd>, pool: bytes): (m: Option<seq<FDigest>>)
    ensures m.Some? ==> |m.value| == |rs|
  {
    if |rs| == 0 then Some([]) else
      match (FdMeaning(rs[0], pool), FdsMeaning(rs[1..], pool))
      case (Some(d), Some(ds)) => Some([d] + ds)
      case _ => None
  }

  function ProcMeaning(r: RawProc, fds: seq<RawFd>, pool: bytes): Option<ProcInfo>
  {
    if r.count < 0 || (r.count > 0 && r.libs.n + r.count > |fds|) then None else
      var libs := if r.count > 0 then fds[r.libs.n..r.libs.n + r.count] else [];
      match (StrAt(pool, r.path.n), FdsMeaning(libs, pool))
      case (Some(s), Some(ls)) => Some(ProcInfo(r.ids, Str(s), r.digest, ls))
      case _ => None
  }

  function TableMeaning(rs: seq<RawProc>, fds: seq<RawFd>, pool: bytes): (m: Option<seq<ProcInfo>>)
    ensures m.Some? ==> |m.value| == |rs| && AllNamed(m.value)
  {
    if |rs| == 0 then Some([]) else
      match (ProcMeaning(rs[0], fds, pool), TableMeaning(rs[1..], fds, pool))
      case (Some(p), Some(ps)) => Some([p] + ps)
      case _ => None
  }

  /** The three regions behind the header, cut by the counts the header gives. */
  function ProcRegion(b: bytes): seq<RawProc>
    requires |b| >= HEAD_SIZE && DecHead(b).procCnt >= 0
  {
    DecProcs(b[HEAD_SIZE..], DecHead(b).procCnt)
  }

  function FdRegion(b: bytes): seq<RawFd>
    requires |b| >= HEAD_SIZE && DecHead(b).procCnt >= 0 && DecHead(b).figCnt >= 0
    requires HEAD_SIZE + PROC_SIZE * DecHead(b).procCnt <= |b|
  {
    DecFds(b[HEAD_SIZE + PROC_SIZE * DecHead(b).procCnt..], DecHead(b).figCnt)
  }

  function PoolOffset(h: Head): int { HEAD_SIZE + PROC_SIZE * h.procCnt + FD_SIZE * h.figCnt }

  /** Every region lies inside the buffer. */
  predicate RegionsInside(b: bytes)
  {
    && |b| >= HEAD_SIZE
    && var h := DecHead(b);
       h.procCnt >= 0 && h.figCnt >= 0 && h.strSize >= 0 && PoolOffset(h) + h.strSize <= |b|
  }

  function PoolRegion(b: bytes): bytes
    requires RegionsInside(b)
  {
    var h := DecHead(b);
    b[PoolOffset(h)..PoolOffset(h) + h.strSize]
  }

  /** The table a file denotes. */
  function FileMeaning(b: bytes): Option<seq<ProcInfo>>
    requires RegionsInside(b)
  {
    TableMeaning(ProcRegion(b), FdRegion(b), PoolRegion(b))
  }

  /** The file is complete and denotes exactly this table. */
  ghost predicate ReadsAs(b: bytes, t: seq<ProcInfo>) { RegionsInside(b) && FileMeaning(b) == Some(t) }
}
