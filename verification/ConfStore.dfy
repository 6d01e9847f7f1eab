// The loops that write and read the packed configuration file: reg_config and build_conf of the
// client library, append_conf and read_conf of the configuration tool.
module ConfStore {
  import opened Bytes
  import opened ProcTable
  import opened ConfFormat
  import opened ConfRoundTrip

  method Memcpy(dst: array<byte>, off: nat, src: bytes)
    requires off + |src| <= dst.Length
    modifies dst
    ensures dst[..off + |src|] == old(dst[..off]) + src
    ensures forall k :: off + |src| <= k < dst.Length ==> dst[k] == old(dst[k])
  {
    forall k | 0 <= k < |src| { dst[off + k] := src[k]; }
  }

  // ------------------------------------------------------------- packing

  method LibsSize(libs: seq<FDigest>) returns (size: nat)
    ensures size == |LibPool(libs, |libs|)|
  {
    size := 0;
    var j := 0;
    while j < |libs|
      invariant j <= |libs| && size == |LibPool(libs, j)|
    {
      size := size + |libs[j].path| + 1;
      j := j + 1;
    }
  }

  /** First pass: string size and digest count. */
  method SizePass(t: seq<ProcInfo>) returns (ssz: nat, fdcnt: nat)
    ensures ssz == |Pool(t, Named(t))| && fdcnt == |Fds(t, Named(t))|
  {
    hide LibPool, LibFds;
    ssz, fdcnt := 0, 0;
    var i := 0;
    while i < |t| && t[i].path.Str?
      invariant i <= Named(t)
      invariant ssz == |Pool(t, i)| && fdcnt == |Fds(t, i)|
    {
      ssz := ssz + |t[i].path.s| + 1;
      fdcnt := fdcnt + |t[i].libs|;
      var size := LibsSize(t[i].libs);
      ssz := ssz + size;
      i := i + 1;
    }
  }

  ghost predicate ZeroFrom(a: bytes, n: nat) { forall k :: n <= k < |a| ==> a[k] == 0 }

  /** One string goes into the zeroed rest of the pool; its NUL is already there. */
  method PutString(sbuf: array<byte>, spos: nat, s: cstring) returns (spos': nat)
    requires spos + |s| + 1 <= sbuf.Length && ZeroFrom(sbuf[..], spos)
    modifies sbuf
    ensures spos' == spos + |s| + 1 && ZeroFrom(sbuf[..], spos')
    ensures sbuf[..spos'] == old(sbuf[..spos]) + (s + [0])
  {
    ghost var was := sbuf[..];
    Memcpy(sbuf, spos, s);
    spos' := spos + |s| + 1;
    assert forall k :: spos' <= k < |was| ==> sbuf[k] == was[k];
    assert sbuf[spos + |s|] == was[spos + |s|] == 0;
    assert sbuf[..spos'] == was[..spos] + (s + [0]);
  }

  method PackLibs(libs: seq<FDigest>, sbuf: array<byte>, spos: nat, fdp: array<RawFd>, fpos: nat)
    returns (spos': nat, fpos': nat)
    requires spos + |LibPool(libs, |libs|)| <= sbuf.Length && fpos + |libs| <= fdp.Length
    requires ZeroFrom(sbuf[..], spos)
    modifies sbuf, fdp
    ensures fpos' == fpos + |libs| && fdp[..fpos'] == old(fdp[..fpos]) + LibFds(libs, spos, |libs|)
    ensures spos' == spos + |LibPool(libs, |libs|)| && ZeroFrom(sbuf[..], spos')
    ensures sbuf[..spos'] == old(sbuf[..spos]) + LibPool(libs, |libs|)
  {
    spos', fpos' := spos, fpos;
    var j := 0;
    while j < |libs|
      invariant j <= |libs|
      invariant fpos' == fpos + j && fdp[..fpos'] == old(fdp[..fpos]) + LibFds(libs, spos, j)
      invariant spos' == spos + |LibPool(libs, j)| <= sbuf.Length && ZeroFrom(sbuf[..], spos')
      invariant sbuf[..spos'] == old(sbuf[..spos]) + LibPool(libs, j)
    {
      LibPoolHas(libs, j, |libs|);
      ghost var pre := sbuf[..spos'];
      fdp[fpos'] := RawFd(Pos(spos'), libs[j].digest);
      spos' := PutString(sbuf, spos', libs[j].path);
      assert pre + (libs[j].path + [0]) == old(sbuf[..spos]) + (LibPool(libs, j) + (libs[j].path + [0]));
      fpos' := fpos' + 1;
      j := j + 1;
    }
  }

  lemma {:induction false} MoreToPack(t: seq<ProcInfo>, i: nat)
    requires i <= Named(t) && i < |t| && t[i].path.Str?
    ensures i < Named(t)
  {
    var n := Named(t);
    assert n < |t| ==> t[n].path.Null?;
  }

  lemma {:induction false} RoomForProc(t: seq<ProcInfo>, i: nat, n: nat)
    requires i < n <= |t|
    ensures |Pool(t, i)| + |ProcPool(t[i])| <= |Pool(t, n)|
    ensures |Fds(t, i)| + |t[i].libs| <= |Fds(t, n)|
  {
    PoolHasProc(t, i, n);
    FdsHasProc(t, i, n);
  }

  /** The state of the second pass after `i` entries: strings, digest records, cursors. */
  ghost predicate Packed(t: seq<ProcInfo>, i: nat, fdp: seq<RawFd>, fpos: nat, sbuf: bytes, spos: nat)
    requires i <= |t|
  {
    && fpos <= |fdp| && fdp[..fpos] == Fds(t, i)
    && spos <= |sbuf| && sbuf[..spos] == Pool(t, i) && ZeroFrom(sbuf, spos)
  }

  lemma {:induction false} ProcsStep(t: seq<ProcInfo>, raw: seq<Raw>, i: nat)
    requires i < |t| == |raw|
    ensures Procs(t, raw, i + 1) == Procs(t, raw, i)[i := WithOffsets(Procs(t, raw, i)[i], |Pool(t, i)|, |Fds(t, i)|)]
  {}

  /** The strings and digest records of one entry. */
  method PackStrings(p: ProcInfo, sbuf: array<byte>, spos: nat, fdp: array<RawFd>, fpos: nat)
    returns (spos': nat, fpos': nat)
    requires spos + |ProcPool(p)| <= sbuf.Length && fpos + |p.libs| <= fdp.Length
    requires ZeroFrom(sbuf[..], spos)
    modifies sbuf, fdp
    ensures fpos' == fpos + |p.libs|
    ensures fdp[..fpos'] == old(fdp[..fpos]) + LibFds(p.libs, spos + |PathOf(p)| + 1, |p.libs|)
    ensures spos' == spos + |ProcPool(p)| && ZeroFrom(sbuf[..], spos')
    ensures sbuf[..spos'] == old(sbuf[..spos]) + ProcPool(p)
  {
    ghost var pre, path, libPool := sbuf[..spos], PathOf(p) + [0], LibPool(p.libs, |p.libs|);
    spos' := PutString(sbuf, spos, PathOf(p));
    spos', fpos' := PackLibs(p.libs, sbuf, spos', fdp, fpos);
    assert pre + path + libPool == pre + (path + libPool);
  }

  lemma {:induction false} EntryPacked(t: seq<ProcInfo>, i: nat, pool: bytes, fds: seq<RawFd>, base: nat,
                                       fdp: seq<RawFd>, fpos: nat, sbuf: bytes, spos: nat)
    requires i < |t| && fpos <= |fdp| && spos <= |sbuf|
    requires pool == Pool(t, i) && fds == Fds(t, i) && base == LibBase(t, i)
    requires fdp[..fpos] == fds + LibFds(t[i].libs, base, |t[i].libs|)
    requires sbuf[..spos] == pool + ProcPool(t[i]) && ZeroFrom(sbuf, spos)
    ensures Packed(t, i + 1, fdp, fpos, sbuf, spos)
  {}

  /** One round of the second pass on entry `i`. */
  method PackEntry(p: ProcInfo, i: nat, cpif: array<RawProc>, fdp: array<RawFd>, fpos: nat,
                   sbuf: array<byte>, spos: nat)
    returns (fpos': nat, spos': nat)
    requires i < cpif.Length
    requires spos + |ProcPool(p)| <= sbuf.Length && fpos + |p.libs| <= fdp.Length
    requires ZeroFrom(sbuf[..], spos)
    modifies cpif, fdp, sbuf
    ensures cpif[..] == old(cpif[..])[i := WithOffsets(old(cpif[i]), spos, fpos)]
    ensures fpos' == fpos + |p.libs|
    ensures fdp[..fpos'] == old(fdp[..fpos]) + LibFds(p.libs, spos + |PathOf(p)| + 1, |p.libs|)
    ensures spos' == spos + |ProcPool(p)| && ZeroFrom(sbuf[..], spos')
    ensures sbuf[..spos'] == old(sbuf[..spos]) + ProcPool(p)
  {
    cpif[i] := cpif[i].(path := Pos(spos));
    if cpif[i].count > 0 { cpif[i] := cpif[i].(libs := Pos(fpos)); }
    spos', fpos' := PackStrings(p, sbuf, spos, fdp, fpos);
  }

  /** The second pass.  Both cursors stop exactly where the first pass said they would. */
  method Pack(t: seq<ProcInfo>, raw: seq<Raw>)
    returns (cpif: array<RawProc>, fdp: array<RawFd>, sbuf: array<byte>)
    requires |t| == |raw|
    ensures fresh(cpif) && fresh(fdp) && fresh(sbuf)
    ensures cpif[..] == Procs(t, raw, Named(t))
    ensures fdp[..] == Fds(t, Named(t))
    ensures sbuf[..] == Pool(t, Named(t))
  {
    hide LibFds, ProcPool, PackedProc, LibPool;
    cpif := new RawProc[|t|](i requires 0 <= i < |t| == |raw| => CopyOf(t[i], raw[i]));
    var ssz, fdcnt := SizePass(t);
    fdp := new RawFd[fdcnt](_ => RawFd(Pos(0), seq(32, _ => 0)));
    sbuf := new byte[ssz](_ => 0);
    var spos: nat, fpos: nat, i := 0, 0, 0;
    while i < |t| && t[i].path.Str?
      invariant i <= Named(t)
      invariant cpif[..] == Procs(t, raw, i)
      invariant Packed(t, i, fdp[..], fpos, sbuf[..], spos)
    {
      MoreToPack(t, i);
      RoomForProc(t, i, Named(t));
      ProcsStep(t, raw, i);
      assert |sbuf[..spos]| == spos && |fdp[..fpos]| == fpos;
      ghost var pool, fds, base := sbuf[..spos], fdp[..fpos], spos + |PathOf(t[i])| + 1;
      fpos, spos := PackEntry(t[i], i, cpif, fdp, fpos, sbuf, spos);
      EntryPacked(t, i, pool, fds, base, fdp[..], fpos, sbuf[..], spos);
      i := i + 1;
    }
    assert i == Named(t);
    assert spos == ssz && fpos == fdcnt;
    assert sbuf[..] == sbuf[..spos] && fdp[..] == fdp[..fpos];
  }

  /** The four regions are copied one behind the other. */
  method Assemble(h: bytes, ps: bytes, fs: bytes, pool: bytes) returns (pbuf: array<byte>)
    ensures fresh(pbuf) && pbuf[..] == h + (ps + (fs + pool))
  {
    pbuf := new byte[|h| + |ps| + |fs| + |pool|](_ => 0);
    var off := Append(pbuf, 0, h, []);
    off := Append(pbuf, off, ps, h);
    off := Append(pbuf, off, fs, h + ps);
    off := Append(pbuf, off, pool, h + ps + fs);
    assert pbuf[..] == pbuf[..off];
    Regroup(h, ps, fs, pool);
  }

  method Append(dst: array<byte>, off: nat, src: bytes, ghost before: bytes) returns (off': nat)
    requires off + |src| <= dst.Length && dst[..off] == before
    modifies dst
    ensures off' == off + |src| && dst[..off'] == before + src
  {
    Memcpy(dst, off, src);
    off' := off + |src|;
  }

  lemma {:induction false} Regroup(h: bytes, ps: bytes, fs: bytes, pool: bytes)
    ensures h + ps + fs + pool == h + (ps + (fs + pool))
  {}

  /** reg_config: the file holds the image of the table. */
  method RegConfig(t: seq<ProcInfo>, raw: seq<Raw>) returns (pbuf: array<byte>)
    requires Packable(t, raw)
    ensures fresh(pbuf) && pbuf[..] == Image(t, raw)
  {
    var cpif, fdp, sbuf := Pack(t, raw);
    var head := Head(MAGIC, cpif.Length, fdp.Length, WordInt(IntWord(sbuf.Length)));
    assert |cpif[..]| == |t| && |fdp[..]| == |Fds(t, Named(t))| && |sbuf[..]| == |Pool(t, Named(t))|;
    assert head == HeadOf(t);
    RecordsPadded(t, raw);
    pbuf := Assemble(EncHead(head), EncProcs(cpif[..]), EncFds(fdp[..]), sbuf[..]);
  }

  // ------------------------------------------------------------ unpacking

  function Linked(r: RawProc): RawProc
  {
    var p := r.(path := At(r.path.n));
    if r.count > 0 then p.(libs := At(r.libs.n)) else p
  }

  function LinkedFd(r: RawFd): RawFd { r.(path := At(r.path.n)) }

  /** Offsets are replaced, in place, by pointers to the same places. */
  method LinkTable(cpif: array<RawProc>, fdp: array<RawFd>)
    modifies cpif, fdp
    ensures forall i :: 0 <= i < cpif.Length ==> cpif[i] == Linked(old(cpif[i]))
    ensures forall i :: 0 <= i < fdp.Length ==> fdp[i] == LinkedFd(old(fdp[i]))
  {
    var i := 0;
    while i < cpif.Length
      invariant i <= cpif.Length
      invariant forall k :: 0 <= k < cpif.Length ==> cpif[k] == if k < i then Linked(old(cpif[k])) else old(cpif[k])
      invariant fdp[..] == old(fdp[..])
    {
      cpif[i] := cpif[i].(path := At(cpif[i].path.n));
      if cpif[i].count > 0 { cpif[i] := cpif[i].(libs := At(cpif[i].libs.n)); }
      i := i + 1;
    }
    i := 0;
    while i < fdp.Length
      invariant i <= fdp.Length
      invariant forall k :: 0 <= k < fdp.Length ==> fdp[k] == if k < i then LinkedFd(old(fdp[k])) else old(fdp[k])
      invariant forall k :: 0 <= k < cpif.Length ==> cpif[k] == Linked(old(cpif[k]))
    {
      fdp[i] := fdp[i].(path := At(fdp[i].path.n));
      i := i + 1;
    }
  }

  /** Every pointer a reader follows has been set. */
  ghost predicate AllLinked(cpif: seq<RawProc>, fdp: seq<RawFd>)
  {
    && (forall i :: 0 <= i < |cpif| ==> cpif[i].path.At? && (cpif[i].count > 0 ==> cpif[i].libs.At?))
    && (forall i :: 0 <= i < |fdp| ==> fdp[i].path.At?)
  }

  lemma {:induction false} LinkedFdsMean(rs: seq<RawFd>, ls: seq<RawFd>, pool: bytes)
    requires |rs| == |ls| && forall i :: 0 <= i < |rs| ==> ls[i] == LinkedFd(rs[i])
    ensures FdsMeaning(ls, pool) == FdsMeaning(rs, pool)
  {
    if |rs| > 0 { LinkedFdsMean(rs[1..], ls[1..], pool); }
  }

  lemma {:induction false} LinkedProcMeans(r: RawProc, fds: seq<RawFd>, lfds: seq<RawFd>, pool: bytes)
    requires |fds| == |lfds| && forall i :: 0 <= i < |fds| ==> lfds[i] == LinkedFd(fds[i])
    ensures ProcMeaning(Linked(r), lfds, pool) == ProcMeaning(r, fds, pool)
  {
    hide FdsMeaning, StrAt;
    if r.count > 0 && r.libs.n + r.count <= |fds| {
      var rs, ls := fds[r.libs.n..r.libs.n + r.count], lfds[r.libs.n..r.libs.n + r.count];
      forall i | 0 <= i < |rs| ensures ls[i] == LinkedFd(rs[i]) {
        assert rs[i] == fds[r.libs.n + i] && ls[i] == lfds[r.libs.n + i];
      }
      LinkedFdsMean(rs, ls, pool);
    }
  }

  /** Linking does not change what the table means. */
  lemma {:induction false} LinkedTableMeans(rs: seq<RawProc>, ls: seq<RawProc>,
                                            fds: seq<RawFd>, lfds: seq<RawFd>, pool: bytes)
    requires |rs| == |ls| && forall i :: 0 <= i < |rs| ==> ls[i] == Linked(rs[i])
    requires |fds| == |lfds| && forall i :: 0 <= i < |fds| ==> lfds[i] == LinkedFd(fds[i])
    ensures TableMeaning(ls, lfds, pool) == TableMeaning(rs, fds, pool)
  {
    if |rs| > 0 {
      LinkedProcMeans(rs[0], fds, lfds, pool);
      LinkedTableMeans(rs[1..], ls[1..], fds, lfds, pool);
    }
  }

  /** The regions behind a header, as arrays whose pointers are set. */
  method LinkRegions(buf: bytes) returns (cpif: array<RawProc>, fdp: array<RawFd>, sbuf: bytes)
    requires RegionsInside(buf)
    ensures fresh(cpif) && fresh(fdp)
    ensures cpif.Length == DecHead(buf).procCnt && AllLinked(cpif[..], fdp[..])
    ensures TableMeaning(cpif[..], fdp[..], sbuf) == FileMeaning(buf)
  {
    var procs, fds := ProcRegion(buf), FdRegion(buf);
    cpif := new RawProc[|procs|](i requires 0 <= i < |procs| => procs[i]);
    fdp := new RawFd[|fds|](i requires 0 <= i < |fds| => fds[i]);
    sbuf := PoolRegion(buf);
    assert cpif[..] == procs && fdp[..] == fds;
    LinkTable(cpif, fdp);
    LinkedTableMeans(procs, cpif[..], fds, fdp[..], sbuf);
  }

  /** build_conf: refuses a file whose size disagrees with its header. */
  method BuildConf(buf: bytes)
    returns (cnt: int, cpif: array<RawProc>, fdp: array<RawFd>, sbuf: bytes)
    requires |buf| >= HEAD_SIZE
    requires SizeTest(buf) ==> RegionsInside(buf)
    ensures !SizeTest(buf) ==> cnt == 0 && cpif.Length == 0
    ensures SizeTest(buf) ==> cnt == DecHead(buf).procCnt == cpif.Length
    ensures SizeTest(buf) ==> AllLinked(cpif[..], fdp[..])
                              && TableMeaning(cpif[..], fdp[..], sbuf) == FileMeaning(buf)
  {
    var head := DecHead(buf);
    if |buf| != (HEAD_SIZE + PROC_SIZE * head.procCnt + FD_SIZE * head.figCnt + head.strSize) % TWO64 {
      cnt, sbuf := 0, [];
      cpif, fdp := new RawProc[0], new RawFd[0];
      return;
    }
    cpif, fdp, sbuf := LinkRegions(buf);
    cnt := head.procCnt;
  }

  /** Registering a table and reading the file back: the table itself when it can be stored,
      an empty one when its pool overflows the header field. */
  method StoreAndLoad(t: seq<ProcInfo>, raw: seq<Raw>) returns (cnt: int, loaded: Option<seq<ProcInfo>>)
    requires Packable(t, raw)
    ensures |Pool(t, Named(t))| >= TWO31 ==> cnt == 0 && loaded == Some([])
    ensures |Pool(t, Named(t))| < TWO31 ==> cnt == |t| && (loaded == Some(t) <==> AllNamed(t))
  {
    var file := RegConfig(t, raw);
    SizeTestExact(t, raw);
    RoundTripExact(t, raw);
    if |Pool(t, Named(t))| < TWO31 { ImageRegions(t, raw); ImageHead(t, raw); }
    var cpif, fdp, sbuf;
    cnt, cpif, fdp, sbuf := BuildConf(file[..]);
    loaded := TableMeaning(cpif[..], fdp[..], sbuf);
  }

  // ------------------------------------------------ the configuration tool

  /** What read_binary measured: the library count (negative on failure) and the digests. */
  datatype Measured = Measured(libsCnt: int, path: cstring, digest: digest, libs: seq<FDigest>)

  /** The entry append_conf adds. */
  function NewEntry(m: Measured, uid: word, gid: word): (e: ProcInfo)
    ensures e.path == Str(m.path) && e.digest == m.digest && e.libs == m.libs
    ensures e.ids.pid == 0 && e.ids.ppid == 0 && e.ids.ruid == e.ids.euid == e.ids.suid == uid
    ensures e.ids.rgid == e.ids.egid == e.ids.sgid == gid
  {
    ProcInfo(Ids(0, 0, uid, gid, uid, gid, uid, gid), Str(m.path), m.digest, m.libs)
  }

  /** append_conf on a readable file: nothing to measure leaves the file alone; otherwise the file
      is rewritten as the packing of the old table followed by the new entry. */
  method AppendConf(file: bytes, ghost table: seq<ProcInfo>, m: Measured, uid: word, gid: word, raw: seq<Raw>)
    returns (rc: int, file': bytes)
    requires ReadsAs(file, table)
    requires m.libsCnt > 0 ==> |m.libs| == m.libsCnt
    requires Packable(table + [NewEntry(m, uid, gid)], raw)
    ensures m.libsCnt <= 0 ==> rc == m.libsCnt && file' == file
    ensures m.libsCnt > 0 ==> rc == 0
    ensures m.libsCnt > 0 ==>
      var t := table + [NewEntry(m, uid, gid)];
      |Pool(t, |t|)| < TWO31 <==> ReadsAs(file', t)
  {
    if m.libsCnt <= 0 { return m.libsCnt, file; }
    var cpif, fdp, sbuf := LinkRegions(file);
    var oldTable := TableMeaning(cpif[..], fdp[..], sbuf).value;
    var t := oldTable + [NewEntry(m, uid, gid)];
    var pbuf := RegConfig(t, raw);
    UncheckedRoundTripExact(t, raw);
    rc, file' := 0, pbuf[..];
  }
}
