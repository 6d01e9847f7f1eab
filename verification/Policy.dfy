// The verifier's decisions: digests against the configuration, the invocation chain and the user
// ids against a policy statement, and the conjunction of all of them.
module Policy {
  import opened Bytes
  import opened ProcTable
  import opened HashIndex
  import opened ConfFormat
  import ConfStore

  const VERIFY_TPM2_QUOTE: bv8 := 0x01
  const VERIFY_TPM2_FRESH: bv8 := 0x02
  const VERIFY_PICA_BINARIES: bv8 := 0x04
  const VERIFY_PICA_CHAIN: bv8 := 0x08
  const VERIFY_PICA_UIDS: bv8 := 0x10

  predicate VerifiedAll(v: bv8)
  {
    var all := VERIFY_TPM2_QUOTE | VERIFY_PICA_BINARIES | VERIFY_PICA_CHAIN | VERIFY_PICA_UIDS;
    v & all == all
  }

  // ------------------------------------------------------------- digests

  predicate NamedAt(libs: seq<FDigest>, name: cstring, j: nat) { j < |libs| && libs[j].path == name }

  /** No registered library of this name, or the first one has this digest. */
  ghost predicate LibAgrees(reg: seq<FDigest>, lib: FDigest)
  {
    forall j: nat :: NamedAt(reg, lib.path, j) && (forall k: nat :: k < j ==> !NamedAt(reg, lib.path, k))
      ==> reg[j].digest == lib.digest
  }

  ghost predicate DigestsAgree(reg: ProcInfo, meas: ProcInfo)
  {
    && |reg.libs| == |meas.libs| && reg.digest == meas.digest
    && forall i :: 0 <= i < |meas.libs| ==> LibAgrees(reg.libs, meas.libs[i])
  }

  /** pica_verify_digest */
  method VerifyDigest(reg: ProcInfo, meas: ProcInfo) returns (rc: int)
    ensures rc == if DigestsAgree(reg, meas) then 0 else -1
  {
    if |reg.libs| != |meas.libs| { return -1; }
    if reg.digest != meas.digest { return -1; }
    var i := 0;
    while i < |meas.libs|
      invariant i <= |meas.libs|
      invariant forall k :: 0 <= k < i ==> LibAgrees(reg.libs, meas.libs[k])
    {
      var name := meas.libs[i].path;
      var j := 0;
      while j < |meas.libs|
        invariant j <= |reg.libs|
        invariant forall k: nat :: k < j ==> !NamedAt(reg.libs, name, k)
      {
        if name == reg.libs[j].path {
          assert NamedAt(reg.libs, name, j);
          if meas.libs[i].digest != reg.libs[j].digest {
            assert !LibAgrees(reg.libs, meas.libs[i]);
            return -1;
          }
          break;
        }
        j := j + 1;
      }
      assert LibAgrees(reg.libs, meas.libs[i]) by {
        forall m: nat | NamedAt(reg.libs, name, m) && (forall k: nat :: k < m ==> !NamedAt(reg.libs, name, k))
          ensures reg.libs[m].digest == meas.libs[i].digest
        {
          assert m >= j;
          assert NamedAt(reg.libs, name, j);
          assert m == j;
        }
      }
      i := i + 1;
    }
    return 0;
  }

  ghost predicate NamesIn(libs: seq<FDigest>, reg: seq<FDigest>)
  {
    forall i :: 0 <= i < |libs| ==> HasName(reg, libs[i].path)
  }

  ghost predicate HasName(reg: seq<FDigest>, name: cstring) { exists j: nat :: NamedAt(reg, name, j) }

  /** The digest check ignores order and is exact: among lists with distinct names, passing with
      every fresh name registered is the same as being equal lists up to reordering. */
  lemma {:induction false} DigestCheckExact(reg: ProcInfo, meas: ProcInfo)
    requires DistinctNames(reg.libs) && DistinctNames(meas.libs)
    ensures DigestsAgree(reg, meas) && NamesIn(meas.libs, reg.libs)
        <==> reg.digest == meas.digest && multiset(reg.libs) == multiset(meas.libs)
  {
    if DigestsAgree(reg, meas) && NamesIn(meas.libs, reg.libs) {
      forall i | 0 <= i < |meas.libs| ensures meas.libs[i] in reg.libs {
        assert LibAgrees(reg.libs, meas.libs[i]) && HasName(reg.libs, meas.libs[i].path);
        var j: nat :| NamedAt(reg.libs, meas.libs[i].path, j);
        assert forall k: nat :: k < j ==> !NamedAt(reg.libs, meas.libs[i].path, k);
        assert reg.libs[j] == meas.libs[i];
      }
      Pigeonhole(meas.libs, reg.libs);
    }
    if reg.digest == meas.digest && multiset(reg.libs) == multiset(meas.libs) {
      assert |reg.libs| == |multiset(reg.libs)| == |meas.libs|;
      forall i | 0 <= i < |meas.libs| ensures HasName(reg.libs, meas.libs[i].path) {
        assert meas.libs[i] in multiset(meas.libs);
        var j: nat :| j < |reg.libs| && reg.libs[j] == meas.libs[i];
        assert NamedAt(reg.libs, meas.libs[i].path, j);
      }
      forall i | 0 <= i < |meas.libs| ensures LibAgrees(reg.libs, meas.libs[i]) {
        assert meas.libs[i] in multiset(meas.libs);
        var j: nat :| j < |reg.libs| && reg.libs[j] == meas.libs[i];
        assert forall m: nat :: NamedAt(reg.libs, meas.libs[i].path, m) ==> m == j;
      }
    }
  }

  /** Without that condition the check passes lists that differ: a fresh name nobody registered
      is not compared with anything. */
  lemma {:induction false} UnregisteredNamePasses()
    ensures var d := seq(32, _ => 0);
      var ids := Ids(7, 1, 0, 0, 0, 0, 0, 0);
      var reg := ProcInfo(ids, Str([47]), d, [FDigest([97], d)]);
      var meas := ProcInfo(ids, Str([47]), d, [FDigest([98], d)]);
      DistinctNames(reg.libs) && DistinctNames(meas.libs)
      && DigestsAgree(reg, meas) && multiset(reg.libs) != multiset(meas.libs)
  {
    var d: digest := seq(32, _ => 0);
    var a, b := FDigest([97], d), FDigest([98], d);
    assert a.path[0] != b.path[0];
    assert a != b;
    assert multiset([a])[a] == 1 && multiset([b])[a] == 0;
  }

  // ------------------------------------------------------------ binaries

  datatype Addr = Conf(i: nat) | Stmt(i: nat)

  function ConfRegs(conf: seq<ProcInfo>): (regs: seq<Reg<Addr>>)
    ensures |regs| == |conf|
  {
    seq(|conf|, i requires 0 <= i < |conf| => Reg(Key(PICA_ENT_CONF_PROCINFO, PathOf(conf[i])), Conf(i)))
  }

  ghost predicate PointInto(m: map<Key, Addr>, conf: seq<ProcInfo>)
  {
    forall k :: k in m && k.kind == PICA_ENT_CONF_PROCINFO ==> m[k].Conf? && m[k].i < |conf|
  }

  /** The registration loop of pica_read_config (and of pica_build_hashtable on a cleared table). */
  method RegisterConf(tab: HTable<Addr>, conf: seq<ProcInfo>)
    requires tab.Valid() && AllNamed(conf)
    modifies tab, tab.hash, tab.nodes
    ensures tab.Valid() && fresh(tab.nodes - old(tab.nodes))
    ensures tab.bindings == Run(old(tab.bindings), ConfRegs(conf))
  {
    ghost var regs := ConfRegs(conf);
    assert regs[..0] == [];
    for i := 0 to |conf|
      invariant tab.Valid() && fresh(tab.nodes - old(tab.nodes))
      invariant tab.bindings == Run(old(tab.bindings), regs[..i])
    {
      tab.Reg(PICA_ENT_CONF_PROCINFO, Conf(i), conf[i].path.s);
      assert regs[..i + 1][..i] == regs[..i];
    }
    assert regs[..|conf|] == regs;
  }

  ghost predicate BinaryOk(m: map<Key, Addr>, conf: seq<ProcInfo>, p: ProcInfo)
    requires PointInto(m, conf)
  {
    var k := Key(PICA_ENT_CONF_PROCINFO, PathOf(p));
    k in m && DigestsAgree(conf[m[k].i], p)
  }

  ghost predicate AllBinariesOk(m: map<Key, Addr>, conf: seq<ProcInfo>, t: seq<ProcInfo>, n: nat)
    requires PointInto(m, conf) && n <= |t|
  {
    forall i :: 0 <= i < n ==> BinaryOk(m, conf, t[i])
  }

  /** pica_verify_binaries */
  method VerifyBinaries(tab: HTable<Addr>, conf: seq<ProcInfo>, pinfo: Option<seq<ProcInfo>>) returns (rc: bv8)
    requires tab.Valid() && PointInto(tab.bindings, conf)
    requires pinfo.Some? ==> AllNamed(pinfo.value)
    ensures rc == if pinfo.Some? && AllBinariesOk(tab.bindings, conf, pinfo.value, |pinfo.value|)
                  then VERIFY_PICA_BINARIES else 0
  {
    rc := VERIFY_PICA_BINARIES;
    if pinfo.None? { return 0; }
    var t := pinfo.value;
    for i := 0 to |t|
      invariant rc == if AllBinariesOk(tab.bindings, conf, t, i) then VERIFY_PICA_BINARIES else 0
    {
      var cnf := tab.Find(t[i].path.s, PICA_ENT_CONF_PROCINFO);
      if cnf.Some? {
        var vc := VerifyDigest(conf[cnf.value.i], t[i]);
        if vc < 0 { rc := 0; }
      } else {
        rc := 0;
      }
    }
  }

  ghost predicate FirstConf(conf: seq<ProcInfo>, path: cstring, j: nat)
  {
    j < |conf| && PathOf(conf[j]) == path && forall k :: 0 <= k < j ==> PathOf(conf[k]) != path
  }

  /** The process agrees with the first entry of its path. */
  ghost predicate FirstAgrees(conf: seq<ProcInfo>, p: ProcInfo)
  {
    exists j: nat :: FirstConf(conf, PathOf(p), j) && DigestsAgree(conf[j], p)
  }

  lemma {:induction false} FirstConfExists(conf: seq<ProcInfo>, path: cstring, n: nat)
    requires n < |conf| && PathOf(conf[n]) == path
    ensures exists j: nat :: j <= n && FirstConf(conf, path, j)
  {
    if !FirstConf(conf, path, n) {
      var k :| 0 <= k < n && PathOf(conf[k]) == path;
      FirstConfExists(conf, path, k);
    }
  }

  /** After registration a process passes iff it agrees with the first entry of its path. */
  lemma {:induction false} BinaryOkExact(conf: seq<ProcInfo>, p: ProcInfo)
    ensures var m := Run(map[], ConfRegs(conf));
      PointInto(m, conf)
      && (BinaryOk(m, conf, p) <==> FirstAgrees(conf, p))
  {
    var regs := ConfRegs(conf);
    var m := Run(map[], regs);
    var key := Key(PICA_ENT_CONF_PROCINFO, PathOf(p));
    hide Run;
    forall k | k in m && k.kind == PICA_ENT_CONF_PROCINFO ensures m[k].Conf? && m[k].i < |conf| {
      FirstRegistrationWins(map[], regs, k);
      var i: nat :| FirstAt(regs, k, i);
      assert m[k] == regs[i].addr;
    }
    FirstRegistrationWins(map[], regs, key);
    forall j: nat | FirstConf(conf, PathOf(p), j) ensures key in m && m[key] == Conf(j) {
      assert FirstAt(regs, key, j);
    }
    if BinaryOk(m, conf, p) {
      var i: nat :| FirstAt(regs, key, i);
      forall k | 0 <= k < i ensures PathOf(conf[k]) != PathOf(p) { assert regs[k].key != key; }
      assert FirstConf(conf, PathOf(p), i);
    }
  }

  /** Entries that share a path agree on digest and libraries; names are distinct in each list. */
  ghost predicate Consistent(conf: seq<ProcInfo>)
  {
    && (forall i :: 0 <= i < |conf| ==> DistinctNames(conf[i].libs))
    && (forall i, j :: 0 <= i < |conf| && 0 <= j < |conf| && conf[i].path == conf[j].path ==>
          SameBinary(conf[i], conf[j]))
  }

  /** The same processes measured again, each library list in any order. */
  ghost predicate Remeasured(conf: seq<ProcInfo>, meas: seq<ProcInfo>)
  {
    && |meas| == |conf|
    && forall i :: 0 <= i < |conf| ==> SameBinary(conf[i], meas[i])
  }

  /** Registration is complete: whatever was registered verifies when measured again. */
  lemma {:induction false} RegisteredVerifies(conf: seq<ProcInfo>, meas: seq<ProcInfo>, i: nat)
    requires AllNamed(conf) && Consistent(conf) && Remeasured(conf, meas) && i < |meas|
    ensures PointInto(Run(map[], ConfRegs(conf)), conf)
    ensures BinaryOk(Run(map[], ConfRegs(conf)), conf, meas[i])
  {
    hide Run, ConfRegs;
    BinaryOkExact(conf, meas[i]);
    FirstConfExists(conf, PathOf(meas[i]), i);
    var j: nat :| FirstConf(conf, PathOf(meas[i]), j);
    assert conf[j].path == conf[i].path;
    assert SameBinary(conf[i], conf[j]) && SameBinary(conf[i], meas[i]);
    DistinctKept(conf[i].libs, meas[i].libs);
    DigestCheckExact(conf[j], meas[i]);
  }

  /** End to end: register a table, read the sealed file back, index it, verify a re-measurement. */
  method RegisterThenVerify(murmur: cstring -> bv32, t: seq<ProcInfo>, raw: seq<Raw>, meas: seq<ProcInfo>)
    returns (rc: bv8)
    requires Packable(t, raw) && AllNamed(t) && |Pool(t, |t|)| < TWO31
    requires Consistent(t) && Remeasured(t, meas)
    ensures rc == VERIFY_PICA_BINARIES
  {
    hide Run, ConfRegs, Pool, Packable, DigestsAgree, DistinctNames, HTable.Valid;
    var cnt, loaded := ConfStore.StoreAndLoad(t, raw);
    var conf := loaded.value;
    var tab := new HTable<Addr>(murmur);
    RegisterConf(tab, conf);
    forall i | 0 <= i < |meas| ensures PointInto(tab.bindings, conf) && BinaryOk(tab.bindings, conf, meas[i]) {
      RegisteredVerifies(conf, meas, i);
    }
    if |meas| == 0 { BinaryOkExact(conf, ProcInfo(Ids(0, 0, 0, 0, 0, 0, 0, 0), Null, seq(32, _ => 0), [])); }
    assert forall i :: 0 <= i < |meas| ==> SameBinary(t[i], meas[i]);
    rc := VerifyBinaries(tab, conf, Some(meas));
  }

  method AppendAndRead(file: bytes, ghost table: seq<ProcInfo>, m: ConfStore.Measured, uid: word, gid: word,
                       raw: seq<Raw>)
    returns (conf: seq<ProcInfo>)
    requires ReadsAs(file, table) && m.libsCnt > 0 && |m.libs| == m.libsCnt
    requires Packable(table + [ConfStore.NewEntry(m, uid, gid)], raw)
    requires |Pool(table + [ConfStore.NewEntry(m, uid, gid)], |table| + 1)| < TWO31
    ensures conf == table + [ConfStore.NewEntry(m, uid, gid)]
  {
    hide Pool, Packable, RegionsInside, FileMeaning;
    var code, file' := ConfStore.AppendConf(file, table, m, uid, gid, raw);
    var cpif, fdp, sbuf := ConfStore.LinkRegions(file');
    conf := TableMeaning(cpif[..], fdp[..], sbuf).value;
  }

  /** The configuration tool and the verifier: an executable is appended to a file that has no entry for
      its path, the file is read back and indexed, and a process of that path is checked.  What it must
      look like is what the tool measured. */
  method AppendThenVerify(murmur: cstring -> bv32, file: bytes, ghost table: seq<ProcInfo>, m: ConfStore.Measured,
                          uid: word, gid: word, raw: seq<Raw>, p: ProcInfo)
    returns (rc: bv8, entry: ProcInfo)
    requires ReadsAs(file, table) && AllNamed(table) && forall i :: 0 <= i < |table| ==> table[i].path != Str(m.path)
    requires m.libsCnt > 0 && |m.libs| == m.libsCnt && DistinctNames(m.libs)
    requires Packable(table + [ConfStore.NewEntry(m, uid, gid)], raw)
    requires |Pool(table + [ConfStore.NewEntry(m, uid, gid)], |table| + 1)| < TWO31
    requires p.path == Str(m.path) && DistinctNames(p.libs) && NamesIn(p.libs, m.libs)
    ensures entry.ids == Ids(0, 0, uid, gid, uid, gid, uid, gid) && entry.path == Str(m.path)
    ensures rc == if p.digest == m.digest && multiset(p.libs) == multiset(m.libs) then VERIFY_PICA_BINARIES else 0
  {
    hide Run, ConfRegs, Pool, Packable, ReadsAs, DigestsAgree, DistinctNames, NamesIn, HTable.Valid;
    var conf := AppendAndRead(file, table, m, uid, gid, raw);
    entry := conf[|conf| - 1];
    var tab := new HTable<Addr>(murmur);
    RegisterConf(tab, conf);
    assert FirstConf(conf, m.path, |table|) && forall j: nat :: FirstConf(conf, m.path, j) ==> j == |table|;
    BinaryOkExact(conf, p);
    DigestCheckExact(entry, p);
    ghost var one := [p];
    assert one[0] == p && |one| == 1;
    assert AllBinariesOk(tab.bindings, conf, one, 1) <==> DigestsAgree(entry, p);
    rc := VerifyBinaries(tab, conf, Some([p]));
  }

  // -------------------------------------------------- invocation chains

  function Paths(pinfo: seq<ProcInfo>): (ps: seq<cstring>)
    ensures |ps| == |pinfo| && forall i :: 0 <= i < |pinfo| ==> ps[i] == PathOf(pinfo[i])
  {
    seq(|pinfo|, i requires 0 <= i < |pinfo| => PathOf(pinfo[i]))
  }

  /** No chain that is compared runs out before it differs from the measured one (the source
      does not compare lengths). */
  predicate LongEnough(chains: seq<seq<cstring>>, ps: seq<cstring>, i: nat)
    requires i <= |chains|
    decreases |chains| - i
  {
    i == |chains| || (!(chains[i] < ps) && (ps <= chains[i] || LongEnough(chains, ps, i + 1)))
  }

  /** pica_check_ichain */
  method CheckIchain(chains: seq<seq<cstring>>, pinfo: seq<ProcInfo>) returns (rc: bv8)
    requires AllNamed(pinfo) && LongEnough(chains, Paths(pinfo), 0)
    ensures rc == if |chains| == 0 || Paths(pinfo) <= chains[0] then VERIFY_PICA_CHAIN else 0
  {
    rc := VERIFY_PICA_CHAIN;
    ghost var ps := Paths(pinfo);
    var i := 0;
    while i < |chains|
      invariant i <= |chains| && LongEnough(chains, ps, i)
      invariant i == 0 ==> rc == VERIFY_PICA_CHAIN
      invariant i > 0 ==> rc == 0 && !(ps <= chains[0])
    {
      var chain := chains[i];
      var j := 0;
      var same := true;
      while j < |pinfo|
        invariant j <= |pinfo| && j <= |chain| && same
        invariant forall k :: 0 <= k < j ==> ps[k] == chain[k]
      {
        assert ps[..j] == chain[..j] && chain[..|chain|] == chain;
        if pinfo[j].path.s != chain[j] {
          rc := 0;
          same := false;
          break;
        }
        j := j + 1;
      }
      if same { assert ps == chain[..j]; break; }
      assert !(ps <= chain) by { assert ps[j] != chain[j]; }
      i := i + 1;
    }
  }

  /** "Any listed chain" is not what the check decides once there are several. */
  lemma {:induction false} SecondChainIsLost()
    ensures var chains: seq<seq<cstring>> := [[[97]], [[98]]];
      var ps: seq<cstring> := [[98]];
      LongEnough(chains, ps, 0) && ps <= chains[1] && !(|chains| == 0 || ps <= chains[0])
  {
    var chains: seq<seq<cstring>> := [[[97]], [[98]]];
    var ps: seq<cstring> := [[98]];
    assert chains[0][0][0] != ps[0][0];
    assert chains[0][0] != ps[0];
    assert LongEnough(chains, ps, 1);
  }

  // ------------------------------------------------------------ user ids

  method MatchUid(ids: seq<int>, id: int) returns (found: bool)
    ensures found <==> id in ids
  {
    for i := 0 to |ids|
      invariant id !in ids[..i]
    {
      if ids[i] == id { return true; }
    }
    assert ids[..|ids|] == ids;
    return false;
  }

  ghost predicate UidsListed(uids: seq<int>, pinfo: seq<ProcInfo>)
  {
    forall i :: 0 <= i < |pinfo| ==> WordInt(pinfo[i].ids.ruid) in uids
  }

  /** pica_check_uids */
  method CheckUids(uids: seq<int>, pinfo: seq<ProcInfo>) returns (rc: bv8)
    ensures rc == if forall i :: 0 <= i < |pinfo| ==> WordInt(pinfo[i].ids.ruid) in uids then VERIFY_PICA_UIDS else 0
  {
    for i := 0 to |pinfo|
      invariant forall k :: 0 <= k < i ==> WordInt(pinfo[k].ids.ruid) in uids
    {
      var found := MatchUid(uids, WordInt(pinfo[i].ids.ruid));
      if !found { return 0; }
    }
    return VERIFY_PICA_UIDS;
  }

  // ------------------------------------------------------------ policies

  const PICA_DENY: int := 2

  datatype Statement = Statement(effect: int, execPath: cstring, uids: seq<int>, chains: seq<seq<cstring>>)

  predicate FirstStmt(stmts: seq<Statement>, path: cstring, j: nat)
  {
    j < |stmts| && stmts[j].execPath == path && forall k :: 0 <= k < j ==> stmts[k].execPath != path
  }

  lemma {:induction false} FirstStmtUnique(stmts: seq<Statement>, path: cstring, s: nat)
    requires FirstStmt(stmts, path, s)
    ensures forall j: nat :: FirstStmt(stmts, path, j) ==> j == s
  {}

  /** pica_find_policy */
  method FindPolicy(stmts: seq<Statement>, bin: ProcInfo) returns (r: Option<nat>)
    requires bin.path.Str?
    ensures r.Some? ==> FirstStmt(stmts, bin.path.s, r.value)
    ensures r.None? <==> forall k :: 0 <= k < |stmts| ==> stmts[k].execPath != bin.path.s
  {
    for i := 0 to |stmts|
      invariant forall k :: 0 <= k < i ==> stmts[k].execPath != bin.path.s
    {
      if stmts[i].execPath == bin.path.s { return Some(i); }
    }
    return None;
  }

  function StmtRegs(stmts: seq<Statement>): (regs: seq<Reg<Addr>>)
    ensures |regs| == |stmts|
  {
    seq(|stmts|, i requires 0 <= i < |stmts| => Reg(Key(PICA_ENT_CONF_POLICY, stmts[i].execPath), Stmt(i)))
  }

  /** The registration loop of pica_read_policy. */
  method RegisterPolicy(tab: HTable<Addr>, stmts: seq<Statement>)
    requires tab.Valid()
    modifies tab, tab.hash, tab.nodes
    ensures tab.Valid() && fresh(tab.nodes - old(tab.nodes))
    ensures tab.bindings == Run(old(tab.bindings), StmtRegs(stmts))
  {
    ghost var regs := StmtRegs(stmts);
    assert regs[..0] == [];
    for i := 0 to |stmts|
      invariant tab.Valid() && fresh(tab.nodes - old(tab.nodes))
      invariant tab.bindings == Run(old(tab.bindings), regs[..i])
    {
      tab.Reg(PICA_ENT_CONF_POLICY, Stmt(i), stmts[i].execPath);
      assert regs[..i + 1][..i] == regs[..i];
    }
    assert regs[..|stmts|] == regs;
  }

  /** Registered into a table that holds no policy, the statements are found through the index
      exactly as by linear search, and every other kind of lookup is unchanged. */
  lemma {:induction false} IndexAgreesWithScan(m: map<Key, Addr>, stmts: seq<Statement>, k: Key)
    requires forall key :: key in m ==> key.kind != PICA_ENT_CONF_POLICY
    ensures var m' := Run(m, StmtRegs(stmts));
      && (k.kind != PICA_ENT_CONF_POLICY ==> (k in m' <==> k in m) && (k in m ==> m'[k] == m[k]))
      && (k.kind == PICA_ENT_CONF_POLICY ==>
            (forall j: nat :: FirstStmt(stmts, k.path, j) ==> k in m' && m'[k] == Stmt(j))
            && (k in m' <==> exists j: nat :: FirstStmt(stmts, k.path, j)))
  {
    var regs := StmtRegs(stmts);
    FirstRegistrationWins(m, regs, k);
    forall j: nat | FirstStmt(stmts, k.path, j) && k.kind == PICA_ENT_CONF_POLICY ensures FirstAt(regs, k, j) {
      assert forall i :: 0 <= i < j ==> regs[i].key != k;
    }
    forall j: nat | FirstAt(regs, k, j) ensures k.kind == PICA_ENT_CONF_POLICY && FirstStmt(stmts, k.path, j) {
      assert regs[j].key == Key(PICA_ENT_CONF_POLICY, stmts[j].execPath);
      forall i | 0 <= i < j ensures stmts[i].execPath != k.path { assert regs[i].key != k; }
    }
  }

  // ---------------------------------------------------------- acceptance

  /** What "all verifications are success" amounts to. */
  ghost predicate Acceptable(quoteBit: bool, conf: seq<ProcInfo>, stmts: seq<Statement>, meas: seq<ProcInfo>)
    requires |meas| > 0
  {
    && quoteBit
    && (forall i :: 0 <= i < |meas| ==> FirstAgrees(conf, meas[i]))
    && exists s: nat ::
         && FirstStmt(stmts, PathOf(meas[|meas| - 1]), s)
         && (|stmts[s].chains| == 0 || Paths(meas) <= stmts[s].chains[0])
         && UidsListed(stmts[s].uids, meas)
  }

  ghost predicate SameButEffect(a: seq<Statement>, b: seq<Statement>)
  {
    |a| == |b| && forall i :: 0 <= i < |a| ==> a[i] == b[i].(effect := a[i].effect)
  }

  /** The effect of a statement, allow or deny, plays no part in the verdict. */
  lemma {:induction false} EffectIgnored(quoteBit: bool, conf: seq<ProcInfo>, a: seq<Statement>, b: seq<Statement>,
                                         meas: seq<ProcInfo>)
    requires |meas| > 0 && SameButEffect(a, b) && Acceptable(quoteBit, conf, a, meas)
    ensures Acceptable(quoteBit, conf, b, meas)
  {
    hide DigestsAgree, UidsListed, Paths, PathOf;
    var path := PathOf(meas[|meas| - 1]);
    var s: nat :| FirstStmt(a, path, s) && (|a[s].chains| == 0 || Paths(meas) <= a[s].chains[0])
                  && UidsListed(a[s].uids, meas);
    assert a[s] == b[s].(effect := a[s].effect);
    assert FirstStmt(b, path, s) by {
      forall k | 0 <= k < s ensures b[k].execPath != path { assert a[k] == b[k].(effect := a[k].effect); }
    }
  }

  /** A statement that denies its program is met like one that allows it. */
  lemma {:induction false} DenialIsAccepted()
    ensures var p := ProcInfo(Ids(7, 1, 0, 0, 0, 0, 0, 0), Str([47]), ZeroDigest(), []);
      Acceptable(true, [p], [Statement(PICA_DENY, [47], [0], [])], [p])
  {
    var p := ProcInfo(Ids(7, 1, 0, 0, 0, 0, 0, 0), Str([47]), ZeroDigest(), []);
    assert FirstConf([p], PathOf(p), 0) && DigestsAgree(p, p);
    assert FirstStmt([Statement(PICA_DENY, [47], [0], [])], PathOf(p), 0);
    assert WordInt(0) == 0;
  }

  /** What each of the four bits that count says of the measured processes. */
  ghost predicate BitsTell(verified: bv8, quoteBit: bool, conf: seq<ProcInfo>, stmts: seq<Statement>,
                           meas: seq<ProcInfo>)
    requires |meas| > 0
  {
    var path := PathOf(meas[|meas| - 1]);
    && (verified & 0x01 != 0 <==> quoteBit)
    && (verified & 0x04 != 0 <==> forall i :: 0 <= i < |meas| ==> FirstAgrees(conf, meas[i]))
    && (forall s: nat :: FirstStmt(stmts, path, s) ==>
          && (verified & 0x08 != 0 <==> |stmts[s].chains| == 0 || Paths(meas) <= stmts[s].chains[0])
          && (verified & 0x10 != 0 <==> forall i :: 0 <= i < |meas| ==> WordInt(meas[i].ids.ruid) in stmts[s].uids))
    && ((forall s :: 0 <= s < |stmts| ==> stmts[s].execPath != path) ==> verified & 0x08 == 0 && verified & 0x10 == 0)
  }

  lemma {:induction false} TellForNone(v: bv8, quoteBit: bool, conf: seq<ProcInfo>, stmts: seq<Statement>,
                                       meas: seq<ProcInfo>)
    requires |meas| > 0 && forall s :: 0 <= s < |stmts| ==> stmts[s].execPath != PathOf(meas[|meas| - 1])
    requires v & 0x01 != 0 <==> quoteBit
    requires v & 0x04 != 0 <==> forall i :: 0 <= i < |meas| ==> FirstAgrees(conf, meas[i])
    requires v & 0x08 == 0 && v & 0x10 == 0
    ensures BitsTell(v, quoteBit, conf, stmts, meas) && !Acceptable(quoteBit, conf, stmts, meas)
  {
    hide FirstAgrees;
  }

  lemma {:induction false} TellForStatement(v: bv8, quoteBit: bool, conf: seq<ProcInfo>, stmts: seq<Statement>,
                                            meas: seq<ProcInfo>, s: nat)
    requires |meas| > 0 && FirstStmt(stmts, PathOf(meas[|meas| - 1]), s)
    requires v & 0x01 != 0 <==> quoteBit
    requires v & 0x04 != 0 <==> forall i :: 0 <= i < |meas| ==> FirstAgrees(conf, meas[i])
    requires v & 0x08 != 0 <==> |stmts[s].chains| == 0 || Paths(meas) <= stmts[s].chains[0]
    requires v & 0x10 != 0 <==> forall i :: 0 <= i < |meas| ==> WordInt(meas[i].ids.ruid) in stmts[s].uids
    ensures BitsTell(v, quoteBit, conf, stmts, meas)
    ensures Acceptable(quoteBit, conf, stmts, meas) <==>
      v & 0x01 != 0 && v & 0x04 != 0 && v & 0x08 != 0 && v & 0x10 != 0
  {
    hide FirstAgrees, Paths;
    FirstStmtUnique(stmts, PathOf(meas[|meas| - 1]), s);
  }

  /** The verdict of the verifier's main: bits are or-ed together as the checks pass; the freshness
      bit is collected but not part of VERIFIED_ALL. */
  method Accept(quoteBit: bool, isFresh: bool, tab: HTable<Addr>, conf: seq<ProcInfo>,
                stmts: seq<Statement>, meas: seq<ProcInfo>)
    returns (verified: bv8, all: bool)
    requires tab.Valid() && tab.bindings == Run(map[], ConfRegs(conf) + StmtRegs(stmts))
    requires AllNamed(meas) && |meas| > 0
    requires forall s: nat :: FirstStmt(stmts, PathOf(meas[|meas| - 1]), s) ==>
               LongEnough(stmts[s].chains, Paths(meas), 0)
    ensures all <==> Acceptable(quoteBit, conf, stmts, meas)
    ensures verified & VERIFY_TPM2_FRESH != 0 <==> isFresh
    ensures BitsTell(verified, quoteBit, conf, stmts, meas)
    ensures all <==> verified & 0x1d == 0x1d
  {
    hide Run, DigestsAgree, FirstAgrees, FirstStmt, Acceptable, BitsTell, HTable.Valid, Paths, LongEnough, VerifiedAll,
         ConfRegs, StmtRegs;
    verified := 0;
    if quoteBit { verified := verified | VERIFY_TPM2_QUOTE; }
    if isFresh { verified := verified | VERIFY_TPM2_FRESH; }
    LookupsAfterBoth(conf, stmts, meas);
    var bits := VerifyBinaries(tab, conf, Some(meas));
    verified := verified | bits;
    var pstmt := FindPolicy(stmts, meas[|meas| - 1]);
    if pstmt.None? {
      BitsApart(quoteBit, isFresh, bits, 0, 0, verified);
      TellForNone(verified, quoteBit, conf, stmts, meas);
      all := false;
      return;
    }
    var s := pstmt.value;
    FirstStmtUnique(stmts, PathOf(meas[|meas| - 1]), s);
    var chainBits := CheckIchain(stmts[s].chains, meas);
    var uidBits := CheckUids(stmts[s].uids, meas);
    verified := verified | chainBits | uidBits;
    all := VerifiedAll(verified);
    assert FirstStmt(stmts, PathOf(meas[|meas| - 1]), s);
    BitsApart(quoteBit, isFresh, bits, chainBits, uidBits, verified);
    TellForStatement(verified, quoteBit, conf, stmts, meas, s);
  }

  /** The five results do not share bits. */
  lemma {:induction false} BitsApart(quoteBit: bool, isFresh: bool, bits: bv8, chainBits: bv8, uidBits: bv8, v: bv8)
    requires bits == 0 || bits == VERIFY_PICA_BINARIES
    requires chainBits == 0 || chainBits == VERIFY_PICA_CHAIN
    requires uidBits == 0 || uidBits == VERIFY_PICA_UIDS
    requires v == (if quoteBit then VERIFY_TPM2_QUOTE else 0) | (if isFresh then VERIFY_TPM2_FRESH else 0)
                  | bits | chainBits | uidBits
    ensures v & VERIFY_TPM2_QUOTE != 0 <==> quoteBit
    ensures v & VERIFY_TPM2_FRESH != 0 <==> isFresh
    ensures v & VERIFY_PICA_BINARIES != 0 <==> bits != 0
    ensures v & VERIFY_PICA_CHAIN != 0 <==> chainBits != 0
    ensures v & VERIFY_PICA_UIDS != 0 <==> uidBits != 0
    ensures VerifiedAll(v) <==> quoteBit && bits != 0 && chainBits != 0 && uidBits != 0
    ensures v & 0x1d == 0x1d <==> VerifiedAll(v)
  {}

  lemma {:induction false} LookupsAfterBoth(conf: seq<ProcInfo>, stmts: seq<Statement>, meas: seq<ProcInfo>)
    ensures var m := Run(map[], ConfRegs(conf) + StmtRegs(stmts));
      PointInto(m, conf)
      && forall i :: 0 <= i < |meas| ==>
           (BinaryOk(m, conf, meas[i]) <==> FirstAgrees(conf, meas[i]))
  {
    hide Run;
    var m0, m := Run(map[], ConfRegs(conf)), Run(map[], ConfRegs(conf) + StmtRegs(stmts));
    RunAppend(map[], ConfRegs(conf), StmtRegs(stmts));
    forall k | k in m0 ensures k.kind != PICA_ENT_CONF_POLICY {
      FirstRegistrationWins(map[], ConfRegs(conf), k);
      var i: nat :| FirstAt(ConfRegs(conf), k, i);
    }
    forall k: Key | k.kind == PICA_ENT_CONF_PROCINFO ensures (k in m <==> k in m0) && (k in m0 ==> m[k] == m0[k]) {
      IndexAgreesWithScan(m0, stmts, k);
    }
    BinaryOkExact(conf, ProcInfo(Ids(0, 0, 0, 0, 0, 0, 0, 0), Null, seq(32, _ => 0), []));
    assert PointInto(m, conf);
    forall i | 0 <= i < |meas|
      ensures BinaryOk(m, conf, meas[i]) <==> FirstAgrees(conf, meas[i])
    {
      BinaryOkExact(conf, meas[i]);
    }
  }

  /** Which chains are long enough: every one that is compared, that is, all up to the first that
      matches, differs from the measured one or reaches its end. */
  lemma {:induction false} LongEnoughExact(chains: seq<seq<cstring>>, ps: seq<cstring>, i: nat)
    requires i <= |chains|
    ensures LongEnough(chains, ps, i) <==>
      forall k :: i <= k < |chains| && NoMatch(chains, ps, i, k) ==> !(chains[k] < ps)
    decreases |chains| - i
  {
    if i < |chains| {
      LongEnoughExact(chains, ps, i + 1);
      assert NoMatch(chains, ps, i, i);
      if !(ps <= chains[i]) {
        forall k | i < k < |chains| ensures NoMatch(chains, ps, i, k) <==> NoMatch(chains, ps, i + 1, k) {}
      } else {
        forall k | i < k < |chains| ensures !NoMatch(chains, ps, i, k) {}
      }
    }
  }

  predicate NoMatch(chains: seq<seq<cstring>>, ps: seq<cstring>, i: nat, k: nat)
    requires k <= |chains|
  {
    forall m :: i <= m < k ==> !(ps <= chains[m])
  }
}
