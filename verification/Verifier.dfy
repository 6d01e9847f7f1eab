// The verifier's main from the configuration file and the daemon's reply to the printed verdict,
// and the guarantees the whole system is for: what was registered is accepted, and what is accepted
// and fresh was measured, quoted for this verifier and registered.
module Verifier {
  import opened Bytes
  import opened ProcTable
  import opened HashIndex
  import opened ConfFormat
  import opened ConfRoundTrip
  import ConfStore
  import opened Policy
  import opened Measure
  import opened Processes
  import opened ProcChain
  import opened Cbor
  import Attest

  /** Failed: main gives up on a malformed reply.  Crash: the C code leaves its own data, or would go
      on with no process table, an unnamed process, or a policy chain that runs out too early. */
  datatype Verdict = Failed | Crash | Verdict(verified: bv8, all: bool)

  /** A configuration file whose regions are complete, whose offsets lead inside and whose entries have
      non-negative counts. */
  ghost predicate Readable(file: bytes) { RegionsInside(file) && FileMeaning(file).Some? }

  ghost function ConfOf(file: bytes): (conf: seq<ProcInfo>)
    requires Readable(file)
    ensures AllNamed(conf)
  {
    FileMeaning(file).value
  }

  /** The statement that will apply has no chain that runs out too early. */
  predicate ChainsSuffice(stmts: seq<Statement>, meas: seq<ProcInfo>)
    requires |meas| > 0
  {
    forall s :: 0 <= s < |stmts| && FirstStmt(stmts, PathOf(meas[|meas| - 1]), s)
      ==> LongEnough(stmts[s].chains, Paths(meas), 0)
  }

  predicate Usable(stmts: seq<Statement>, body: Option<bytes>)
  {
    body.Some? && match Extract(body.value)
      case Table(meas) => AllNamed(meas) && |meas| > 0 && ChainsSuffice(stmts, meas)
      case _ => false
  }

  /** When main prints that all verifications are success. */
  ghost predicate Succeeds(ak: Attest.AkFile, conf: seq<ProcInfo>, stmts: seq<Statement>, reply: bytes)
  {
    var e := Attest.Examine(ak, reply);
    e.Exam? && Usable(stmts, e.pica) && Acceptable(e.quoteBit, conf, stmts, Extract(e.pica.value).t)
  }

  /** The configuration part of main: build_conf, here without a size test. */
  method LoadConf(file: bytes) returns (conf: seq<ProcInfo>)
    requires Readable(file)
    ensures conf == ConfOf(file)
  {
    var cpif, fdp, sbuf := ConfStore.LinkRegions(file);
    conf := TableMeaning(cpif[..], fdp[..], sbuf).value;
  }

  /** Configuration and policy go into one index, in this order. */
  method BuildIndex(murmur: cstring -> bv32, conf: seq<ProcInfo>, stmts: seq<Statement>) returns (tab: HTable<Addr>)
    requires AllNamed(conf)
    ensures tab.Valid() && tab.bindings == Run(map[], ConfRegs(conf) + StmtRegs(stmts))
  {
    hide Run, HTable.Valid, ConfRegs, StmtRegs;
    tab := new HTable<Addr>(murmur);
    RegisterConf(tab, conf);
    RegisterPolicy(tab, stmts);
    RunAppend(map[], ConfRegs(conf), StmtRegs(stmts));
  }

  /** Configuration and policy into one index, then everything main does with a reply. */
  method VerifyReply(sha: Attest.Hash, ak: Attest.AkFile, murmur: cstring -> bv32, nonce: digest,
                     file: bytes, stmts: seq<Statement>, reply: bytes)
    returns (v: Verdict)
    requires Readable(file)
    ensures var e := Attest.Examine(ak, reply);
      && (v.Failed? <==> e.Rejected?)
      && (v.Verdict? <==> e.Exam? && Usable(stmts, e.pica))
      && (v.Verdict? ==> (v.all <==> Succeeds(ak, ConfOf(file), stmts, reply)))
      && (v.Verdict? ==> (v.verified & VERIFY_TPM2_FRESH != 0 <==> Attest.IsFresh(sha, nonce, e)))
    ensures var e := Attest.Examine(ak, reply);
      v.Verdict? ==> BitsTell(v.verified, e.quoteBit, ConfOf(file), stmts, Extract(e.pica.value).t)
    ensures v.Failed? <==>
      (match LoadItem(reply) case Some(Map(ps)) => |ps| != 2 case Some(MapI(ps)) => |ps| != 2 case _ => true)
  {
    hide Attest.Examine, Attest.IsFresh, Extract, Acceptable, Run, Readable, ConfOf, LongEnough, HTable.Valid, LoadItem,
         DigestsAgree, Paths, ConfRegs, StmtRegs, BitsTell;
    var conf := LoadConf(file);
    var tab := BuildIndex(murmur, conf, stmts);
    var e, quoteBit, freshBit, x := Attest.CheckReply(sha, ak, nonce, reply);
    Attest.RejectedExact(ak, reply);
    if e.Rejected? { return Failed; }
    if e.OutOfBounds? || e.pica.None? { return Crash; }
    if !x.Table? || !AllNamed(x.t) || |x.t| == 0 || !ChainsSuffice(stmts, x.t) { return Crash; }
    var verified, all := Accept(quoteBit, freshBit, tab, conf, stmts, x.t);
    v := Verdict(verified, all);
  }

  // ------------------------------------------------ what success stands for

  /** The reply carries a quote value for which no signature check is made. */
  ghost predicate UnaskedIn(ak: Attest.AkFile, reply: bytes)
  {
    Attest.MapPairs(reply).Some?
    && exists ser :: Attest.QuoteIn(Attest.MapPairs(reply).value, ser) && Attest.Unasked(ak, ser)
  }

  /** The reply carries a quote value on which verify_tpm2_quote returned 0. */
  ghost predicate VouchedIn(ak: Attest.AkFile, reply: bytes)
  {
    Attest.MapPairs(reply).Some?
    && exists ser :: Attest.QuoteIn(Attest.MapPairs(reply).value, ser) && Attest.Vouched(ak, ser)
  }

  /** Success needs everything but the quote to be acceptable and a quote value on which the check
      returned 0 or was not made.  So, where the rest is acceptable, success implies such a check
      exactly when the reply holds no value that goes unchecked. */
  lemma {:induction false} SuccessExact(ak: Attest.AkFile, conf: seq<ProcInfo>, stmts: seq<Statement>, reply: bytes)
    requires var e := Attest.Examine(ak, reply); e.Exam? && Usable(stmts, e.pica)
    ensures var rest := Acceptable(true, conf, stmts, Extract(Attest.Examine(ak, reply).pica.value).t);
      && (Succeeds(ak, conf, stmts, reply) <==> rest && (UnaskedIn(ak, reply) || VouchedIn(ak, reply)))
      && (rest ==> ((Succeeds(ak, conf, stmts, reply) ==> VouchedIn(ak, reply)) <==> !UnaskedIn(ak, reply)))
  {
    hide Attest.Examine, Extract;
    Attest.ReplyBitExact(ak, reply);
    if UnaskedIn(ak, reply) && VouchedIn(ak, reply) { UnaskedIsUnvouched(ak, reply); }
  }

  lemma {:induction false} UnaskedIsUnvouched(ak: Attest.AkFile, reply: bytes)
    requires var e := Attest.Examine(ak, reply); e.Exam? && e.pica.Some?
    requires UnaskedIn(ak, reply)
    ensures !VouchedIn(ak, reply)
  {
    hide Attest.Examine;
    Attest.ReplyBitExact(ak, reply);
    var ps := Attest.MapPairs(reply).value;
    var a :| Attest.QuoteIn(ps, a) && Attest.Unasked(ak, a);
    forall b | Attest.QuoteIn(ps, b) ensures !Attest.Vouched(ak, b) {
      assert a == b;
    }
  }

  /** With any key file and any acceptable chain, a reply whose quote value is an empty map succeeds:
      no quote is checked, and the result is not fresh. */
  lemma {:induction false} UncheckedQuoteSucceeds(sha: Attest.Hash, ak: Attest.AkFile, nonce: digest,
                                                  conf: seq<ProcInfo>, stmts: seq<Statement>, chain: bytes)
    requires |chain| < TWO64 && Usable(stmts, Some(chain)) && Acceptable(true, conf, stmts, Extract(chain).t)
    ensures var reply := Ser(Attest.ReplyItem(Ser(Map([])), chain));
      && Succeeds(ak, conf, stmts, reply) && !VouchedIn(ak, reply)
      && !Attest.IsFresh(sha, nonce, Attest.Examine(ak, reply))
  {
    hide Extract, Acceptable, Attest.Examine, LoadItem, Usable;
    var empty := Map([]);
    assert Ser(empty) == SerHead(5, 0) + [];
    assert SerHead(5, 0) == [160];
    LoadItemInverts(empty);
    var reply := Ser(Attest.ReplyItem(Ser(empty), chain));
    assert !Extract(chain).Undefined? by { assert Usable(stmts, Some(chain)); UsableIsTable(stmts, chain); }
    Attest.ReplyExamined(ak, Ser(empty), chain);
    Attest.QuoteKeysApart();
    var ps := Attest.ReplyItem(Ser(empty), chain).pairs;
    assert Attest.IsQuote(ps[0]) && ps[0].val == BStr(Ser(empty));
    assert Attest.QuoteIn(ps, Ser(empty)) && Attest.Unasked(ak, Ser(empty));
    UnaskedIsUnvouched(ak, reply);
  }

  lemma {:induction false} UsableIsTable(stmts: seq<Statement>, chain: bytes)
    requires Usable(stmts, Some(chain))
    ensures Extract(chain).Table?
  {}

  // ---------------------------------------------------------- completeness

  /** Every measured process is, up to the order of its libraries, one of the registered entries. */
  ghost predicate AllRegistered(t: seq<ProcInfo>, meas: seq<ProcInfo>)
  {
    forall i :: 0 <= i < |meas| ==> Registered(t, meas[i])
  }

  ghost predicate Registered(t: seq<ProcInfo>, p: ProcInfo) { exists j :: 0 <= j < |t| && SameBinary(t[j], p) }

  /** A statement allows the requester, the chain and the users. */
  ghost predicate Allowed(stmts: seq<Statement>, meas: seq<ProcInfo>, s: nat)
    requires |meas| > 0
  {
    && FirstStmt(stmts, PathOf(meas[|meas| - 1]), s)
    && (|stmts[s].chains| == 0 || Paths(meas) <= stmts[s].chains[0])
    && UidsListed(stmts[s].uids, meas)
  }

  lemma {:induction false} FirstEntryAgrees(t: seq<ProcInfo>, p: ProcInfo, n: nat) returns (j: nat)
    requires AllNamed(t) && Consistent(t) && p.path.Str?
    requires n < |t| && SameBinary(t[n], p)
    ensures FirstConf(t, PathOf(p), j) && DigestsAgree(t[j], p)
  {
    hide DigestsAgree, DistinctNames;
    DistinctKept(t[n].libs, p.libs);
    FirstConfExists(t, PathOf(p), n);
    j :| j <= n && FirstConf(t, PathOf(p), j);
    assert t[j].path == t[n].path;
    assert SameBinary(t[j], t[n]);
    DigestCheckExact(t[j], p);
  }

  lemma {:induction false} RegisteredIsAcceptable(t: seq<ProcInfo>, stmts: seq<Statement>, meas: seq<ProcInfo>, s: nat)
    requires AllNamed(t) && Consistent(t) && AllNamed(meas) && |meas| > 0
    requires AllRegistered(t, meas) && Allowed(stmts, meas, s)
    ensures Acceptable(true, t, stmts, meas) && ChainsSuffice(stmts, meas)
  {
    hide Consistent, DigestsAgree;
    forall i | 0 <= i < |meas|
      ensures FirstAgrees(t, meas[i])
    {
      assert Registered(t, meas[i]);
      var n :| 0 <= n < |t| && SameBinary(t[n], meas[i]);
      var j := FirstEntryAgrees(t, meas[i], n);
    }
    FirstStmtUnique(stmts, PathOf(meas[|meas| - 1]), s);
  }

  /** The whole system on an honest run: the table is registered, the daemon measures, packs and quotes
      the requester's ancestry, the verifier loads its file and judges the reply.  Every check passes
      and the result is fresh. */
  method RegisterAttestVerify(sha: Attest.Hash, ghost extra: bytes -> Option<digest>, ak: Attest.AkFile,
                              quote: digest -> (bytes, bytes), murmur: cstring -> bv32, nonce: digest,
                              t: seq<ProcInfo>, raw: seq<Raw>, stmts: seq<Statement>, ghost s: nat,
                              daemon: FpTable, world: map<word, Process>, pid: word, ghost n: nat)
    returns (v: Verdict)
    requires Packable(t, raw) && AllNamed(t) && |Pool(t, |t|)| < TWO31 && Consistent(t)
    requires daemon.Valid() && Ancestry(world, pid, n) && Sized(Chain(world, daemon.cache, pid, n))
    requires |Ser(ChainItem(Chain(world, daemon.cache, pid, n)))| < TWO64
    requires AllRegistered(t, Chain(world, daemon.cache, pid, n))
    requires Allowed(stmts, Chain(world, daemon.cache, pid, n), s)
    requires Attest.HonestTpm(extra, ak, quote)
    modifies daemon, daemon.nodes
    ensures daemon.Valid() && fresh(daemon.nodes - old(daemon.nodes))
    ensures v.Verdict? && v.all && v.verified & VERIFY_TPM2_FRESH != 0
  {
    hide FpTable.Valid, Attest.Examine, Attest.IsFresh, Extract, Acceptable, Run, FileMeaning, Chain, CacheBehind, Ser,
         Image, RegionsInside, LongEnough, Paths, Consistent, Allowed, AllRegistered, Sized, DistinctNames, LoadItem,
         FirstAgrees, FirstStmt, Attest.HonestTpm, Packable, Pool;
    ghost var meas := Chain(world, daemon.cache, pid, n);
    ChainMeasured(world, daemon.cache, pid, n);
    RegisteredIsAcceptable(t, stmts, meas, s);
    var file := ConfStore.RegConfig(t, raw);
    UncheckedRoundTripExact(t, raw);
    var reply := Attest.FreshReply(sha, extra, ak, quote, nonce, daemon, world, pid, n);
    v := VerifyReply(sha, ak, murmur, nonce, file[..], stmts, reply);
  }

  /** Processes of the same executable path look the same. */
  ghost predicate PathsAgree(t: seq<ProcInfo>)
  {
    forall i, j :: 0 <= i < |t| && 0 <= j < |t| && t[i].path == t[j].path ==> SameBinary(t[i], t[j])
  }

  lemma {:induction false} RegistersItself(t: seq<ProcInfo>)
    requires PathsAgree(t) && forall i :: 0 <= i < |t| ==> DistinctNames(t[i].libs)
    ensures Consistent(t) && AllRegistered(t, t)
  {
    hide DistinctNames;
    forall i | 0 <= i < |t| ensures Registered(t, t[i]) {
      assert SameBinary(t[i], t[i]);
    }
  }

  ghost predicate AllGrown(t: seq<ProcInfo>, now: seq<ProcInfo>)
  {
    |now| == |t| && forall i :: 0 <= i < |t| ==> Grown(t[i], now[i])
  }

  lemma {:induction false} GrownIsAllowed(t: seq<ProcInfo>, stmts: seq<Statement>, now: seq<ProcInfo>, s: nat)
    requires |t| > 0 && AllNamed(t) && Allowed(stmts, t, s) && AllGrown(t, now)
    ensures AllNamed(now) && Allowed(stmts, now, s) && ChainsSuffice(stmts, now)
  {
    hide LongEnough;
    assert forall i :: 0 <= i < |t| ==> now[i] == t[i].(libs := now[i].libs);
    assert Paths(now) == Paths(t);
    FirstStmtUnique(stmts, PathOf(t[|t| - 1]), s);
    LongEnoughPrefix(stmts[s].chains, Paths(t));
  }

  lemma {:induction false} GrownDisagrees(t: seq<ProcInfo>, now: seq<ProcInfo>, i: nat, j: nat)
    requires AllNamed(t) && Consistent(t) && AllGrown(t, now) && i < |t| && !SameBinary(t[i], now[i])
    requires FirstConf(t, PathOf(now[i]), j)
    ensures !DigestsAgree(t[j], now[i])
  {
    hide DigestsAgree, DistinctNames;
    assert Grown(t[i], now[i]);
    assert t[j].path == t[i].path;
    assert SameBinary(t[j], t[i]);
    assert |multiset(t[j].libs)| == |multiset(t[i].libs)|;
    OtherCount(t[j], now[i]);
  }

  /** Enrolled processes measured again: acceptable exactly when no list has grown. */
  lemma {:induction false} GrownIsRefused(t: seq<ProcInfo>, stmts: seq<Statement>, now: seq<ProcInfo>, s: nat)
    requires |t| > 0 && AllNamed(t) && Consistent(t) && Allowed(stmts, t, s) && AllGrown(t, now)
    ensures AllNamed(now) && Allowed(stmts, now, s) && ChainsSuffice(stmts, now)
    ensures Acceptable(true, t, stmts, now) <==> AllSame(t, now)
  {
    hide DigestsAgree, Consistent, Allowed, ChainsSuffice, Paths, UidsListed;
    GrownIsAllowed(t, stmts, now, s);
    if AllSame(t, now) {
      forall i | 0 <= i < |now| ensures Registered(t, now[i]) { assert SameBinary(t[i], now[i]); }
      RegisteredIsAcceptable(t, stmts, now, s);
    } else {
      var i :| 0 <= i < |t| && !SameBinary(t[i], now[i]);
      forall j: nat | FirstConf(t, PathOf(now[i]), j) ensures !DigestsAgree(t[j], now[i]) {
        GrownDisagrees(t, now, i, j);
      }
    }
  }

  lemma {:induction false} OtherCount(reg: ProcInfo, p: ProcInfo)
    requires |reg.libs| != |p.libs|
    ensures !DigestsAgree(reg, p)
  {}

  lemma {:induction false} LongEnoughPrefix(chains: seq<seq<cstring>>, ps: seq<cstring>)
    requires |chains| == 0 || ps <= chains[0]
    ensures LongEnough(chains, ps, 0)
  {}

  lemma {:induction false} ReadableAs(file: bytes, t: seq<ProcInfo>)
    requires ReadsAs(file, t)
    ensures Readable(file) && ConfOf(file) == t
  {}

  /** Registration mode: what the daemon measured is extracted and written. */
  method Enrol(daemon: FpTable, world: map<word, Process>, pid: word, ghost n: nat, raw: seq<Raw>)
    returns (file: bytes)
    requires daemon.Valid() && Ancestry(world, pid, n)
    requires var t := Chain(world, daemon.cache, pid, n); Sized(t) && Packable(t, raw) && |Pool(t, n)| < TWO31
    modifies daemon, daemon.nodes
    ensures daemon.Valid() && fresh(daemon.nodes - old(daemon.nodes))
    ensures daemon.cache == CacheBehind(world, old(daemon.cache), pid, n)
    ensures ReadsAs(file, Chain(world, old(daemon.cache), pid, n))
  {
    hide FpTable.Valid, Chain, CacheBehind, Ser, Sized, Packable, Extract, Pool, Image, ReadsAs, LoadItem;
    ghost var t := Chain(world, daemon.cache, pid, n);
    ChainMeasured(world, daemon.cache, pid, n);
    var body := PackProcChain(daemon, world, pid, n);
    ChainDecodes(t);
    var x := ExtractPinfo(body);
    var buf := ConfStore.RegConfig(x.t, raw);
    UncheckedRoundTripExact(t, raw);
    file := buf[..];
  }

  lemma {:induction false} EnrolledAgain(world: map<word, Process>, cache: Cache, pid: word, n: nat,
                                         stmts: seq<Statement>, s: nat)
    requires Ancestry(world, pid, n)
    requires PathsAgree(Chain(world, cache, pid, n)) && Allowed(stmts, Chain(world, cache, pid, n), s)
    ensures var t, now := Chain(world, cache, pid, n), Chain(world, CacheBehind(world, cache, pid, n), pid, n);
      && AllNamed(now) && ChainsSuffice(stmts, now)
      && (Acceptable(true, t, stmts, now) <==> ChainListable(world, cache, pid, n))
  {
    hide Chain, CacheBehind, DistinctNames, Allowed, Consistent, PathsAgree, AllSame, ChainListable, Acceptable, Grown,
         ChainsSuffice, Extends;
    var behind := CacheBehind(world, cache, pid, n);
    var t, now := Chain(world, cache, pid, n), Chain(world, behind, pid, n);
    ChainMeasured(world, cache, pid, n);
    RegistersItself(t);
    ExtendsItself(behind);
    MeasuredAgainExact(world, cache, behind, pid, n);
    GrownIsRefused(t, stmts, now, s);
  }

  /** Registration mode followed by verification, both against the same daemon, whose cache has grown
      meanwhile.  The chain is judged and fresh; it is accepted exactly when every process could be
      listed completely at registration. */
  method EnrolThenVerify(sha: Attest.Hash, ghost extra: bytes -> Option<digest>, ak: Attest.AkFile,
                         quote: digest -> (bytes, bytes), murmur: cstring -> bv32, nonce: digest,
                         raw: seq<Raw>, stmts: seq<Statement>, ghost s: nat,
                         daemon: FpTable, world: map<word, Process>, pid: word, ghost n: nat)
    returns (v: Verdict)
    requires daemon.Valid() && Ancestry(world, pid, n)
    requires var t := Chain(world, daemon.cache, pid, n);
      && Sized(t) && Packable(t, raw) && |Pool(t, n)| < TWO31 && PathsAgree(t) && Allowed(stmts, t, s)
    requires var now := Chain(world, CacheBehind(world, daemon.cache, pid, n), pid, n);
      Sized(now) && |Ser(ChainItem(now))| < TWO64
    requires Attest.HonestTpm(extra, ak, quote)
    modifies daemon, daemon.nodes
    ensures daemon.Valid() && fresh(daemon.nodes - old(daemon.nodes))
    ensures v.Verdict? && v.verified & VERIFY_TPM2_FRESH != 0
    ensures v.all <==> ChainListable(world, old(daemon.cache), pid, n)
  {
    hide FpTable.Valid, Chain, CacheBehind, Ser, Sized, Packable, Allowed, PathsAgree, Extract, Pool, ChainListable,
         Acceptable, Attest.Examine, Attest.IsFresh, ReadsAs, LoadItem, FirstAgrees, FirstStmt, ChainsSuffice,
         Attest.HonestTpm;
    EnrolledAgain(world, daemon.cache, pid, n, stmts, s);
    var file := Enrol(daemon, world, pid, n, raw);
    ReadableAs(file, Chain(world, old(daemon.cache), pid, n));
    var reply := Attest.FreshReply(sha, extra, ak, quote, nonce, daemon, world, pid, n);
    v := VerifyReply(sha, ak, murmur, nonce, file, stmts, reply);
  }

  lemma {:induction false} ExtendsItself(cache: Cache)
    ensures Extends(cache, cache)
  {}

  // -------------------------------------------------------------- soundness

  /** Quote `k` stands behind the table: it is this very chain, with the digests of the executables the
      daemon saw first under each pid, quoted for the session's nonce after the nonce was drawn; or a
      quote over an executable whose bytes read as the table; or there is a named collision. */
  ghost predicate StandsBehind(sha: Attest.Hash, s: Attest.State, k: nat, i: nat, body: bytes, meas: seq<ProcInfo>)
    requires k < |s.log| && i < |s.sessions|
  {
    var q, se := s.log[k], s.sessions[i];
    Attest.Packs(q.src)
    && (|| (se.started <= k && q.nonce == se.nonce && q.src.OfChain?
            && meas == Chain(q.src.world, q.src.cache, q.src.pid, q.src.n) && DigestsSeen(s.seen, meas))
        || (se.started <= k && q.nonce == se.nonce && q.src == Attest.OfFile(body))
        || Attest.Collide(sha, Attest.Body(q.src), body)
        || Attest.Collide(sha, sha(Attest.Body(q.src)) + q.nonce, sha(body) + se.nonce))
  }

  /** Soundness over runs: whenever, at any point of any run, a reply makes a verifier print success
      with the freshness bit set, verify_tpm2_quote was called on its quote and returned 0, a quote of
      the daemon stands behind the judged table, and every condition of acceptance holds of it. */
  lemma {:induction false} SoundOverRuns(env: Attest.Env, states: seq<Attest.State>, steps: seq<Attest.Step>, j: nat,
                                         i: nat, reply: bytes, conf: seq<ProcInfo>, stmts: seq<Statement>)
    requires Attest.Run(env, states, steps) && j < |states|
    requires Attest.Enabled(env, states[j], Attest.ReplyArrives(i, reply))
    requires Succeeds(env.ak, conf, stmts, reply)
    requires Attest.IsFresh(env.sha, states[j].sessions[i].nonce, Attest.Examine(env.ak, reply))
    ensures var body := Attest.Examine(env.ak, reply).pica.value;
      && Extract(body).Table? && Acceptable(true, conf, stmts, Extract(body).t) && VouchedIn(env.ak, reply)
      && exists k :: 0 <= k < |states[j].log| && StandsBehind(env.sha, states[j], k, i, body, Extract(body).t)
  {
    hide Attest.Examine, Attest.Body, Attest.Vouched, AllNamed, DigestsSeen;
    var s, e := states[j], Attest.Examine(env.ak, reply);
    var body := e.pica.value;
    Attest.RunKeepsInvariant(env, states, steps, j);
    assert Attest.SessionOk(env, s, i);
    var k := Attest.FreshReplyAccounted(env, s, reply, s.sessions[i].nonce);
    assert Attest.LogOk(env, s.seen, s.log[k]);
    SourceReads(s.log[k].src);
    assert StandsBehind(env.sha, s, k, i, body, Extract(body).t);
    FreshIsVouched(env.ak, reply);
  }

  /** As `StandsBehind`, with no executable in place of the chain. */
  ghost predicate ChainBehind(sha: Attest.Hash, s: Attest.State, k: nat, i: nat, body: bytes, meas: seq<ProcInfo>)
    requires k < |s.log| && i < |s.sessions|
  {
    StandsBehind(sha, s, k, i, body, meas) && s.log[k].src != Attest.OfFile(body)
  }

  /** When every executable that clients run is an ELF file, the alternative of an executable standing
      behind the table falls away. */
  lemma {:induction false} SoundOverRunsElf(env: Attest.Env, states: seq<Attest.State>, steps: seq<Attest.Step>,
                                            j: nat, i: nat, reply: bytes, conf: seq<ProcInfo>, stmts: seq<Statement>)
    requires Attest.Run(env, states, steps) && j < |states|
    requires Attest.Enabled(env, states[j], Attest.ReplyArrives(i, reply))
    requires Succeeds(env.ak, conf, stmts, reply)
    requires Attest.IsFresh(env.sha, states[j].sessions[i].nonce, Attest.Examine(env.ak, reply))
    requires forall k :: 0 <= k < |states[j].log| && states[j].log[k].src.OfFile? ==> IsElf(states[j].log[k].src.file)
    ensures var body := Attest.Examine(env.ak, reply).pica.value;
      && Extract(body).Table? && Acceptable(true, conf, stmts, Extract(body).t) && VouchedIn(env.ak, reply)
      && exists k :: 0 <= k < |states[j].log| && ChainBehind(env.sha, states[j], k, i, body, Extract(body).t)
  {
    hide Attest.Examine, Attest.Body, Acceptable, DigestsSeen, IsElf, Attest.Run, VouchedIn, Extract;
    SoundOverRuns(env, states, steps, j, i, reply, conf, stmts);
    var s, body := states[j], Attest.Examine(env.ak, reply).pica.value;
    var k :| 0 <= k < |s.log| && StandsBehind(env.sha, s, k, i, body, Extract(body).t);
    if s.log[k].src == Attest.OfFile(body) { ElfIsRefused(body); }
    assert ChainBehind(env.sha, s, k, i, body, Extract(body).t);
  }

  lemma {:induction false} SourceReads(src: Attest.Source)
    requires Attest.Packs(src)
    ensures src.OfChain? ==> Extract(Attest.Body(src)) == Table(Chain(src.world, src.cache, src.pid, src.n))
    ensures src.OfFile? ==> src == Attest.OfFile(Attest.Body(src))
  {
    hide Extract, Ser;
    if src.OfChain? {
      ChainMeasured(src.world, src.cache, src.pid, src.n);
      ChainDecodes(Chain(src.world, src.cache, src.pid, src.n));
    }
  }

  lemma {:induction false} FreshIsVouched(ak: Attest.AkFile, reply: bytes)
    requires var e := Attest.Examine(ak, reply);
      e.Exam? && e.quoteBit && e.pica.Some? && e.quote.Some? && e.quote.value.QuoteRead? && e.quote.value.udata.Some?
    ensures VouchedIn(ak, reply)
  {
    hide Attest.Examine, Attest.ReadQuote;
    Attest.ReplyBitExact(ak, reply);
    var ps := Attest.MapPairs(reply).value;
    var e := Attest.Examine(ak, reply);
    var ser :| Attest.QuoteIn(ps, ser) && e.quote == Some(Attest.ReadQuote(ak, ser));
    Attest.QuoteBitExact(ak, ser);
    var a :| Attest.QuoteIn(ps, a) && (Attest.Unasked(ak, a) || Attest.Vouched(ak, a));
    assert a == ser;
  }
}
