// What the attester measures of a process and of its ancestors, through a cache that outlives the
// request: the executable under the key "/proc/<pid>/exe", then the mapped libraries by name
// (sha256_pid, cred_pid, sha256_libs as mycbor_sha256_binaries and mycbor_pack_procchain use them).
module Processes {
  import opened Bytes
  import opened ProcTable
  import opened Measure

  type Cache = map<cstring, digest>

  /** A process when it is measured: ids, the path its exe link names, the digest of that executable
      at this moment, and its maps lines. */
  datatype Process = Process(ids: Ids, path: cstring, exe: digest, lines: seq<Line>)

  // ------------------------------------------------------------- cache keys

  /** "%d" of a non-negative number */
  function Decimal(n: nat): (s: cstring)
    ensures s != [] && forall i :: 0 <= i < |s| ==> 48 <= s[i] < 58
  {
    if n < 10 then [48 + n] else Decimal(n / 10) + [48 + n % 10]
  }

  /** "%d" of a pid_t */
  function PidText(pid: word): (s: cstring)
    ensures s != [] && forall i :: 0 <= i < |s| ==> s[i] == 45 || 48 <= s[i] < 58
  {
    var n := WordInt(pid);
    if n < 0 then [45] + Decimal(-n) else Decimal(n)
  }

  const PROC: cstring := [47, 112, 114, 111, 99, 47] // "/proc/"
  const EXE: cstring := [47, 101, 120, 101]          // "/exe"

  /** The name under which sha256_pid measures an executable. */
  function ExeKey(pid: word): cstring { PROC + PidText(pid) + EXE }

  lemma {:induction false} DecimalInjective(a: nat, b: nat)
    requires Decimal(a) == Decimal(b)
    ensures a == b
  {
    var s, t := Decimal(a), Decimal(b);
    assert s[|s| - 1] == 48 + a % 10 && t[|t| - 1] == 48 + b % 10;
    assert |s| == 1 <==> a < 10;
    assert |t| == 1 <==> b < 10;
    if a >= 10 {
      assert s[..|s| - 1] == Decimal(a / 10) && t[..|t| - 1] == Decimal(b / 10);
      DecimalInjective(a / 10, b / 10);
    }
  }

  /** Different processes have different keys. */
  lemma {:induction false} ExeKeyInjective(a: word, b: word)
    requires ExeKey(a) == ExeKey(b)
    ensures a == b
  {
    hide PidText;
    var x, y := ExeKey(a), ExeKey(b);
    assert x[6..|x| - 4] == PidText(a) && y[6..|y| - 4] == PidText(b);
    PidTextInjective(a, b);
  }

  lemma {:induction false} PidTextInjective(a: word, b: word)
    requires PidText(a) == PidText(b)
    ensures a == b
  {
    hide Decimal;
    var s, t := PidText(a), PidText(b);
    assert s[0] == t[0];
    if WordInt(a) < 0 {
      assert s[1..] == Decimal(-WordInt(a)) && t[1..] == Decimal(-WordInt(b));
      DecimalInjective(-WordInt(a), -WordInt(b));
    } else {
      DecimalInjective(WordInt(a), WordInt(b));
    }
  }

  /** An executable's key never names a library, so the two kinds of entry cannot be confused. */
  lemma {:induction false} ExeKeyIsNoLibrary(pid: word)
    ensures !SharedLib(ExeKey(pid))
  {
    var k := ExeKey(pid);
    forall i | 0 <= i < |k| ensures !DotSo(k, i) {
      if i + 3 <= |k| {
        assert k[i..i + 3][0] == k[i];
        assert k[i] != 46 by {
          if i < 6 { assert k[i] == PROC[i]; }
          else if i < 6 + |PidText(pid)| { assert k[i] == PidText(pid)[i - 6]; }
          else { assert k[i] == EXE[i - 6 - |PidText(pid)|]; }
        }
      }
    }
  }

  // ----------------------------------------------------------- one process

  function ExeCall(pr: Process): Call { Call(ExeKey(pr.ids.pid), Some(pr.exe)) }

  /** The record of a process: its executable's and its libraries' digests as the cache has them. */
  ghost function Reported(cache: Cache, pr: Process): ProcInfo
  {
    ProcInfo(pr.ids, Str(pr.path), Answer(cache, ExeCall(pr)).value,
             ListRun(CacheAfter(cache, ExeCall(pr)), pr.lines, |pr.lines|).libs)
  }

  ghost function CacheLeft(cache: Cache, pr: Process): Cache
  {
    ListRun(CacheAfter(cache, ExeCall(pr)), pr.lines, |pr.lines|).cache
  }

  ghost predicate Extends(big: Cache, small: Cache)
  {
    forall k :: k in small ==> k in big && big[k] == small[k]
  }

  lemma {:induction false} ListGrows(cache: Cache, lines: seq<Line>, m: nat, n: nat)
    requires m <= n <= |lines|
    ensures Extends(ListRun(cache, lines, n).cache, ListRun(cache, lines, m).cache)
    decreases n
  {
    if m < n { ListGrows(cache, lines, m, n - 1); }
  }

  lemma {:induction false} MeasuringGrows(cache: Cache, pr: Process)
    ensures Extends(CacheLeft(cache, pr), CacheAfter(cache, ExeCall(pr)))
    ensures Extends(CacheAfter(cache, ExeCall(pr)), cache)
  {
    ListGrows(CacheAfter(cache, ExeCall(pr)), pr.lines, 0, |pr.lines|);
  }

  /** Measuring a process caches its executable and no other. */
  lemma {:induction false} ExecutablesCached(cache: Cache, pr: Process, pid: word)
    ensures var k, left := ExeKey(pid), CacheLeft(cache, pr);
      && (k in left <==> k in cache || pid == pr.ids.pid)
      && (k in cache ==> left[k] == cache[k])
      && (pid == pr.ids.pid ==> left[k] == Reported(cache, pr).digest)
  {
    hide ExeKey, SharedLib, ListRun;
    var k, c := ExeKey(pid), CacheAfter(cache, ExeCall(pr));
    ListedAfter(c, pr.lines, |pr.lines|, k);
    ExeKeyIsNoLibrary(pid);
    assert forall i: nat :: !Maps(pr.lines, i, k);
    MeasuringGrows(cache, pr);
    if k == ExeKey(pr.ids.pid) { ExeKeyInjective(pid, pr.ids.pid); }
  }

  // -------------------------------------------------------------- the walk

  /** From `pid`, `n >= 1` parent steps lead to pid 1, and fewer do not. */
  ghost predicate Ancestry(world: map<word, Process>, pid: word, n: nat)
    decreases n
  {
    && n >= 1 && pid in world && world[pid].ids.pid == pid
    && if n == 1 then world[pid].ids.ppid == 1
       else world[pid].ids.ppid != 1 && Ancestry(world, world[pid].ids.ppid, n - 1)
  }

  /** The chain from the process below init down to the requester, who is measured first. */
  ghost function Chain(world: map<word, Process>, cache: Cache, pid: word, n: nat): (c: seq<ProcInfo>)
    requires Ancestry(world, pid, n)
    ensures |c| == n
    decreases n
  {
    (if n == 1 then [] else Chain(world, CacheLeft(cache, world[pid]), world[pid].ids.ppid, n - 1))
    + [Reported(cache, world[pid])]
  }

  ghost function CacheBehind(world: map<word, Process>, cache: Cache, pid: word, n: nat): Cache
    requires Ancestry(world, pid, n)
    decreases n
  {
    var left := CacheLeft(cache, world[pid]);
    if n == 1 then left else CacheBehind(world, left, world[pid].ids.ppid, n - 1)
  }

  lemma {:induction false} AncestryDepth(world: map<word, Process>, pid: word, a: nat, b: nat)
    requires Ancestry(world, pid, a) && Ancestry(world, pid, b)
    ensures a == b
    decreases a
  {
    if a > 1 { AncestryDepth(world, world[pid].ids.ppid, a - 1, b - 1); }
  }

  /** Order of the chain: it starts below init, ends with the requester, and each entry's parent is
      the entry before it. */
  lemma {:induction false} ChainOrder(world: map<word, Process>, cache: Cache, pid: word, n: nat)
    requires Ancestry(world, pid, n)
    ensures var c := Chain(world, cache, pid, n);
      && c[0].ids.ppid == 1 && c[n - 1] == Reported(cache, world[pid]) && c[n - 1].ids.pid == pid
      && (forall i :: 1 <= i < n ==> c[i].ids.ppid == c[i - 1].ids.pid)
      && (forall i :: 1 <= i < n ==> c[i].ids.ppid != 1)
    decreases n
  {
    hide CacheLeft;
    if n > 1 {
      ChainOrder(world, CacheLeft(cache, world[pid]), world[pid].ids.ppid, n - 1);
    }
  }

  /** Every record is that of a live process at its own depth; it has a path, and lists no library
      twice. */
  lemma {:induction false} ChainEntry(world: map<word, Process>, cache: Cache, pid: word, n: nat, i: nat)
    requires Ancestry(world, pid, n) && i < n
    ensures var p := Chain(world, cache, pid, n)[i];
      && Ancestry(world, p.ids.pid, i + 1)
      && p.ids == world[p.ids.pid].ids && p.path == Str(world[p.ids.pid].path) && DistinctNames(p.libs)
    decreases n
  {
    hide CacheLeft, ListRun;
    if i == n - 1 {
      var pr := world[pid];
      ListedOnce(CacheAfter(cache, ExeCall(pr)), pr.lines, |pr.lines|);
    } else {
      ChainEntry(world, CacheLeft(cache, world[pid]), world[pid].ids.ppid, n - 1, i);
    }
  }

  lemma {:induction false} ChainMeasured(world: map<word, Process>, cache: Cache, pid: word, n: nat)
    requires Ancestry(world, pid, n)
    ensures var c := Chain(world, cache, pid, n);
      AllNamed(c) && forall i :: 0 <= i < n ==> DistinctNames(c[i].libs)
  {
    hide Chain, DistinctNames;
    var c := Chain(world, cache, pid, n);
    forall i | 0 <= i < n ensures c[i].path.Str? && DistinctNames(c[i].libs) { ChainEntry(world, cache, pid, n, i); }
  }

  /** The digest reported for a process is that of the executable it runs exactly when its pid was
      not measured before, or was measured with this executable. */
  lemma {:induction false} ReportedExecutable(world: map<word, Process>, cache: Cache, pid: word, n: nat, i: nat)
    requires Ancestry(world, pid, n) && i < n
    ensures var p := Chain(world, cache, pid, n)[i];
      var k := ExeKey(p.ids.pid);
      && Ancestry(world, p.ids.pid, i + 1)
      && p.digest == (if k in cache then cache[k] else world[p.ids.pid].exe)
      && (p.digest == world[p.ids.pid].exe <==> (k in cache ==> cache[k] == world[p.ids.pid].exe))
    decreases n
  {
    hide ExeKey, CacheLeft, Reported;
    var pr := world[pid];
    ChainEntry(world, cache, pid, n, i);
    var p := Chain(world, cache, pid, n)[i];
    if i == n - 1 {
      assert p == Reported(cache, pr);
      ReportedDigest(cache, pr);
      ChainOrder(world, cache, pid, n);
    } else {
      var left := CacheLeft(cache, pr);
      ReportedExecutable(world, left, pr.ids.ppid, n - 1, i);
      ExecutablesCached(cache, pr, p.ids.pid);
      if p.ids.pid == pid { AncestryDepth(world, pid, n, i + 1); }
    }
  }

  lemma {:induction false} ReportedDigest(cache: Cache, pr: Process)
    ensures Reported(cache, pr).ids == pr.ids
    ensures var k := ExeKey(pr.ids.pid); Reported(cache, pr).digest == if k in cache then cache[k] else pr.exe
  {
    hide ListRun, ExeKey;
  }

  lemma {:induction false} WalkGrows(world: map<word, Process>, cache: Cache, pid: word, n: nat)
    requires Ancestry(world, pid, n)
    ensures Extends(CacheBehind(world, cache, pid, n), CacheLeft(cache, world[pid]))
    decreases n
  {
    hide CacheLeft;
    var left := CacheLeft(cache, world[pid]);
    if n > 1 {
      MeasuringGrows(left, world[world[pid].ids.ppid]);
      WalkGrows(world, left, world[pid].ids.ppid, n - 1);
    }
  }

  /** A pid that has been measured keeps its digest: whatever runs under it when a later request
      comes, the digest of the first executable is reported. */
  lemma {:induction false} StaleExecutable(world: map<word, Process>, cache: Cache, pid: word, n: nat, now: digest)
    requires Ancestry(world, pid, n)
    ensures var later := world[pid := world[pid].(exe := now)];
      && Ancestry(later, pid, n)
      && Chain(later, CacheBehind(world, cache, pid, n), pid, n)[n - 1].digest
         == Chain(world, cache, pid, n)[n - 1].digest
  {
    var later := world[pid := world[pid].(exe := now)];
    AncestryKept(world, pid, now, pid, n);
    hide ExeKey, CacheLeft, Reported;
    var behind := CacheBehind(world, cache, pid, n);
    ExecutablesCached(cache, world[pid], pid);
    WalkGrows(world, cache, pid, n);
    ReportedDigest(behind, later[pid]);
  }

  lemma {:induction false} AncestryKept(world: map<word, Process>, changed: word, now: digest, pid: word, n: nat)
    requires Ancestry(world, pid, n) && changed in world
    ensures Ancestry(world[changed := world[changed].(exe := now)], pid, n)
    decreases n
  {
    if n > 1 { AncestryKept(world, changed, now, world[pid].ids.ppid, n - 1); }
  }

  // ----------------------------------------------------- measuring again

  /** Every library mapping can be read. */
  ghost predicate Legible(lines: seq<Line>)
  {
    forall i :: 0 <= i < |lines| && SharedLib(lines[i].path) ==> lines[i].measured.Some?
  }

  lemma {:induction false} ListAgain(cache: Cache, again: Cache, lines: seq<Line>, n: nat)
    requires n <= |lines| && Legible(lines) && Extends(again, ListRun(cache, lines, n).cache)
    ensures ListRun(again, lines, n) == Listing(again, ListRun(cache, lines, n).libs)
  {
    hide SharedLib, HasPath;
    if n > 0 {
      ListGrows(cache, lines, n - 1, n);
      ListAgain(cache, again, lines, n - 1);
    }
  }

  /** Measured again, also after other requests, the same processes give the same chain. */
  lemma {:induction false} MeasuredAgain(world: map<word, Process>, cache: Cache, again: Cache, pid: word, n: nat)
    requires Ancestry(world, pid, n) && (forall q :: q in world ==> Legible(world[q].lines))
    requires Extends(again, CacheBehind(world, cache, pid, n))
    ensures Chain(world, again, pid, n) == Chain(world, cache, pid, n)
    ensures CacheBehind(world, again, pid, n) == again
    decreases n
  {
    hide ExeKey, Legible, ListRun;
    var pr := world[pid];
    var left := CacheLeft(cache, pr);
    WalkGrows(world, cache, pid, n);
    assert Extends(again, left);
    MeasuringGrows(cache, pr);
    ListAgain(CacheAfter(cache, ExeCall(pr)), again, pr.lines, |pr.lines|);
    assert CacheAfter(again, ExeCall(pr)) == again;
    assert CacheLeft(again, pr) == again && Reported(again, pr) == Reported(cache, pr);
    if n > 1 { MeasuredAgain(world, left, again, pr.ids.ppid, n - 1); }
  }

  // ------------------------------ measuring again when files cannot be read

  /** Each mapped library is known to the cache, or can be read where it is first mapped, or is mapped
      once more behind that place. */
  ghost predicate Listable(cache: Cache, lines: seq<Line>)
  {
    forall i: nat, p :: FirstMaps(lines, i, p) ==>
      p in cache || lines[i].measured.Some? || exists k: nat :: i < k && Maps(lines, k, p)
  }

  lemma {:induction false} FirstMapsExists(lines: seq<Line>, i: nat, p: cstring) returns (f: nat)
    requires Maps(lines, i, p)
    ensures f <= i && FirstMaps(lines, f, p)
  {
    if k: nat :| k < i && Maps(lines, k, p) { f := FirstMapsExists(lines, k, p); } else { f := i; }
  }

  /** A library's listing survives its first mapping being unreadable only under that condition. */
  lemma {:induction false} ListableExact(cache: Cache, lines: seq<Line>)
    ensures Listable(cache, lines) <==>
      forall i: nat, p :: Maps(lines, i, p) ==> HasPath(ListRun(cache, lines, |lines|).libs, p)
  {
    hide SharedLib, HasPath, ListRun;
    var libs := ListRun(cache, lines, |lines|).libs;
    forall p ensures HasPath(libs, p) <==> exists k: nat :: Measured(cache, lines, k, p) {
      ListedAfter(cache, lines, |lines|, p);
    }
    if Listable(cache, lines) {
      forall i: nat, p | Maps(lines, i, p) ensures exists k: nat :: Measured(cache, lines, k, p) {
        var f := FirstMapsExists(lines, i, p);
        if p in cache || lines[f].measured.Some? {
          assert Measured(cache, lines, f, p);
        } else {
          var k: nat :| f < k && Maps(lines, k, p);
          assert Measured(cache, lines, k, p);
        }
      }
    } else {
      var i: nat, p :| FirstMaps(lines, i, p) && p !in cache && lines[i].measured.None?
                       && forall k: nat :: i < k ==> !Maps(lines, k, p);
      assert forall k: nat :: !Measured(cache, lines, k, p);
    }
  }

  lemma {:induction false} KnownRun(cache: Cache, lines: seq<Line>, n: nat)
    requires n <= |lines| && forall i: nat, p :: Maps(lines, i, p) ==> p in cache
    ensures ListRun(cache, lines, n).cache == cache
  {
    hide SharedLib, HasPath;
    if n > 0 {
      KnownRun(cache, lines, n - 1);
      assert SharedLib(lines[n - 1].path) ==> Maps(lines, n - 1, lines[n - 1].path);
    }
  }

  /** Listed again later: everything listed before, and the same up to order exactly when the lines
      were listable; otherwise the list has grown. */
  lemma {:induction false} ListAgainExact(cache: Cache, again: Cache, lines: seq<Line>)
    requires Extends(again, ListRun(cache, lines, |lines|).cache)
    ensures var a, b := ListRun(cache, lines, |lines|).libs, ListRun(again, lines, |lines|).libs;
      && ListRun(again, lines, |lines|).cache == again
      && (multiset(a) == multiset(b) <==> Listable(cache, lines))
      && |a| <= |b| && (multiset(a) != multiset(b) ==> |a| < |b|)
  {
    hide SharedLib, ListRun, Listable;
    var n := |lines|;
    var a, b := ListRun(cache, lines, n).libs, ListRun(again, lines, n).libs;
    forall i: nat, p | Maps(lines, i, p) ensures p in again { ListedAfter(cache, lines, n, p); }
    KnownRun(again, lines, n);
    ListedOnce(cache, lines, n);
    ListedOnce(again, lines, n);
    forall p ensures HasPath(b, p) <==> exists i: nat :: Maps(lines, i, p) {
      ListedAfter(again, lines, n, p);
      assert forall i: nat :: Maps(lines, i, p) ==> Measured(again, lines, i, p);
    }
    forall i | 0 <= i < |a| ensures a[i] in b {
      ListedAfter(cache, lines, n, a[i].path);
      assert HasPath(a, a[i].path);
      assert HasPath(b, a[i].path);
    }
    SameNamesExact(a, b);
    ListableExact(cache, lines);
    if forall i :: 0 <= i < |b| ==> HasPath(a, b[i].path) {
      forall i: nat, p | Maps(lines, i, p) ensures HasPath(a, p) {
        assert HasPath(b, p);
        var j :| 0 <= j < |b| && b[j].path == p;
        assert HasPath(a, b[j].path);
      }
    }
    if forall i: nat, p :: Maps(lines, i, p) ==> HasPath(a, p) {
      forall j | 0 <= j < |b| ensures HasPath(a, b[j].path) {
        assert HasPath(b, b[j].path);
        var i: nat :| Maps(lines, i, b[j].path);
      }
    }
  }

  /** Every process on the walk was listable when it was measured. */
  ghost predicate ChainListable(world: map<word, Process>, cache: Cache, pid: word, n: nat)
    requires Ancestry(world, pid, n)
    decreases n
  {
    var pr := world[pid];
    && Listable(CacheAfter(cache, ExeCall(pr)), pr.lines)
    && (n > 1 ==> ChainListable(world, CacheLeft(cache, pr), pr.ids.ppid, n - 1))
  }

  /** The same process in two measurements, the later one with perhaps more libraries. */
  ghost predicate Grown(p: ProcInfo, q: ProcInfo)
  {
    && q == p.(libs := q.libs) && |p.libs| <= |q.libs|
    && (multiset(p.libs) != multiset(q.libs) ==> |p.libs| < |q.libs|)
  }

  ghost predicate AllSame(a: seq<ProcInfo>, b: seq<ProcInfo>)
    requires |a| == |b|
  {
    forall i :: 0 <= i < |a| ==> SameBinary(a[i], b[i])
  }

  lemma {:induction false} ReportedAgain(cache: Cache, again: Cache, pr: Process)
    requires Extends(again, CacheLeft(cache, pr))
    ensures var p, q := Reported(cache, pr), Reported(again, pr);
      && CacheLeft(again, pr) == again && Grown(p, q)
      && (SameBinary(p, q) <==> Listable(CacheAfter(cache, ExeCall(pr)), pr.lines))
  {
    hide ExeKey, Listable, ListRun;
    MeasuringGrows(cache, pr);
    ListAgainExact(CacheAfter(cache, ExeCall(pr)), again, pr.lines);
    assert CacheAfter(again, ExeCall(pr)) == again;
  }

  /** Measured again, also after other requests, the same processes give the same chain up to the order
      of libraries exactly when they were listable; otherwise some library list has grown. */
  lemma {:induction false} MeasuredAgainExact(world: map<word, Process>, cache: Cache, again: Cache, pid: word, n: nat)
    requires Ancestry(world, pid, n) && Extends(again, CacheBehind(world, cache, pid, n))
    ensures var c, d := Chain(world, cache, pid, n), Chain(world, again, pid, n);
      && CacheBehind(world, again, pid, n) == again
      && (AllSame(c, d) <==> ChainListable(world, cache, pid, n))
      && forall i :: 0 <= i < n ==> Grown(c[i], d[i])
    decreases n
  {
    hide ExeCall, Listable, Reported, CacheLeft, Grown, SameBinary;
    var pr := world[pid];
    var left := CacheLeft(cache, pr);
    WalkGrows(world, cache, pid, n);
    assert Extends(again, left);
    ReportedAgain(cache, again, pr);
    var p, q := Reported(cache, pr), Reported(again, pr);
    if n > 1 {
      MeasuredAgainExact(world, left, again, pr.ids.ppid, n - 1);
      AllSameSnoc(Chain(world, left, pr.ids.ppid, n - 1), Chain(world, again, pr.ids.ppid, n - 1), p, q);
    } else {
      AllSameSnoc([], [], p, q);
      assert [] + [p] == [p] && [] + [q] == [q];
    }
  }

  lemma {:induction false} AllSameSnoc(a: seq<ProcInfo>, b: seq<ProcInfo>, p: ProcInfo, q: ProcInfo)
    requires |a| == |b|
    ensures AllSame(a + [p], b + [q]) <==> AllSame(a, b) && SameBinary(p, q)
  {
    var x, y := a + [p], b + [q];
    assert x[|a|] == p && y[|a|] == q && forall i :: 0 <= i < |a| ==> x[i] == a[i] && y[i] == b[i];
  }

  /** One unreadable library, mapped once: the second measurement lists what the first did not. */
  lemma {:induction false} UnreadableGrows()
    ensures var name: cstring := [46, 115, 111];
      var ids := Ids(7, 1, 0, 0, 0, 0, 0, 0);
      var world := map[7 := Process(ids, [47], ZeroDigest(), [Line(name, None)])];
      && Ancestry(world, 7, 1)
      && !AllSame(Chain(world, map[], 7, 1), Chain(world, CacheBehind(world, map[], 7, 1), 7, 1))
  {
    hide ExeKey;
    var name: cstring := [46, 115, 111];
    var lines := [Line(name, None)];
    var world := map[7 := Process(Ids(7, 1, 0, 0, 0, 0, 0, 0), [47], ZeroDigest(), lines)];
    var behind := CacheBehind(world, map[], 7, 1);
    MeasuredAgainExact(world, map[], behind, 7, 1);
    assert name[0..3] == name;
    assert DotSo(name, 0);
    assert FirstMaps(lines, 0, name);
    ExeKeyIsNoLibrary(7);
    assert !Listable(CacheAfter(map[], ExeCall(world[7])), lines);
  }

  // ------------------------------------------ executables seen over a run

  /** An executable the attester came across under a pid, whether it measured it or not. */
  datatype Seen = Seen(pid: word, exe: digest)

  ghost predicate FirstSeen(seen: seq<Seen>, pid: word, m: nat)
  {
    m < |seen| && seen[m].pid == pid && forall k :: 0 <= k < m ==> seen[k].pid != pid
  }

  /** The cache holds, for exactly the pids that were seen, the executable seen first. */
  ghost predicate Remembers(cache: Cache, seen: seq<Seen>)
  {
    forall pid: word ::
      && (ExeKey(pid) in cache <==> exists m: nat :: FirstSeen(seen, pid, m))
      && (forall m: nat :: FirstSeen(seen, pid, m) ==> ExeKey(pid) in cache && cache[ExeKey(pid)] == seen[m].exe)
  }

  /** The cache after a process has been looked at: its executable is known, no other is touched. */
  ghost predicate Learns(cache: Cache, left: Cache, s: Seen)
  {
    && (forall pid: word :: ExeKey(pid) in left <==> ExeKey(pid) in cache || pid == s.pid)
    && (forall pid: word :: ExeKey(pid) in cache ==> ExeKey(pid) in left && left[ExeKey(pid)] == cache[ExeKey(pid)])
    && (ExeKey(s.pid) !in cache ==> ExeKey(s.pid) in left && left[ExeKey(s.pid)] == s.exe)
  }

  lemma {:induction false} LearningRemembers(cache: Cache, left: Cache, seen: seq<Seen>, s: Seen)
    requires Remembers(cache, seen) && Learns(cache, left, s)
    ensures Remembers(left, seen + [s])
  {
    hide ExeKey;
    var all := seen + [s];
    forall pid: word
      ensures ExeKey(pid) in left <==> exists m: nat :: FirstSeen(all, pid, m)
      ensures forall m: nat :: FirstSeen(all, pid, m) ==> ExeKey(pid) in left && left[ExeKey(pid)] == all[m].exe
    {
      forall m: nat | FirstSeen(seen, pid, m) ensures FirstSeen(all, pid, m) {}
      forall m: nat | FirstSeen(all, pid, m) ensures m < |seen| ==> FirstSeen(seen, pid, m) {
        assert forall k :: 0 <= k < |seen| ==> all[k] == seen[k];
      }
      if pid == s.pid && ExeKey(pid) !in cache {
        forall k | 0 <= k < |seen| ensures seen[k].pid != pid {
          if seen[k].pid == pid { var m := FirstSeenExists(seen, k); }
        }
        assert FirstSeen(all, pid, |seen|);
      }
    }
  }

  lemma {:induction false} FirstSeenExists(seen: seq<Seen>, k: nat) returns (m: nat)
    requires k < |seen|
    ensures m <= k && FirstSeen(seen, seen[k].pid, m)
  {
    if i :| 0 <= i < k && seen[i].pid == seen[k].pid { m := FirstSeenExists(seen, i); } else { m := k; }
  }

  lemma {:induction false} MeasuringLearns(cache: Cache, pr: Process)
    ensures Learns(cache, CacheAfter(cache, ExeCall(pr)), Seen(pr.ids.pid, pr.exe))
    ensures Learns(cache, CacheLeft(cache, pr), Seen(pr.ids.pid, pr.exe))
  {
    hide ExeKey, CacheLeft, Reported;
    forall pid: word
      ensures ExeKey(pid) == ExeKey(pr.ids.pid) ==> pid == pr.ids.pid
    {
      if ExeKey(pid) == ExeKey(pr.ids.pid) { ExeKeyInjective(pid, pr.ids.pid); }
    }
    forall pid: word
      ensures ExeKey(pid) in CacheLeft(cache, pr) <==> ExeKey(pid) in cache || pid == pr.ids.pid
      ensures ExeKey(pid) in cache ==> CacheLeft(cache, pr)[ExeKey(pid)] == cache[ExeKey(pid)]
    {
      ExecutablesCached(cache, pr, pid);
    }
    ExecutablesCached(cache, pr, pr.ids.pid);
    ReportedDigest(cache, pr);
  }

  /** The executables met on a walk, the requester's first. */
  ghost function WalkSeen(world: map<word, Process>, pid: word, n: nat): seq<Seen>
    requires Ancestry(world, pid, n)
    decreases n
  {
    [Seen(pid, world[pid].exe)] + if n == 1 then [] else WalkSeen(world, world[pid].ids.ppid, n - 1)
  }

  lemma {:induction false} WalkRemembers(world: map<word, Process>, cache: Cache, seen: seq<Seen>, pid: word, n: nat)
    requires Ancestry(world, pid, n) && Remembers(cache, seen)
    ensures Remembers(CacheBehind(world, cache, pid, n), seen + WalkSeen(world, pid, n))
    decreases n
  {
    hide Remembers, Learns, CacheLeft;
    var pr := world[pid];
    var here := Seen(pid, pr.exe);
    MeasuringLearns(cache, pr);
    LearningRemembers(cache, CacheLeft(cache, pr), seen, here);
    if n > 1 {
      WalkRemembers(world, CacheLeft(cache, pr), seen + [here], pr.ids.ppid, n - 1);
      assert seen + [here] + WalkSeen(world, pr.ids.ppid, n - 1) == seen + WalkSeen(world, pid, n);
    } else {
      assert WalkSeen(world, pid, n) == [here];
    }
  }

  lemma {:induction false} ChainCached(world: map<word, Process>, cache: Cache, pid: word, n: nat, i: nat)
    requires Ancestry(world, pid, n) && i < n
    ensures var p, behind := Chain(world, cache, pid, n)[i], CacheBehind(world, cache, pid, n);
      ExeKey(p.ids.pid) in behind && behind[ExeKey(p.ids.pid)] == p.digest
    decreases n
  {
    hide ExeKey, CacheLeft, Reported;
    var pr := world[pid];
    if i == n - 1 {
      ExecutablesCached(cache, pr, pid);
      ReportedDigest(cache, pr);
      WalkGrows(world, cache, pid, n);
    } else {
      ChainCached(world, CacheLeft(cache, pr), pr.ids.ppid, n - 1, i);
    }
  }

  /** Every digest of the table is that of the executable seen first under its pid. */
  ghost predicate DigestsSeen(seen: seq<Seen>, c: seq<ProcInfo>)
  {
    forall i :: 0 <= i < |c| ==> SeenAs(seen, c[i])
  }

  ghost predicate SeenAs(seen: seq<Seen>, p: ProcInfo)
  {
    exists m: nat :: FirstSeen(seen, p.ids.pid, m) && seen[m].exe == p.digest
  }

  lemma {:induction false} ChainSeen(world: map<word, Process>, cache: Cache, seen: seq<Seen>, pid: word, n: nat)
    requires Ancestry(world, pid, n) && Remembers(cache, seen)
    ensures DigestsSeen(seen + WalkSeen(world, pid, n), Chain(world, cache, pid, n))
  {
    hide ExeKey, Chain, CacheBehind, WalkSeen;
    var all, c := seen + WalkSeen(world, pid, n), Chain(world, cache, pid, n);
    WalkRemembers(world, cache, seen, pid, n);
    forall i | 0 <= i < |c| ensures SeenAs(all, c[i]) {
      ChainCached(world, cache, pid, n, i);
      assert ExeKey(c[i].ids.pid) in CacheBehind(world, cache, pid, n);
      var m: nat :| FirstSeen(all, c[i].ids.pid, m);
    }
  }

  lemma {:induction false} SeenKept(seen: seq<Seen>, more: seq<Seen>, c: seq<ProcInfo>)
    requires DigestsSeen(seen, c)
    ensures DigestsSeen(seen + more, c)
  {
    forall i | 0 <= i < |c| ensures SeenAs(seen + more, c[i]) {
      assert SeenAs(seen, c[i]);
      var m: nat :| FirstSeen(seen, c[i].ids.pid, m) && seen[m].exe == c[i].digest;
      assert FirstSeen(seen + more, c[i].ids.pid, m);
    }
  }

  // ------------------------------------------------ libraries over a walk

  /** What a mapping measures to when it is the first of its name; zero when it cannot be read. */
  function FirstDigest(l: Line): digest { if l.measured.Some? then l.measured.value else ZeroDigest() }

  ghost predicate MappedBefore(lines: seq<Line>, n: nat, p: cstring) { exists k: nat :: k < n && Maps(lines, k, p) }

  /** `now` is what became of `cache` over the mappings `past`: a library is known when it was known or
      has been mapped, and keeps the digest it had or that of its first mapping. */
  ghost predicate History(cache: Cache, past: seq<Line>, now: Cache)
  {
    forall p :: SharedLib(p) ==>
      && (p in now <==> p in cache || MappedBefore(past, |past|, p))
      && (p in cache ==> p in now && now[p] == cache[p])
      && (forall m: nat :: p !in cache && FirstMaps(past, m, p) ==> p in now && now[p] == FirstDigest(past[m]))
  }

  lemma {:induction false} MapsConcat(a: seq<Line>, b: seq<Line>, p: cstring)
    ensures forall k: nat :: k < |a| ==> (Maps(a + b, k, p) <==> Maps(a, k, p))
    ensures forall k: nat :: Maps(b, k, p) <==> Maps(a + b, |a| + k, p)
    ensures forall m: nat :: m < |a| && FirstMaps(a + b, m, p) ==> FirstMaps(a, m, p)
    ensures forall m: nat :: |a| <= m && FirstMaps(a + b, m, p) ==>
              FirstMaps(b, m - |a|, p) && !MappedBefore(a, |a|, p)
  {
    hide SharedLib;
    forall m: nat | |a| <= m && FirstMaps(a + b, m, p)
      ensures FirstMaps(b, m - |a|, p) && !MappedBefore(a, |a|, p)
    {
      forall k | 0 <= k < m - |a| ensures !Maps(b, k, p) { assert !Maps(a + b, |a| + k, p); }
      forall k: nat | k < |a| ensures !Maps(a, k, p) { assert !Maps(a + b, k, p); }
    }
  }

  lemma {:induction false} ExeCallKeepsLibraries(cache: Cache, pr: Process, p: cstring)
    requires SharedLib(p)
    ensures var c := CacheAfter(cache, ExeCall(pr)); (p in c <==> p in cache) && (p in cache ==> c[p] == cache[p])
  {
    hide ExeKey, SharedLib;
    ExeKeyIsNoLibrary(pr.ids.pid);
  }

  lemma {:induction false} HistoryStep(cache: Cache, past: seq<Line>, now: Cache, pr: Process)
    requires History(cache, past, now)
    ensures History(cache, past + pr.lines, CacheLeft(now, pr))
  {
    hide ExeKey, SharedLib, ListRun;
    var c, left, all, n := CacheAfter(now, ExeCall(pr)), CacheLeft(now, pr), past + pr.lines, |pr.lines|;
    MeasuringGrows(now, pr);
    forall p | SharedLib(p)
      ensures p in left <==> p in cache || MappedBefore(all, |all|, p)
      ensures p in cache ==> p in left && left[p] == cache[p]
      ensures forall m: nat :: p !in cache && FirstMaps(all, m, p) ==> p in left && left[p] == FirstDigest(all[m])
    {
      ExeCallKeepsLibraries(now, pr, p);
      ListedAfter(c, pr.lines, n, p);
      MapsConcat(past, pr.lines, p);
      forall m: nat | p !in cache && FirstMaps(all, m, p)
        ensures p in left && left[p] == FirstDigest(all[m])
      {
        if m >= |past| { CachedFromFirst(c, pr.lines, n, m - |past|, p); }
      }
      if MappedBefore(all, |all|, p) {
        var k: nat :| k < |all| && Maps(all, k, p);
        if k >= |past| { assert Maps(pr.lines, k - |past|, p); }
      }
    }
  }

  /** The libraries of one process, measured after `past`. */
  ghost predicate ListsLibraries(cache: Cache, past: seq<Line>, lines: seq<Line>, libs: seq<FDigest>, p: cstring)
  {
    && (HasPath(libs, p) <==> exists j: nat ::
          Maps(lines, j, p) && (p in cache || lines[j].measured.Some? || MappedBefore(past + lines, |past| + j, p)))
    && (forall k :: 0 <= k < |libs| && libs[k].path == p ==>
          && (p in cache ==> libs[k].digest == cache[p])
          && (forall m: nat :: p !in cache && FirstMaps(past + lines, m, p) ==>
                libs[k].digest == FirstDigest((past + lines)[m])))
  }

  lemma {:induction false} MeasuredAfter(cache: Cache, past: seq<Line>, now: Cache, pr: Process, j: nat, p: cstring)
    requires History(cache, past, now) && Maps(pr.lines, j, p)
    ensures Measured(CacheAfter(now, ExeCall(pr)), pr.lines, j, p) <==>
      p in cache || pr.lines[j].measured.Some? || MappedBefore(past + pr.lines, |past| + j, p)
  {
    hide ExeKey, SharedLib;
    var lines, all := pr.lines, past + pr.lines;
    ExeCallKeepsLibraries(now, pr, p);
    MapsConcat(past, lines, p);
    if MappedBefore(all, |past| + j, p) {
      var k: nat :| k < |past| + j && Maps(all, k, p);
      if k < |past| { assert Maps(past, k, p); } else { assert Maps(lines, k - |past|, p); }
    }
    if MappedBefore(past, |past|, p) {
      var k: nat :| k < |past| && Maps(past, k, p);
      assert Maps(all, k, p);
    }
    if k: nat :| k < j && Maps(lines, k, p) { assert Maps(all, |past| + k, p); }
  }

  lemma {:induction false} HistoryReport(cache: Cache, past: seq<Line>, now: Cache, pr: Process, p: cstring)
    requires History(cache, past, now)
    ensures ListsLibraries(cache, past, pr.lines, Reported(now, pr).libs, p)
  {
    hide ExeKey, SharedLib, ListRun, CacheAfter, MappedBefore;
    var c, lines, libs := CacheAfter(now, ExeCall(pr)), pr.lines, Reported(now, pr).libs;
    LibraryList(c, lines, p);
    ListedOnce(c, lines, |lines|);
    forall j: nat | Maps(lines, j, p)
      ensures Measured(c, lines, j, p) <==>
        p in cache || lines[j].measured.Some? || MappedBefore(past + lines, |past| + j, p)
    {
      MeasuredAfter(cache, past, now, pr, j, p);
    }
    HistoryStep(cache, past, now, pr);
    forall k | 0 <= k < |libs| && libs[k].path == p
      ensures SharedLib(p) && p in CacheLeft(now, pr) && libs[k].digest == CacheLeft(now, pr)[p]
    {
      assert HasPath(libs, p);
      var j: nat :| Measured(c, lines, j, p);
    }
  }

  /** The mappings measured on the walk before entry `i`, the requester's first. */
  ghost function WalkBefore(world: map<word, Process>, pid: word, n: nat, i: nat): seq<Line>
    requires Ancestry(world, pid, n) && i < n
    decreases n
  {
    if i == n - 1 then [] else world[pid].lines + WalkBefore(world, world[pid].ids.ppid, n - 1, i)
  }

  lemma {:induction false} LibrariesFrom(world: map<word, Process>, cache: Cache, past: seq<Line>, now: Cache,
                                         pid: word, n: nat, i: nat, p: cstring)
    requires Ancestry(world, pid, n) && i < n && History(cache, past, now)
    ensures var q := Chain(world, now, pid, n)[i];
      && q.ids.pid in world
      && ListsLibraries(cache, past + WalkBefore(world, pid, n, i), world[q.ids.pid].lines, q.libs, p)
    decreases n
  {
    hide History, ListsLibraries, Reported, CacheLeft;
    var pr := world[pid];
    ChainEntry(world, now, pid, n, i);
    if i == n - 1 {
      HistoryReport(cache, past, now, pr, p);
      ChainOrder(world, now, pid, n);
      assert past + [] == past;
    } else {
      HistoryStep(cache, past, now, pr);
      LibrariesFrom(world, cache, past + pr.lines, CacheLeft(now, pr), pr.ids.ppid, n - 1, i, p);
      assert past + pr.lines + WalkBefore(world, pr.ids.ppid, n - 1, i) == past + WalkBefore(world, pid, n, i);
    }
  }

  /** The libraries in a chain's record, in terms of the maps lines of the processes and the cache at the
      start.  A name is listed exactly when the process maps it as a library and it was known, can be
      read there, or was mapped before on this walk; its digest is the one known, or that of its first
      mapping on the walk. */
  lemma {:induction false} ReportedLibraries(world: map<word, Process>, cache: Cache, pid: word, n: nat, i: nat,
                                             p: cstring)
    requires Ancestry(world, pid, n) && i < n
    ensures var q, past := Chain(world, cache, pid, n)[i], WalkBefore(world, pid, n, i);
      && q.ids.pid in world
      && var lines := world[q.ids.pid].lines;
         var all := past + lines;
         && (HasPath(q.libs, p) <==> exists j: nat ::
               Maps(lines, j, p) && (p in cache || lines[j].measured.Some? || MappedBefore(all, |past| + j, p)))
         && (forall k :: 0 <= k < |q.libs| && q.libs[k].path == p ==>
               && (p in cache ==> q.libs[k].digest == cache[p])
               && (forall m: nat :: p !in cache && FirstMaps(all, m, p) ==> q.libs[k].digest == FirstDigest(all[m])))
  {
    hide History, Chain, SharedLib, HasPath;
    HistoryStart(cache);
    LibrariesFrom(world, cache, [], cache, pid, n, i, p);
    assert [] + WalkBefore(world, pid, n, i) == WalkBefore(world, pid, n, i);
  }

  lemma {:induction false} HistoryStart(cache: Cache)
    ensures History(cache, [], cache)
  {}

  /** The mappings measured on a whole walk. */
  ghost function WalkLines(world: map<word, Process>, pid: word, n: nat): seq<Line>
    requires Ancestry(world, pid, n)
    decreases n
  {
    world[pid].lines + if n == 1 then [] else WalkLines(world, world[pid].ids.ppid, n - 1)
  }

  /** The libraries known after a walk. */
  lemma {:induction false} WalkHistory(world: map<word, Process>, cache: Cache, past: seq<Line>, now: Cache,
                                       pid: word, n: nat)
    requires Ancestry(world, pid, n) && History(cache, past, now)
    ensures History(cache, past + WalkLines(world, pid, n), CacheBehind(world, now, pid, n))
    decreases n
  {
    hide History, CacheLeft;
    var pr := world[pid];
    HistoryStep(cache, past, now, pr);
    if n > 1 {
      WalkHistory(world, cache, past + pr.lines, CacheLeft(now, pr), pr.ids.ppid, n - 1);
      assert past + pr.lines + WalkLines(world, pr.ids.ppid, n - 1) == past + WalkLines(world, pid, n);
    } else {
      assert pr.lines + [] == pr.lines;
    }
  }

  lemma {:induction false} DecimalExample()
    ensures Decimal(4321) == [52, 51, 50, 49]
  {
    assert Decimal(4) == [52];
    assert Decimal(43) == Decimal(4) + [51];
    assert Decimal(432) == Decimal(43) + [50];
    assert Decimal(4321) == Decimal(432) + [49];
  }

  /** The cache key of an executable, spelt out. */
  lemma {:induction false} ExeKeyExample()
    ensures ExeKey(4321) == Ascii("/proc/") + PidText(4321) + Ascii("/exe") && PidText(4321) == Ascii("4321")
  {
    hide Decimal;
    DecimalExample();
    assert WordInt(4321) == 4321;
    assert PidText(4321) == [52, 51, 50, 49];
  }
}
