// The in-memory process table shared by the attester, the configuration tool and the verifier
// (struct procinfo and struct fdigest of src/libpica_common.h).
module ProcTable {
  import opened Bytes

  /** A 32-bit field, as its bit pattern. */
  type word = x: int | 0 <= x < TWO32

  type digest = d: bytes | |d| == 32 witness seq(32, _ => 0)

  /** A `char *` that may be NULL. */
  datatype CStr = Null | Str(s: cstring)

  datatype FDigest = FDigest(path: cstring, digest: digest)

  datatype Ids = Ids(pid: word, ppid: word, ruid: word, rgid: word,
                     euid: word, egid: word, suid: word, sgid: word)

  datatype ProcInfo = ProcInfo(ids: Ids, path: CStr, digest: digest, libs: seq<FDigest>)

  function ZeroDigest(): digest { seq(32, _ => 0) }

  function PathOf(p: ProcInfo): cstring { if p.path.Str? then p.path.s else [] }

  /** No library is listed twice. */
  ghost predicate DistinctNames(libs: seq<FDigest>)
  {
    forall i, j :: 0 <= i < j < |libs| ==> libs[i].path != libs[j].path
  }

  predicate AllNamed(t: seq<ProcInfo>) { forall i :: 0 <= i < |t| ==> t[i].path.Str? }

  /** The same executable with the same libraries, in any order. */
  ghost predicate SameBinary(a: ProcInfo, b: ProcInfo)
  {
    a.path == b.path && a.digest == b.digest && multiset(a.libs) == multiset(b.libs)
  }

  lemma {:induction false} DistinctElements(s: seq<FDigest>)
    requires DistinctNames(s)
    ensures |set x | x in s| == |s| && multiset(s) == multiset(set x | x in s)
  {
    if |s| > 0 {
      var front, last := s[..|s| - 1], s[|s| - 1];
      DistinctElements(front);
      assert s == front + [last];
      assert last !in front by {
        hide *;
        assert DistinctNames(s);
      }
      assert (set x | x in s) == (set x | x in front) + {last};
    }
  }

  /** A list of distinct names that includes another of the same length is a reordering of it. */
  lemma {:induction false} Pigeonhole(a: seq<FDigest>, b: seq<FDigest>)
    requires DistinctNames(a) && DistinctNames(b) && |a| == |b|
    requires forall i :: 0 <= i < |a| ==> a[i] in b
    ensures multiset(a) == multiset(b)
  {
    DistinctElements(a);
    DistinctElements(b);
    var A, B := set x | x in a, set x | x in b;
    assert A <= B;
    if A != B {
      assert A < B;
      SubsetSize(A, B);
    }
  }

  lemma {:induction false} SubsetSize<T>(a: set<T>, b: set<T>)
    requires a < b
    ensures |a| < |b|
  {
    assert b == a + (b - a);
    assert |b| == |a| + |b - a|;
    assert b - a != {};
  }

  /** Reordering keeps names distinct. */
  lemma {:induction false} DistinctKept(a: seq<FDigest>, b: seq<FDigest>)
    requires DistinctNames(a) && multiset(a) == multiset(b)
    ensures DistinctNames(b)
  {
    DistinctElements(a);
    forall i, j | 0 <= i < j < |b| ensures b[i].path != b[j].path {
      assert b[i] in multiset(a) && b[j] in multiset(a);
      var m :| 0 <= m < |a| && a[m] == b[i];
      var n :| 0 <= n < |a| && a[n] == b[j];
      assert b == b[..i] + [b[i]] + b[i + 1..j] + [b[j]] + b[j + 1..];
      assert b[i] != b[j] by { assert b[i] == b[j] ==> multiset(b)[b[i]] >= 2; }
    }
  }

  ghost predicate HasPath(libs: seq<FDigest>, p: cstring) { exists i :: 0 <= i < |libs| && libs[i].path == p }

  /** Of two lists of distinct names, one within the other: equal up to order exactly when no name of
      the larger is missing in the smaller, which otherwise is shorter. */
  lemma {:induction false} SameNamesExact(a: seq<FDigest>, b: seq<FDigest>)
    requires DistinctNames(a) && DistinctNames(b) && forall i :: 0 <= i < |a| ==> a[i] in b
    ensures multiset(a) == multiset(b) <==> forall i :: 0 <= i < |b| ==> HasPath(a, b[i].path)
    ensures |a| <= |b| && (multiset(a) != multiset(b) ==> |a| < |b|)
  {
    DistinctElements(a);
    DistinctElements(b);
    var A, B := set x | x in a, set x | x in b;
    assert A <= B;
    if forall i :: 0 <= i < |b| ==> HasPath(a, b[i].path) {
      forall x | x in B ensures x in A {
        var i :| 0 <= i < |b| && b[i] == x;
        var j :| 0 <= j < |a| && a[j].path == b[i].path;
        assert a[j] in b;
      }
      assert A == B;
    }
    if multiset(a) == multiset(b) {
      forall i | 0 <= i < |b| ensures HasPath(a, b[i].path) {
        assert b[i] in multiset(a);
        var j :| 0 <= j < |a| && a[j] == b[i];
      }
    } else {
      assert A < B;
      SubsetSize(A, B);
    }
  }
}
