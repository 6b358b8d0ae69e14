/**
  `prevent_directory_override`: the search for a directory name that does
  not exist yet, and the directory's creation. The filesystem is the set of
  paths that exist; creating a directory (with its parents) adds paths to it.
*/
module Paths {
  import opened Wrappers
  import opened Text
  import PurePaths

  /** A path: the names of the directories above it, then its final component. */
  datatype Path = Path(parent: seq<string>, name: string)

  /** `with_stem` raises ValueError on a path whose name is empty (such as "." or "/"). */
  datatype PathError = EmptyName(path: Path)

  /**
    One renaming step, `p.with_stem(f'{p.name} {n}')`: the new stem is the
    whole old name (suffix included), a space and the decimal digits of `n`,
    and the old suffix is put back after it.
  */
  function Renamed(p: Path, n: nat): (r: Path)
    ensures r.parent == p.parent
    ensures |r.name| >= |p.name| + 2
  {
    Path(p.parent, p.name + " " + NatToString(n) + PurePaths.Suffix(p.name))
  }

  /** The path the loop holds after `k` renamings (the counter runs 0, 1, ...). */
  function Candidate(p: Path, k: nat): (r: Path)
    ensures r.parent == p.parent
    ensures |r.name| >= |p.name| + 2 * k
  {
    if k == 0 then p else Renamed(Candidate(p, k - 1), k - 1)
  }

  /** The candidates from `p` on, as a function of the number of renamings. */
  function Tries(p: Path): (r: nat -> Path)
  {
    (k: nat) => Candidate(p, k)
  }

  // ---------------------------------------------------------------------
  // The search, for any sequence of ever longer names
  // ---------------------------------------------------------------------

  /** Later entries of the sequence have strictly longer names. */
  ghost predicate Lengthening(tries: nat -> Path)
  {
    forall j: nat, k: nat :: j < k ==> |tries(j).name| < |tries(k).name|
  }

  /** The existing paths whose name is at least `len` characters long. */
  function LongNames(existing: set<Path>, len: nat): (r: set<Path>)
  {
    set q | q in existing && |q.name| >= len
  }

  /**
    The number of renamings the loop performs from entry `k` on: the index
    of the first entry from `k` on that does not exist.
  */
  function FirstFree(existing: set<Path>, tries: nat -> Path, k: nat): (r: nat)
    requires Lengthening(tries)
    decreases |LongNames(existing, |tries(k).name|)|
  {
    if tries(k) !in existing then k
    else
      LongNamesShrink(existing, tries, k);
      FirstFree(existing, tries, k + 1)
  }

  /** Once entry `k` exists and is passed over, fewer existing names are long enough to be met again. */
  lemma LongNamesShrink(existing: set<Path>, tries: nat -> Path, k: nat)
    requires Lengthening(tries) && tries(k) in existing
    ensures |LongNames(existing, |tries(k + 1).name|)| < |LongNames(existing, |tries(k).name|)|
  {
    var small := LongNames(existing, |tries(k + 1).name|);
    var big := LongNames(existing, |tries(k).name|);
    assert |tries(k).name| < |tries(k + 1).name|;
    assert small <= big - {tries(k)};
    SubsetSize(small, big - {tries(k)});
  }

  lemma {:induction false} SubsetSize<T>(a: set<T>, b: set<T>)
    requires a <= b
    ensures |a| <= |b|
    decreases |b|
  {
    if b != {} {
      var x :| x in b;
      SubsetSize(a - {x}, b - {x});
    }
  }

  /** The search stops at an entry that does not exist, having passed over existing ones only. */
  lemma {:induction false} FirstFreeIsFree(existing: set<Path>, tries: nat -> Path, k: nat)
    requires Lengthening(tries)
    ensures FirstFree(existing, tries, k) >= k && tries(FirstFree(existing, tries, k)) !in existing
    ensures forall j :: k <= j < FirstFree(existing, tries, k) ==> tries(j) in existing
    decreases |LongNames(existing, |tries(k).name|)|
  {
    if tries(k) in existing {
      LongNamesShrink(existing, tries, k);
      FirstFreeIsFree(existing, tries, k + 1);
    }
  }

  /** The first index from `k` on whose entry does not exist is the one the search finds. */
  lemma {:induction false} FirstFreeAt(existing: set<Path>, tries: nat -> Path, k: nat, n: nat)
    requires Lengthening(tries)
    requires k <= n && tries(n) !in existing
    requires forall j :: k <= j < n ==> tries(j) in existing
    ensures FirstFree(existing, tries, k) == n
    decreases n - k
  {
    if k < n {
      LongNamesShrink(existing, tries, k);
      FirstFreeAt(existing, tries, k + 1, n);
    }
  }

  /** The search passes over at most as many entries as there are existing paths. */
  lemma FirstFreeBounded(existing: set<Path>, tries: nat -> Path)
    requires Lengthening(tries)
    ensures FirstFree(existing, tries, 0) <= |existing|
  {
    var n := FirstFree(existing, tries, 0);
    FirstFreeIsFree(existing, tries, 0);
    ImageSize(tries, n);
    assert Image(tries, n) <= existing;
    SubsetSize(Image(tries, n), existing);
  }

  /** The values `f` takes on the first `n` arguments. */
  function Image<T>(f: nat -> T, n: nat): (r: set<T>)
  {
    set j | 0 <= j < n :: f(j)
  }

  /** An injective function takes `n` arguments to `n` different values. */
  lemma {:induction false} ImageSize<T>(f: nat -> T, n: nat)
    requires forall i, j :: 0 <= i < j < n ==> f(i) != f(j)
    ensures |Image(f, n)| == n
  {
    if n > 0 {
      ImageSize(f, n - 1);
      assert Image(f, n) == Image(f, n - 1) + {f(n - 1)};
      assert f(n - 1) !in Image(f, n - 1);
    }
  }

  // ---------------------------------------------------------------------
  // The outcome of the operation
  // ---------------------------------------------------------------------

  /**
    The outcome of `prevent_directory_override(p)` on a filesystem where the
    paths `existing` exist: the first candidate that does not exist, or the
    ValueError of renaming an existing path with an empty name.
  */
  function FreeName(existing: set<Path>, p: Path): (r: Result<Path, PathError>)
  {
    if p in existing && p.name == [] then Failure(EmptyName(p))
    else
      CandidatesLengthen(p);
      Success(Candidate(p, FirstFree(existing, Tries(p), 0)))
  }

  /** The directories `mkdir(parents=True)` creates above `p`, at every depth. */
  function Ancestors(p: Path): (a: set<Path>)
    ensures forall i :: 0 <= i < |p.parent| ==> Path(p.parent[..i], p.parent[i]) in a
    ensures forall q :: q in a <==> |q.parent| < |p.parent| && q.parent + [q.name] == p.parent[..|q.parent| + 1]
  {
    var a := set i | 0 <= i < |p.parent| :: Path(p.parent[..i], p.parent[i]);
    forall q ensures q in a <==> |q.parent| < |p.parent| && q.parent + [q.name] == p.parent[..|q.parent| + 1] {
      AncestorAt(p, q);
    }
    a
  }

  /** `q` is the directory at depth `|q.parent|` above `p` exactly when its parent and name spell out that prefix. */
  lemma AncestorAt(p: Path, q: Path)
    ensures (exists i :: 0 <= i < |p.parent| && q == Path(p.parent[..i], p.parent[i]))
            <==> |q.parent| < |p.parent| && q.parent + [q.name] == p.parent[..|q.parent| + 1]
  {
    var n := |q.parent|;
    if n < |p.parent| && q.parent + [q.name] == p.parent[..n + 1] {
      assert q.parent == (q.parent + [q.name])[..n] == p.parent[..n];
      assert q.name == (q.parent + [q.name])[n] == p.parent[n];
      assert q == Path(p.parent[..n], p.parent[n]);
    }
    if exists i :: 0 <= i < |p.parent| && q == Path(p.parent[..i], p.parent[i]) {
      var i :| 0 <= i < |p.parent| && q == Path(p.parent[..i], p.parent[i]);
      assert p.parent[..i] + [p.parent[i]] == p.parent[..i + 1];
    }
  }

  // ---------------------------------------------------------------------
  // Properties of the candidates
  // ---------------------------------------------------------------------

  /** Every renaming makes the name strictly longer, so later candidates have longer names. */
  lemma CandidateNamesGrow(p: Path, j: nat, k: nat)
    requires j < k
    ensures |Candidate(p, j).name| < |Candidate(p, k).name|
    decreases k
  {
    if j < k - 1 {
      CandidateNamesGrow(p, j, k - 1);
      GrowOneMore(p, j, k);
    } else {
      CandidateStep(p, k);
    }
  }

  /** Proof helper for CandidateNamesGrow: each candidate name is longer than the one before. */
  lemma CandidateStep(p: Path, k: nat)
    requires k > 0
    ensures |Candidate(p, k - 1).name| < |Candidate(p, k).name|
  {
  }

  /** Proof helper for CandidateNamesGrow: one more step keeps the names growing. */
  lemma GrowOneMore(p: Path, j: nat, k: nat)
    requires k > 0 && |Candidate(p, j).name| < |Candidate(p, k - 1).name|
    ensures |Candidate(p, j).name| < |Candidate(p, k).name|
  {
    CandidateStep(p, k);
  }

  /** No name is tried twice. */
  lemma CandidatesDistinct(p: Path, j: nat, k: nat)
    requires j != k
    ensures Candidate(p, j) != Candidate(p, k)
  {
    if j < k {
      CandidateNamesGrow(p, j, k);
    } else {
      CandidateNamesGrow(p, k, j);
    }
  }


  /**
    Appending a space, digits and the old suffix to a name that does not end
    in '.' keeps its suffix, and the new name does not end in '.' either.
  */
  lemma StemmedKeepsSuffix(name: string, digits: string)
    requires name != [] && name[|name| - 1] != '.'
    requires digits != [] && forall i :: 0 <= i < |digits| ==> IsDigit(digits[i])
    ensures var renamed := name + " " + digits + PurePaths.Suffix(name);
            PurePaths.Suffix(renamed) == PurePaths.Suffix(name) && renamed[|renamed| - 1] != '.'
  {
    var suffix := PurePaths.Suffix(name);
    var head := name + " " + digits;
    var renamed := head + suffix;
    PurePaths.SuffixShape(name);
    if suffix == [] {
      forall j | 0 < j < |renamed| ensures renamed[j] != '.' {
        if j >= |name| + 1 {
          assert renamed[j] == digits[j - |name| - 1];
        }
      }
      PurePaths.NoDotNoSuffix(renamed);
      assert renamed[|renamed| - 1] == digits[|digits| - 1];
    } else {
      var d := |head|;
      forall j | d <= j < |renamed| ensures renamed[j] == suffix[j - d] {
      }
      PurePaths.SuffixFromDot(renamed, d);
      assert renamed[d..] == suffix;
    }
  }

  /** One renaming keeps the suffix of a name that does not end in '.'. */
  lemma RenamedKeepsSuffix(p: Path, n: nat)
    requires p.name != [] && p.name[|p.name| - 1] != '.'
    ensures PurePaths.Suffix(Renamed(p, n).name) == PurePaths.Suffix(p.name)
    ensures Renamed(p, n).name[|Renamed(p, n).name| - 1] != '.'
  {
    NatToStringDigits(n);
    StemmedKeepsSuffix(p.name, NatToString(n));
  }

  /** Each entry of `tries` is the previous one renamed with the previous counter. */
  ghost predicate RenamingChain(tries: nat -> Path)
  {
    forall j: nat, k: nat :: k == j + 1 ==> tries(k) == Renamed(tries(j), j)
  }

  /** The candidates form such a chain. */
  lemma CandidatesChain(p: Path)
    ensures RenamingChain(Tries(p))
  {
  }

  /** Along a chain, every entry keeps the first one's suffix, when that name does not end in '.'. */
  lemma {:induction false} ChainKeepsSuffix(tries: nat -> Path, k: nat)
    requires RenamingChain(tries)
    requires tries(0).name != [] && tries(0).name[|tries(0).name| - 1] != '.'
    ensures tries(k).name != [] && tries(k).name[|tries(k).name| - 1] != '.'
    ensures PurePaths.Suffix(tries(k).name) == PurePaths.Suffix(tries(0).name)
  {
    if k > 0 {
      ChainKeepsSuffix(tries, k - 1);
      assert tries(k) == Renamed(tries(k - 1), k - 1);
      RenamedKeepsSuffix(tries(k - 1), k - 1);
    }
  }

  /** The candidates' names grow longer with every renaming. */
  lemma CandidatesLengthen(p: Path)
    ensures Lengthening(Tries(p))
  {
    forall j: nat, k: nat | j < k ensures |Tries(p)(j).name| < |Tries(p)(k).name| {
      CandidateNamesGrow(p, j, k);
    }
  }

  lemma TriesStep(p: Path, n: nat)
    ensures Tries(p)(n + 1) == Renamed(Tries(p)(n), n)
    ensures Tries(p)(n + 1).name != []
  {
  }


  /**
    A candidate that does not exist, reached by passing over existing
    candidates only, and not by renaming an empty name, is the outcome.
  */
  lemma FreeNameFound(existing: set<Path>, p: Path, n: nat)
    requires Tries(p)(n) !in existing
    requires forall j :: 0 <= j < n ==> Tries(p)(j) in existing
    requires n > 0 ==> p.name != []
    ensures FreeName(existing, p) == Success(Tries(p)(n))
  {
    CandidatesLengthen(p);
    FirstFreeAt(existing, Tries(p), 0, n);
  }


  /**
    The result does not exist yet, sits in the requested directory, and is
    the first candidate that does not exist, reached after at most as many
    renamings as there are existing paths: every earlier candidate exists.
  */
  lemma FreeNameIsFirstFree(existing: set<Path>, p: Path)
    requires FreeName(existing, p).Success?
    ensures var r := FreeName(existing, p).value;
            r !in existing && r.parent == p.parent
            && exists n: nat :: n <= |existing| && r == Candidate(p, n)
                                && forall j :: 0 <= j < n ==> Candidate(p, j) in existing
  {
    CandidatesLengthen(p);
    var n := FirstFree(existing, Tries(p), 0);
    FirstFreeIsFree(existing, Tries(p), 0);
    FirstFreeBounded(existing, Tries(p));
    assert FreeName(existing, p).value == Candidate(p, n);
    assert forall j :: 0 <= j < n ==> Tries(p)(j) == Candidate(p, j);
  }

  /** The path itself is returned when it does not exist. */
  lemma FreeNameOfNewPath(existing: set<Path>, p: Path)
    requires p !in existing
    ensures FreeName(existing, p) == Success(p)
  {
    CandidatesLengthen(p);
    assert Tries(p)(0) == p;
  }

  /** The only failure: an existing path with an empty name. */
  lemma FreeNameFailsOnlyOnEmptyName(existing: set<Path>, p: Path)
    ensures FreeName(existing, p).Failure? <==> p in existing && p.name == []
  {
  }

  /** The result keeps the suffix of a name that does not end in '.'. */
  lemma FreeNameKeepsSuffix(existing: set<Path>, p: Path)
    requires p.name != [] && p.name[|p.name| - 1] != '.'
    ensures FreeName(existing, p).Success?
    ensures PurePaths.Suffix(FreeName(existing, p).value.name) == PurePaths.Suffix(p.name)
  {
    CandidatesLengthen(p);
    CandidatesChain(p);
    ChainKeepsSuffix(Tries(p), FirstFree(existing, Tries(p), 0));
  }

  // ---------------------------------------------------------------------
  // The filesystem and the operation itself
  // ---------------------------------------------------------------------

  /** The paths that exist (files and directories alike, as `exists()` sees them). */
  class FileSystem {
    var existing: set<Path>

    constructor (paths: set<Path>)
      ensures existing == paths
    {
      existing := paths;
    }

    /**
      `prevent_directory_override(p)`: rename while the path exists, then
      create the directory and its missing parents.
    */
    method PreventDirectoryOverride(p: Path) returns (r: Result<Path, PathError>)
      modifies this
      ensures r == FreeName(old(existing), p)
      ensures r.Success? ==> existing == old(existing) + {r.value} + Ancestors(r.value)
      ensures r.Failure? ==> existing == old(existing)
    {
      CandidatesLengthen(p);
      ghost var tries := Tries(p);
      var current := p;
      var n := 0;
      while current in existing
        invariant existing == old(existing)
        invariant current == tries(n)
        invariant forall j :: 0 <= j < n ==> tries(j) in existing
        invariant n > 0 ==> p.name != [] && current.name != []
        decreases |LongNames(existing, |current.name|)|
      {
        if current.name == [] {
          return Failure(EmptyName(p));
        }
        LongNamesShrink(existing, tries, n);
        TriesStep(p, n);
        current := Renamed(current, n);
        n := n + 1;
      }
      FreeNameFound(existing, p, n);
      existing := existing + {current} + Ancestors(current);
      r := Success(current);
    }
  }

  // ---------------------------------------------------------------------
  // The docstring's calls, and the one after them
  // ---------------------------------------------------------------------

  /** Renaming "output" twice gives "output 0 1": the counters accumulate. */
  lemma OutputCandidates()
    ensures Candidate(Path([], "output"), 1) == Path([], "output 0")
    ensures Candidate(Path([], "output"), 2) == Path([], "output 0 1")
  {
    OutputRenamings("output", "output 0", "output 0 1");
  }

  lemma OutputRenamings(a: string, b: string, c: string)
    requires a == "output" && b == a + " 0" && c == b + " 1"
    ensures Renamed(Path([], a), 0) == Path([], b)
    ensures Renamed(Path([], b), 1) == Path([], c)
  {
    assert NatToString(0) == "0" && NatToString(1) == "1";
    PurePaths.NoDotNoSuffix(a);
    PurePaths.NoDotNoSuffix(b);
  }

  /**
    The docstring's two calls on a fresh directory give "output" and then
    "output 0"; a third call gives "output 0 1".
  */
  lemma OutputCalls(p: Path, q: Path, r: Path)
    requires p == Path([], "output") && q == Path([], "output 0") && r == Path([], "output 0 1")
    ensures FreeName({}, p) == Success(p)
    ensures FreeName({p}, p) == Success(q)
    ensures FreeName({p, q}, p) == Success(r)
  {
    FreeNameOfNewPath({}, p);
    OutputCandidates();
    assert Tries(p)(0) == p && Tries(p)(1) == q && Tries(p)(2) == r;
    FreeNameFound({p}, p, 1);
    FreeNameFound({p, q}, p, 2);
  }
}
