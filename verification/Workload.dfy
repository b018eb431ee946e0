/** The request generator in sequential mode (pr1/gflib/workload.c: `workload_get_path`). */
module Workload {

  /** The paths that the first `k` calls return. */
  function Chosen(paths: seq<string>, k: nat): seq<string>
    requires 0 < |paths|
  {
    if k == 0 then [] else Chosen(paths, k - 1) + [paths[(k - 1) % |paths|]]
  }

  lemma MultipleIsBig(d: int, n: nat)
    requires 0 < n
    ensures d >= 1 ==> d * n >= n
    ensures d <= -1 ==> d * n <= 0 - n
  {
    if d >= 1 {
      assert d * n == n + (d - 1) * n;
    } else if d <= -1 {
      assert d * n == (d + 1) * n - n;
    }
  }

  lemma DivModUnique(q: int, d: int, n: nat)
    requires 0 <= d < n
    ensures (q * n + d) % n == d
    ensures (q * n + d) / n == q
  {
    var x := q * n + d;
    assert x == (x / n) * n + x % n;
    assert (x / n - q) * n == (x / n) * n - q * n;
    MultipleIsBig(x / n - q, n);
  }

  lemma NextQuotient(k: nat, n: nat)
    requires 0 < n
    ensures (k + 1) / n == (if k % n + 1 == n then k / n + 1 else k / n)
    ensures (k + 1) % n == (if k % n + 1 == n then 0 else k % n + 1)
  {
    var q, d := k / n, k % n;
    assert k == q * n + d;
    if d + 1 == n {
      assert k + 1 == (q + 1) * n + 0;
      DivModUnique(q + 1, 0, n);
    } else {
      assert k + 1 == q * n + (d + 1);
      DivModUnique(q, d + 1, n);
    }
  }

  /** `k / n` times for each entry that holds the path, and once more for those among the first
      `k % n` entries. */
  function FairShare(paths: seq<string>, k: nat, p: string): int
    requires 0 < |paths|
  {
    k / |paths| * multiset(paths)[p] + multiset(paths[..k % |paths|])[p]
  }

  lemma OneMoreRound(paths: seq<string>, k: nat, p: string)
    requires 0 < |paths|
    ensures FairShare(paths, k + 1, p) == FairShare(paths, k, p) + if paths[k % |paths|] == p then 1 else 0
  {
    var n, q, d := |paths|, k / |paths|, k % |paths|;
    NextQuotient(k, n);
    assert paths[..d + 1] == paths[..d] + [paths[d]];
    if d + 1 == n {
      assert paths[..n] == paths && paths[..0] == [];
      assert (q + 1) * multiset(paths)[p] == q * multiset(paths)[p] + multiset(paths)[p];
    }
  }

  lemma NothingYet(paths: seq<string>, p: string)
    requires 0 < |paths|
    ensures FairShare(paths, 0, p) == 0
  {
    DivModUnique(0, 0, |paths|);
    assert paths[..0] == [];
  }

  lemma OneMore(before: seq<string>, path: string, p: string)
    ensures multiset(before + [path])[p] == multiset(before)[p] + if path == p then 1 else 0
  {
  }

  /** The choice goes through the entries again and again. */
  lemma {:induction false} RoundRobin(paths: seq<string>, k: nat, p: string)
    requires 0 < |paths|
    ensures multiset(Chosen(paths, k))[p] == FairShare(paths, k, p)
  {
    hide FairShare;
    if k == 0 {
      NothingYet(paths, p);
    } else {
      RoundRobin(paths, k - 1, p);
      OneMoreRound(paths, k - 1, p);
      var before, path := Chosen(paths, k - 1), paths[(k - 1) % |paths|];
      assert Chosen(paths, k) == before + [path];
      OneMore(before, path, p);
    }
  }

  predicate Distinct(paths: seq<string>) {
    forall i, j :: 0 <= i < j < |paths| ==> paths[i] != paths[j]
  }

  lemma OccursOnce(paths: seq<string>, m: nat, j: nat)
    requires m <= |paths| && j < |paths| && Distinct(paths)
    ensures multiset(paths[..m])[paths[j]] == if j < m then 1 else 0
  {
    if j < m {
      assert paths[..m] == paths[..j] + [paths[j]] + paths[j + 1..m];
    }
  }

  lemma Once(q: int, m: int)
    requires m == 1
    ensures q * m == q
  {
  }

  /** If all entries differ, each is returned floor(k / n) or ceil(k / n) times. */
  lemma EachEntryInTurn(paths: seq<string>, k: nat, j: nat)
    requires j < |paths| && Distinct(paths)
    ensures multiset(Chosen(paths, k))[paths[j]] == k / |paths| + if j < k % |paths| then 1 else 0
  {
    RoundRobin(paths, k, paths[j]);
    OccursOnce(paths, |paths|, j);
    OccursOnce(paths, k % |paths|, j);
    assert paths[..|paths|] == paths;
    Once(k / |paths|, multiset(paths)[paths[j]]);
  }

  /** The paths read by `workload_init` and the counter of `workload_get_path`. */
  class Generator {
    const paths: seq<string>
    var counter: nat

    constructor (paths: seq<string>)
      ensures this.paths == paths && counter == 0
    {
      this.paths, counter := paths, 0;
    }

    method GetPath() returns (path: string)
      requires 0 < |paths|
      modifies this
      ensures path == paths[old(counter) % |paths|] && counter == old(counter) + 1
    {
      var entry := counter;
      counter := counter + 1;
      path := paths[entry % |paths|];
    }
  }

  /** `k` calls of `workload_get_path`. */
  method Draw(generator: Generator, k: nat) returns (drawn: seq<string>)
    requires 0 < |generator.paths| && generator.counter == 0
    modifies generator
    ensures drawn == Chosen(generator.paths, k) && generator.counter == k
    ensures forall p :: multiset(drawn)[p] == FairShare(generator.paths, k, p)
    ensures Distinct(generator.paths) ==> forall j :: 0 <= j < |generator.paths| ==>
              multiset(drawn)[generator.paths[j]] == k / |generator.paths| + if j < k % |generator.paths| then 1 else 0
  {
    hide FairShare, Distinct;
    drawn := [];
    for i := 0 to k
      invariant generator.counter == i && drawn == Chosen(generator.paths, i)
    {
      var path := generator.GetPath();
      drawn := drawn + [path];
    }
    forall p
      ensures multiset(drawn)[p] == FairShare(generator.paths, k, p)
    {
      RoundRobin(generator.paths, k, p);
    }
    if Distinct(generator.paths) {
      forall j | 0 <= j < |generator.paths|
        ensures multiset(drawn)[generator.paths[j]]
                == k / |generator.paths| + if j < k % |generator.paths| then 1 else 0
      {
        EachEntryInTurn(generator.paths, k, j);
      }
    }
  }
}
