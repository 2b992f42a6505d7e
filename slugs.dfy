/**
 * The search that Product.ensure_unique_slug performs, as a pure function of
 * the set of slugs already stored and the base slug: keep the base if it is
 * free, otherwise take base-2, base-3, ... and stop at the first free one.
 */
module Slugs {
  import opened Decimal

  /** The candidate tried with counter k: f"{base}-{k}". */
  function Candidate(base: string, k: nat): (c: string)
    ensures |c| > |base| + 1 && c[..|base|] == base && c != base
  {
    base + "-" + Dec(k)
  }

  /** Different counters give different candidates. */
  lemma CandidateInjective(base: string, j: nat, k: nat)
    ensures Candidate(base, j) == Candidate(base, k) ==> j == k
  {
    if Candidate(base, j) == Candidate(base, k) {
      assert Dec(j) == Candidate(base, j)[|base| + 1..];
      assert Dec(k) == Candidate(base, k)[|base| + 1..];
      DecInjective(j, k);
    }
  }

  /** The search has reached counter k: the base and base-2 .. base-(k-1) are all taken. */
  ghost predicate TakenBefore(taken: set<string>, base: string, k: nat) {
    base in taken && forall j :: 2 <= j < k ==> Candidate(base, j) in taken
  }

  /** The slugs the search has tried before reaching counter k, in order. */
  function Tried(base: string, k: nat): (s: seq<string>)
    requires k >= 2
    ensures |s| == k - 1
  {
    seq(k - 1, i => if i <= 0 then base else Candidate(base, i + 1))
  }

  /** A sequence of distinct members of a finite set is no longer than the set. */
  lemma {:induction false} DistinctMembersBound<T>(s: seq<T>, t: set<T>)
    requires forall i, j :: 0 <= i < j < |s| ==> s[i] != s[j]
    requires forall i :: 0 <= i < |s| ==> s[i] in t
    ensures |s| <= |t|
  {
    if s != [] {
      var last, init := s[|s| - 1], s[..|s| - 1];
      forall i | 0 <= i < |init|
        ensures init[i] in t - {last}
      {
        assert init[i] == s[i] != last;
      }
      DistinctMembersBound(init, t - {last});
    }
  }

  /** Once counter k is reached, at least k - 1 distinct slugs are taken. */
  lemma TakenBeforeBound(taken: set<string>, base: string, k: nat)
    requires k >= 2 && TakenBefore(taken, base, k)
    ensures k - 1 <= |taken|
  {
    var s := Tried(base, k);
    forall i, j | 0 <= i < j < |s|
      ensures s[i] != s[j]
    {
      CandidateInjective(base, i + 1, j + 1);
    }
    DistinctMembersBound(s, taken);
  }

  /**
   * The counter at which the search starting from k stops: its candidate is
   * free, and it is at most |taken| + 1.
   */
  function FirstFreeSuffix(taken: set<string>, base: string, k: nat): (r: nat)
    requires k >= 2 && TakenBefore(taken, base, k)
    ensures k <= r <= |taken| + 1
    ensures Candidate(base, r) !in taken
    decreases |taken| + 2 - k
  {
    TakenBeforeBound(taken, base, k);
    if Candidate(base, k) !in taken then k
    else
      TakenBeforeBound(taken, base, k + 1);
      FirstFreeSuffix(taken, base, k + 1)
  }

  /** The search passes over taken candidates only: every counter before the one it stops at is taken. */
  lemma {:induction false} FirstFreeSuffixIsLeast(taken: set<string>, base: string, k: nat)
    requires k >= 2 && TakenBefore(taken, base, k)
    ensures TakenBefore(taken, base, FirstFreeSuffix(taken, base, k))
    decreases |taken| + 2 - k
  {
    TakenBeforeBound(taken, base, k);
    if Candidate(base, k) in taken {
      TakenBeforeBound(taken, base, k + 1);
      FirstFreeSuffixIsLeast(taken, base, k + 1);
    }
  }

  /**
   * The slug ensure_unique_slug settles on: never taken, and the base itself
   * exactly when the base is free.
   */
  function ResolveSlug(taken: set<string>, base: string): (r: string)
    ensures r !in taken
    ensures r == base <==> base !in taken
  {
    if base !in taken then base else Candidate(base, FirstFreeSuffix(taken, base, 2))
  }

  /**
   * When the base is taken, the slug is base-k for the least k >= 2 whose
   * candidate is free, and k is at most one more than the number of slugs
   * taken.
   */
  lemma ResolveSlugLeastSuffix(taken: set<string>, base: string)
    requires base in taken
    ensures exists k :: 2 <= k <= |taken| + 1 && ResolveSlug(taken, base) == Candidate(base, k)
                        && TakenBefore(taken, base, k)
  {
    var k := FirstFreeSuffix(taken, base, 2);
    FirstFreeSuffixIsLeast(taken, base, 2);
    assert ResolveSlug(taken, base) == Candidate(base, k);
  }

  /**
   * The least free suffix is unique: a counter k whose candidate is free and
   * whose predecessors are all taken is the one ResolveSlug picks.
   */
  lemma ResolutionUnique(taken: set<string>, base: string, k: nat)
    requires k >= 2 && TakenBefore(taken, base, k) && Candidate(base, k) !in taken
    ensures ResolveSlug(taken, base) == Candidate(base, k)
  {
    FirstFreeSuffixIsLeast(taken, base, 2);
  }

  /** A base that is taken, for instance by the record's own row, is never kept. */
  lemma TakenBaseGetsSuffix(taken: set<string>, base: string)
    requires base in taken
    ensures ResolveSlug(taken, base) != base
    ensures exists k :: k >= 2 && ResolveSlug(taken, base) == Candidate(base, k)
  {
    ResolveSlugLeastSuffix(taken, base);
  }

  /** With "coffee" and "coffee-2" taken, the slug is "coffee-3". */
  lemma CoffeeExample()
    ensures ResolveSlug({"coffee", "coffee-2"}, "coffee") == "coffee-3"
  {
    assert Dec(2) == "2" && Dec(3) == "3";
    assert Candidate("coffee", 2) == "coffee-2";
    assert Candidate("coffee", 3) == "coffee-3";
    assert TakenBefore({"coffee", "coffee-2"}, "coffee", 3);
    ResolutionUnique({"coffee", "coffee-2"}, "coffee", 3);
  }
}
