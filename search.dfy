/**
 The binary search behind Go's `sort.Search(n, f)`, which the relative-time
 formatter uses to pick a bucket from its threshold table.

 `sort.Search` keeps a half-open window [i, j) and halves it until it is
 empty: when `f(h)` is false the answer lies right of the midpoint `h`,
 otherwise at `h` or to its left. For a predicate that is false and then
 true (monotone) on [0, n), the result is the least index where it holds,
 or `n` when it holds nowhere.
 */
module SortSearch {

  /** `f` never turns back from true to false on [0, n). */
  ghost predicate Monotone(f: nat -> bool, n: nat) {
    forall i: nat, j: nat :: i <= j < n && f(i) ==> f(j)
  }

  /** `r` is the least index in [0, n] at which `f` holds, `n` standing for "nowhere". */
  ghost predicate IsFirstTrue(f: nat -> bool, n: nat, r: nat) {
    && r <= n
    && (forall k: nat :: k < r ==> !f(k))
    && (r < n ==> f(r))
  }

  /** One run of the search loop on the window [i, j). */
  function SearchIn(f: nat -> bool, i: nat, j: nat): (r: nat)
    requires i <= j
    ensures i <= r <= j
    decreases j - i
  {
    if i < j then
      // int(uint(i+j) >> 1): the midpoint, rounded down, without overflow
      var h := (i + j) / 2;
      if !f(h) then SearchIn(f, h + 1, j) else SearchIn(f, i, h)
    else
      i
  }

  /** `sort.Search(n, f)`. */
  function Search(n: nat, f: nat -> bool): (r: nat)
    ensures r <= n
  {
    SearchIn(f, 0, n)
  }

  /** The search keeps "false left of i" and "true at j" and so ends on the boundary. */
  lemma {:induction false} SearchInFindsBoundary(f: nat -> bool, n: nat, i: nat, j: nat)
    requires i <= j <= n
    requires Monotone(f, n)
    requires forall k: nat :: k < i ==> !f(k)
    requires j < n ==> f(j)
    ensures IsFirstTrue(f, n, SearchIn(f, i, j))
    decreases j - i
  {
    if i < j {
      var h := (i + j) / 2;
      if !f(h) {
        // monotonicity: f(k) for some k <= h would force f(h)
        assert forall k: nat :: k < h + 1 ==> !f(k);
        SearchInFindsBoundary(f, n, h + 1, j);
      } else {
        SearchInFindsBoundary(f, n, i, h);
      }
    }
  }

  /** For a monotone predicate, `sort.Search` returns the least index where it holds. */
  lemma SearchFindsFirstTrue(n: nat, f: nat -> bool)
    requires Monotone(f, n)
    ensures IsFirstTrue(f, n, Search(n, f))
  {
    SearchInFindsBoundary(f, n, 0, n);
  }

  /**
   Whatever `f` is, the search only runs off the end of a non-empty window
   after testing its last index and finding `f` false there.
   */
  lemma {:induction false} SearchInEndsPastLastOnlyIfFalse(f: nat -> bool, i: nat, j: nat)
    requires i < j
    requires SearchIn(f, i, j) == j
    ensures !f(j - 1)
    decreases j - i
  {
    var h := (i + j) / 2;
    if h + 1 < j && !f(h) {
      SearchInEndsPastLastOnlyIfFalse(f, h + 1, j);
    }
  }

  /** `sort.Search(n, f) == n` with `n > 0` means `f(n - 1)` is false, for any `f`. */
  lemma SearchPastEndOnlyIfLastFalse(n: nat, f: nat -> bool)
    requires 0 < n
    requires Search(n, f) == n
    ensures !f(n - 1)
  {
    SearchInEndsPastLastOnlyIfFalse(f, 0, n);
  }
}
