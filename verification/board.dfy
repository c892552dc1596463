/**
 Sequence helpers for the sliding puzzle: the identity board, the swap that
 both the shuffle and a move perform, the `indexOf` lookup, and the invariant
 that a board is a permutation of 0..n-1.
 */
module Board {

  /** The board `[0, 1, ..., n-1]`. */
  function Identity(n: nat): (r: seq<int>)
    ensures |r| == n
    ensures forall i :: 0 <= i < n ==> r[i] == i
  {
    seq(n, i => i)
  }

  /** Exchanges the cells at `i` and `j`, as the destructuring assignment
      `[t[i], t[j]] = [t[j], t[i]]` does (a no-op when `i == j`). */
  function Swap(s: seq<int>, i: nat, j: nat): (r: seq<int>)
    requires i < |s| && j < |s|
    ensures |r| == |s|
    ensures r[i] == s[j] && r[j] == s[i]
    ensures forall k :: 0 <= k < |s| && k != i && k != j ==> r[k] == s[k]
    ensures multiset(r) == multiset(s)
  {
    s[i := s[j]][j := s[i]]
  }

  /** JavaScript's `Array.prototype.indexOf`: the first position holding `v`,
      or -1 when there is none. */
  function IndexOf(s: seq<int>, v: int): (r: int)
    ensures -1 <= r < |s|
    ensures r == -1 <==> v !in s
    ensures r >= 0 ==> s[r] == v && forall k :: 0 <= k < r ==> s[k] != v
  {
    if |s| == 0 then -1
    else if s[0] == v then 0
    else
      var r := IndexOf(s[1..], v);
      assert s == [s[0]] + s[1..];
      if r == -1 then -1 else r + 1
  }

  /** Every value 0..n-1 occurs in the identity board exactly once, and no
      other value occurs. */
  lemma {:induction false} IdentityCount(n: nat, v: int)
    ensures multiset(Identity(n))[v] == if 0 <= v < n then 1 else 0
  {
    if n > 0 {
      IdentityCount(n - 1, v);
      assert Identity(n) == Identity(n - 1) + [n - 1];
    }
  }

  /** The board is a rearrangement of `[0, ..., n-1]`. */
  predicate IsPermutationOfRange(s: seq<int>, n: nat) {
    |s| == n && multiset(s) == multiset(Identity(n))
  }

  /** Two equal cells at distinct positions make a value occur twice. */
  lemma {:induction false} TwoEqualCells(s: seq<int>, a: nat, b: nat)
    requires a < b < |s| && s[a] == s[b]
    ensures multiset(s)[s[a]] >= 2
  {
    assert s == s[..a] + [s[a]] + s[a+1..b] + [s[b]] + s[b+1..];
    assert multiset(s) == multiset(s[..a]) + multiset{s[a]} + multiset(s[a+1..b])
      + multiset{s[b]} + multiset(s[b+1..]);
  }

  /** A board that is a permutation of 0..n-1 holds every cell in range, no
      value twice, and exactly one empty cell (0) when it is not empty. */
  lemma PermutationFacts(s: seq<int>, n: nat)
    requires IsPermutationOfRange(s, n)
    ensures forall k :: 0 <= k < n ==> 0 <= s[k] < n
    ensures forall a, b :: 0 <= a < b < n ==> s[a] != s[b]
    ensures n > 0 ==> multiset(s)[0] == 1 && 0 in s
  {
    forall k | 0 <= k < n
      ensures 0 <= s[k] < n
    {
      assert s[k] in multiset(s);
      IdentityCount(n, s[k]);
    }
    forall a, b | 0 <= a < b < n
      ensures s[a] != s[b]
    {
      if s[a] == s[b] {
        TwoEqualCells(s, a, b);
        IdentityCount(n, s[a]);
      }
    }
    IdentityCount(n, 0);
  }
}
