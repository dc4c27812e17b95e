/** Counting facts about short sequences of digits 1..n (pigeonhole arguments).
    They justify why the generator's random choices always have a candidate and why a
    row of nine distinct digits holds every digit. */
module Digits {

  /** Every element of `s` is a digit 1..n. */
  predicate InRange(s: seq<int>, n: int) {
    forall k :: 0 <= k < |s| ==> 1 <= s[k] <= n
  }

  /** No value occurs twice in `s`. */
  predicate Distinct(s: seq<int>) {
    forall k, l :: 0 <= k < l < |s| ==> s[k] != s[l]
  }

  /** `s` with the element at position `k` taken out. */
  function Delete(s: seq<int>, k: int): (t: seq<int>)
    requires 0 <= k < |s|
    ensures |t| == |s| - 1
    ensures forall x :: 0 <= x < k ==> t[x] == s[x]
    ensures forall x :: k <= x < |t| ==> t[x] == s[x + 1]
  {
    s[..k] + s[k + 1..]
  }

  /** Fewer than n values cannot cover all of 1..n: some digit is missing. */
  lemma {:induction false} MissingDigit(s: seq<int>, n: nat)
    requires |s| < n
    ensures exists d :: 1 <= d <= n && d !in s
  {
    if n !in s {
      assert 1 <= n <= n && n !in s;
    } else {
      var k :| 0 <= k < |s| && s[k] == n;
      var t := Delete(s, k);
      MissingDigit(t, n - 1);
      var d :| 1 <= d <= n - 1 && d !in t;
      forall x | 0 <= x < |s|
        ensures s[x] != d
      {
        if x < k {
          assert t[x] == s[x];
        } else if x > k {
          assert t[x - 1] == s[x];
        }
      }
      assert 1 <= d <= n && d !in s;
    }
  }

  /** Distinct digits 1..n number at most n. */
  lemma {:induction false} DistinctFits(s: seq<int>, n: nat)
    requires InRange(s, n) && Distinct(s)
    ensures |s| <= n
  {
    if s == [] {
    } else if n in s {
      var k :| 0 <= k < |s| && s[k] == n;
      var t := Delete(s, k);
      forall x | 0 <= x < |t|
        ensures 1 <= t[x] <= n - 1
      {
        if x < k {
          assert t[x] == s[x] && s[x] != s[k];
        } else {
          assert t[x] == s[x + 1] && s[x + 1] != s[k];
        }
      }
      DistinctFits(t, n - 1);
    } else {
      assert 1 <= s[0] <= n;
      forall x | 0 <= x < |s|
        ensures 1 <= s[x] <= n - 1
      {
        assert s[x] in s;
      }
      DistinctFits(s, n - 1);
    }
  }

  /** n distinct digits 1..n are all of 1..n: each digit occurs, and occurs once. */
  lemma {:induction false} AllDigitsPresent(s: seq<int>, n: nat)
    requires |s| == n && InRange(s, n) && Distinct(s)
    ensures forall d :: 1 <= d <= n ==> d in s
  {
    if n > 0 {
      if n !in s {
        forall x | 0 <= x < |s|
          ensures 1 <= s[x] <= n - 1
        {
          assert s[x] in s;
        }
        DistinctFits(s, n - 1);
        assert false;
      }
      var k :| 0 <= k < |s| && s[k] == n;
      var t := Delete(s, k);
      forall x | 0 <= x < |t|
        ensures 1 <= t[x] <= n - 1
      {
        if x < k {
          assert t[x] == s[x] && s[x] != s[k];
        } else {
          assert t[x] == s[x + 1] && s[x + 1] != s[k];
        }
      }
      AllDigitsPresent(t, n - 1);
      forall d | 1 <= d <= n - 1
        ensures d in s
      {
        assert d in t;
        var x :| 0 <= x < |t| && t[x] == d;
        if x < k {
          assert s[x] == d;
        } else {
          assert s[x + 1] == d;
        }
      }
    }
  }
}
