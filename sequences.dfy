/** Two sequence shapes the bot builds: a filtering list comprehension, and
    the alternating draft that sends the entries at even positions to one team
    and those at odd positions to the other. */
module Sequences {

  /** A filtering list comprehension: the entries of `s` that pass, in their order. */
  function Filter<T>(s: seq<T>, keep: T -> bool): (r: seq<T>)
    ensures |r| <= |s|
    ensures forall i :: 0 <= i < |r| ==> r[i] in s && keep(r[i])
  {
    if s == [] then [] else (if keep(s[0]) then [s[0]] else []) + Filter(s[1..], keep)
  }

  /** Filtering distributes over concatenation, so the order of what is kept is the order of `s`. */
  lemma {:induction false} FilterAppend<T>(a: seq<T>, b: seq<T>, keep: T -> bool)
    ensures Filter(a + b, keep) == Filter(a, keep) + Filter(b, keep)
  {
    if a != [] {
      assert (a + b)[1..] == a[1..] + b;
      FilterAppend(a[1..], b, keep);
    } else {
      assert a + b == b;
    }
  }

  /** Each value is kept as often as it occurs in `s` when it passes, and never otherwise. */
  lemma {:induction false} FilterCount<T>(s: seq<T>, keep: T -> bool, x: T)
    ensures multiset(Filter(s, keep))[x] == if keep(x) then multiset(s)[x] else 0
  {
    if s != [] {
      var head := if keep(s[0]) then [s[0]] else [];
      FilterCount(s[1..], keep, x);
      assert multiset(Filter(s, keep)) == multiset(head) + multiset(Filter(s[1..], keep));
      assert multiset(s) == multiset{s[0]} + multiset(s[1..]) by {
        assert s == [s[0]] + s[1..];
      }
    }
  }

  /** Nothing is dropped when everything passes. */
  lemma {:induction false} FilterAll<T>(s: seq<T>, keep: T -> bool)
    requires forall i :: 0 <= i < |s| ==> keep(s[i])
    ensures Filter(s, keep) == s
  {
    if s != [] {
      FilterAll(s[1..], keep);
    }
  }

  /** Nothing is kept when nothing passes. */
  lemma {:induction false} FilterNone<T>(s: seq<T>, keep: T -> bool)
    requires forall i :: 0 <= i < |s| ==> !keep(s[i])
    ensures Filter(s, keep) == []
  {
    if s != [] {
      FilterNone(s[1..], keep);
    }
  }

  /** The entries at even positions 0, 2, 4, ... */
  function Evens<T>(s: seq<T>): (r: seq<T>)
    ensures |r| == (|s| + 1) / 2
  {
    if s == [] then [] else Evens(s[..|s| - 1]) + (if (|s| - 1) % 2 == 0 then [s[|s| - 1]] else [])
  }

  /** The entries at odd positions 1, 3, 5, ... */
  function Odds<T>(s: seq<T>): (r: seq<T>)
    ensures |r| == |s| / 2
  {
    if s == [] then [] else Odds(s[..|s| - 1]) + (if (|s| - 1) % 2 == 1 then [s[|s| - 1]] else [])
  }

  /** Entry k of the even side is entry 2k of `s`, entry k of the odd side is entry 2k+1. */
  lemma {:induction false} EvensOddsAt<T>(s: seq<T>, k: nat)
    ensures k < |Evens(s)| ==> Evens(s)[k] == s[2 * k]
    ensures k < |Odds(s)| ==> Odds(s)[k] == s[2 * k + 1]
  {
    if s != [] {
      var init := s[..|s| - 1];
      EvensOddsAt(init, k);
    }
  }

  /** The two sides together hold exactly the entries of `s`. */
  lemma {:induction false} EvensOddsPermutation<T>(s: seq<T>)
    ensures multiset(Evens(s)) + multiset(Odds(s)) == multiset(s)
  {
    if s != [] {
      var init := s[..|s| - 1];
      EvensOddsPermutation(init);
      assert s == init + [s[|s| - 1]];
    }
  }

  lemma {:induction false} AppendAssociates<T>(a: seq<T>, b: seq<T>, c: seq<T>)
    ensures a + (b + c) == (a + b) + c
  {
  }
}
