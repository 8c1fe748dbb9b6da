/** Python's stable `sorted` on the rating key, highest rating first.
    That sort is stable, and a stable sort has exactly one possible result,
    so it is modelled by an insertion sort that places each entry after every
    earlier entry whose rating is at least its own. */
module Ranking {
  import opened Sequences
  import opened Roster

  predicate SortedByRatingDesc(s: seq<Player>) {
    forall i, j :: 0 <= i < j < |s| ==> s[i].rating >= s[j].rating
  }

  /** No entry is rated above `b`. */
  predicate RatedAtMost(s: seq<Player>, b: int) {
    forall i :: 0 <= i < |s| ==> s[i].rating <= b
  }

  /** Inserts `p` before the first entry rated strictly lower than it. */
  function InsertByRating(sorted: seq<Player>, p: Player): (r: seq<Player>)
    ensures multiset(r) == multiset(sorted) + multiset{p}
    ensures |r| == |sorted| + 1
  {
    if sorted == [] then [p]
    else if sorted[0].rating < p.rating then [p] + sorted
    else
      var rest := InsertByRating(sorted[1..], p);
      assert sorted == [sorted[0]] + sorted[1..];
      [sorted[0]] + rest
  }

  lemma {:induction false} InsertKeepsBound(sorted: seq<Player>, p: Player, b: int)
    requires RatedAtMost(sorted, b) && p.rating <= b
    ensures RatedAtMost(InsertByRating(sorted, p), b)
  {
    if sorted != [] && sorted[0].rating >= p.rating {
      var rest := InsertByRating(sorted[1..], p);
      InsertKeepsBound(sorted[1..], p, b);
      var r := [sorted[0]] + rest;
      assert r == InsertByRating(sorted, p);
      forall i | 0 <= i < |r| ensures r[i].rating <= b {
        if i > 0 {
          assert r[i] == rest[i - 1];
        }
      }
    }
  }

  /** An entry rated at least as high as every later one extends a sorted list. */
  lemma {:induction false} ConsKeepsSorted(x: Player, rest: seq<Player>)
    requires SortedByRatingDesc(rest) && RatedAtMost(rest, x.rating)
    ensures SortedByRatingDesc([x] + rest)
  {
    var r := [x] + rest;
    forall i, j | 0 <= i < j < |r| ensures r[i].rating >= r[j].rating {
      assert r[j] == rest[j - 1];
      if i > 0 {
        assert r[i] == rest[i - 1];
      }
    }
  }

  lemma {:induction false} InsertKeepsSorted(sorted: seq<Player>, p: Player)
    requires SortedByRatingDesc(sorted)
    ensures SortedByRatingDesc(InsertByRating(sorted, p))
  {
    if sorted == [] {
      assert InsertByRating(sorted, p) == [p];
    } else if sorted[0].rating < p.rating {
      assert RatedAtMost(sorted, p.rating) by {
        forall i | 0 <= i < |sorted| ensures sorted[i].rating <= p.rating {
          assert i == 0 || sorted[0].rating >= sorted[i].rating;
        }
      }
      ConsKeepsSorted(p, sorted);
    } else {
      var x, tail := sorted[0], sorted[1..];
      assert SortedByRatingDesc(tail) && RatedAtMost(tail, x.rating) by {
        forall i | 0 <= i < |tail| ensures tail[i] == sorted[i + 1] { }
      }
      InsertKeepsSorted(tail, p);
      InsertKeepsBound(tail, p, x.rating);
      ConsKeepsSorted(x, InsertByRating(tail, p));
    }
  }

  function SortByRatingDesc(s: seq<Player>): (r: seq<Player>)
    ensures multiset(r) == multiset(s)
    ensures |r| == |s|
    ensures SortedByRatingDesc(r)
  {
    if s == [] then [] else
      var init := s[..|s| - 1];
      assert s == init + [s[|s| - 1]];
      InsertKeepsSorted(SortByRatingDesc(init), s[|s| - 1]);
      InsertByRating(SortByRatingDesc(init), s[|s| - 1])
  }

  /** Keeps the entries with rating `k`. */
  function WithRating(k: int): Player -> bool {
    (p: Player) => p.rating == k
  }

  lemma {:induction false} InsertKeepsOrderOfEqualRatings(sorted: seq<Player>, p: Player, k: int)
    requires SortedByRatingDesc(sorted)
    ensures Filter(InsertByRating(sorted, p), WithRating(k))
         == Filter(sorted, WithRating(k)) + (if p.rating == k then [p] else [])
  {
    var keep := WithRating(k);
    if sorted == [] {
      assert Filter([p], keep) == (if keep(p) then [p] else []) + Filter([], keep);
    } else if sorted[0].rating < p.rating {
      var r := [p] + sorted;
      assert r[0] == p && r[1..] == sorted;
      assert InsertByRating(sorted, p) == r;
      assert Filter(r, keep) == (if keep(p) then [p] else []) + Filter(sorted, keep);
      if p.rating == k {
        forall i | 0 <= i < |sorted| ensures !keep(sorted[i]) {
          assert i == 0 || sorted[0].rating >= sorted[i].rating;
        }
        FilterNone(sorted, keep);
      }
    } else {
      var tail := sorted[1..];
      var rest := InsertByRating(tail, p);
      assert SortedByRatingDesc(tail) by {
        forall i, j | 0 <= i < j < |tail| ensures tail[i].rating >= tail[j].rating {
          assert tail[i] == sorted[i + 1] && tail[j] == sorted[j + 1];
        }
      }
      InsertKeepsOrderOfEqualRatings(tail, p, k);
      var r := [sorted[0]] + rest;
      assert r[0] == sorted[0] && r[1..] == rest;
      assert Filter(r, keep) == (if keep(sorted[0]) then [sorted[0]] else []) + Filter(rest, keep);
      assert Filter(sorted, keep) == (if keep(sorted[0]) then [sorted[0]] else []) + Filter(tail, keep);
      assert InsertByRating(sorted, p) == r;
      AppendAssociates(if keep(sorted[0]) then [sorted[0]] else [], Filter(tail, keep), if p.rating == k then [p] else []);
    }
  }

  /** Stability: for every rating, the entries with that rating keep their relative order. */
  lemma {:induction false} SortIsStable(s: seq<Player>, k: int)
    ensures Filter(SortByRatingDesc(s), WithRating(k)) == Filter(s, WithRating(k))
  {
    if s != [] {
      var init := s[..|s| - 1];
      var last := s[|s| - 1];
      var keep := WithRating(k);
      var tail := if last.rating == k then [last] else [];
      calc {
        Filter(SortByRatingDesc(s), keep);
        Filter(InsertByRating(SortByRatingDesc(init), last), keep);
        { InsertKeepsOrderOfEqualRatings(SortByRatingDesc(init), last, k); }
        Filter(SortByRatingDesc(init), keep) + tail;
        { SortIsStable(init, k); }
        Filter(init, keep) + tail;
        { assert Filter([last], keep) == tail; }
        Filter(init, keep) + Filter([last], keep);
        { FilterAppend(init, [last], keep); }
        Filter(init + [last], keep);
        { assert s == init + [last]; }
        Filter(s, keep);
      }
    }
  }

  /** When every entry has the same rating the sort changes nothing. */
  lemma {:induction false} SortKeepsEqualRatingsInOrder(s: seq<Player>, k: int)
    requires forall i :: 0 <= i < |s| ==> s[i].rating == k
    ensures SortByRatingDesc(s) == s
  {
    var r := SortByRatingDesc(s);
    SortIsStable(s, k);
    FilterAll(s, WithRating(k));
    forall i | 0 <= i < |r| ensures WithRating(k)(r[i]) {
      assert r[i] in multiset(s);
    }
    FilterAll(r, WithRating(k));
  }
}
