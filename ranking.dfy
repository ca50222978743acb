/** Bounded top-K selection, shared by `topZones` and `topBusySlots`: a
    result buffer of at most k entries kept in ranking order by inserting at
    the end and bubbling towards the front. */
module Ranking {

  /** `better(a, b)`: a ranks strictly before b. Both comparators of the
      analyzer are strict total orders on their entries. */
  ghost predicate StrictTotalOrder<T(!new)>(better: (T, T) -> bool) {
    && (forall a :: !better(a, a))
    && (forall a, b, c :: better(a, b) && better(b, c) ==> better(a, c))
    && (forall a, b :: a != b ==> better(a, b) || better(b, a))
  }

  function Min(a: nat, b: nat): nat {
    if a <= b then a else b
  }

  /** Strictly in ranking order: every entry ranks before every later one. */
  ghost predicate Ranked<T>(s: seq<T>, better: (T, T) -> bool) {
    forall i, j :: 0 <= i < j < |s| ==> better(s[i], s[j])
  }

  /** `r` is the top-k of `cands`: ranked, min(k, |cands|) long, made of
      candidates, holding all of them when shorter than k, and every
      candidate left out ranks after every entry kept. */
  ghost predicate IsTopK<T(!new)>(r: seq<T>, cands: set<T>, k: nat, better: (T, T) -> bool) {
    && Ranked(r, better)
    && |r| == Min(k, |cands|)
    && (forall x :: x in r ==> x in cands)
    && (|r| < k ==> forall x :: x in cands ==> x in r)
    && (forall x, y :: x in cands && x !in r && y in r ==> better(y, x))
  }

  /** The bubbling loop: the last entry moves towards the front, swapping
      with its predecessor while it ranks before it. */
  method BubbleUp<T(!new)>(s: seq<T>, better: (T, T) -> bool) returns (r: seq<T>)
    requires StrictTotalOrder(better)
    requires |s| > 0 && Ranked(s[..|s| - 1], better) && s[|s| - 1] !in s[..|s| - 1]
    ensures Ranked(r, better)
    ensures multiset(r) == multiset(s)
  {
    ghost var base := s[..|s| - 1];
    ghost var c := s[|s| - 1];
    r := s;
    var i := |s| - 1;
    while i > 0 && better(r[i], r[i - 1])
      invariant 0 <= i < |r| == |s|
      invariant r[i] == c
      invariant forall j :: 0 <= j < i ==> r[j] == base[j]
      invariant forall j :: i < j < |r| ==> r[j] == base[j - 1]
      invariant forall j :: i < j < |r| ==> better(c, r[j])
      invariant multiset(r) == multiset(s)
    {
      r := r[i := r[i - 1]][i - 1 := r[i]];
      i := i - 1;
    }
    assert i > 0 ==> better(r[i - 1], c) by {
      if i > 0 {
        assert r[i - 1] == base[i - 1] && r[i - 1] != c;
      }
    }
    forall p, q | 0 <= p < q < |r| ensures better(r[p], r[q]) {
      if q < i || p > i {
        // two entries of base, in their original order
      } else if p == i {
        // c ranks before everything it passed
      } else if q == i {
        if p < i - 1 {
          assert better(base[p], base[i - 1]);
        }
      } else {
        assert r[p] == base[p] && r[q] == base[q - 1];
      }
    }
  }

  /** One candidate offered to the buffer (the body of the loop over the
      aggregate): appended while fewer than k entries are kept, otherwise put
      in place of the last entry when it ranks before it, and bubbled. */
  method Offer<T(!new)>(results: seq<T>, k: nat, candidate: T, better: (T, T) -> bool, ghost cands: set<T>)
    returns (r: seq<T>)
    requires StrictTotalOrder(better) && k >= 1
    requires IsTopK(results, cands, k, better) && candidate !in cands
    ensures IsTopK(r, cands + {candidate}, k, better)
  {
    if |results| < k {
      var s := results + [candidate];
      assert s[..|s| - 1] == results;
      r := BubbleUp(s, better);
      AppendKeepsTopK(results, r, k, candidate, better, cands);
    } else if better(candidate, results[k - 1]) {
      var s := results[k - 1 := candidate];
      assert s[..|s| - 1] == results[..k - 1];
      r := BubbleUp(s, better);
      assert s == results[..k - 1] + [candidate];
      ReplaceKeepsTopK(results, r, k, candidate, better, cands);
    } else {
      r := results;
      DiscardKeepsTopK(results, k, candidate, better, cands);
    }
  }

  /** Fewer than k entries kept: all candidates are kept, so adding one more
      keeps them all. */
  lemma AppendKeepsTopK<T(!new)>(results: seq<T>, r: seq<T>, k: nat, candidate: T, better: (T, T) -> bool, cands: set<T>)
    requires StrictTotalOrder(better)
    requires IsTopK(results, cands, k, better) && candidate !in cands && |results| < k
    requires Ranked(r, better) && multiset(r) == multiset(results + [candidate])
    ensures IsTopK(r, cands + {candidate}, k, better)
  {
    assert forall x :: x in r <==> x in multiset(results + [candidate]);
    assert forall x :: x in r <==> x in results || x == candidate;
  }

  /** k entries kept and the candidate ranks before the last: the last one
      drops out and the candidate comes in. */
  lemma ReplaceKeepsTopK<T(!new)>(results: seq<T>, r: seq<T>, k: nat, candidate: T, better: (T, T) -> bool, cands: set<T>)
    requires StrictTotalOrder(better) && k >= 1
    requires IsTopK(results, cands, k, better) && candidate !in cands && |results| == k
    requires better(candidate, results[k - 1])
    requires Ranked(r, better) && multiset(r) == multiset(results[..k - 1] + [candidate])
    ensures IsTopK(r, cands + {candidate}, k, better)
  {
    var last := results[k - 1];
    assert forall x :: x in r <==> x in multiset(results[..k - 1] + [candidate]);
    assert forall x :: x in r <==> x in results[..k - 1] || x == candidate;
    forall x, y | x in cands + {candidate} && x !in r && y in r ensures better(y, x) {
      assert x in cands;
      if y == candidate {
        if x != last {
          assert better(last, x);
          Transitive(better, candidate, last, x);
        }
      } else {
        var j :| 0 <= j < k - 1 && results[j] == y;
        assert better(y, last);
        if x != last {
          assert y in results;
        }
      }
    }
  }

  /** k entries kept and the candidate does not rank before the last: it
      ranks after all of them and nothing changes. */
  lemma DiscardKeepsTopK<T(!new)>(results: seq<T>, k: nat, candidate: T, better: (T, T) -> bool, cands: set<T>)
    requires StrictTotalOrder(better) && k >= 1
    requires IsTopK(results, cands, k, better) && candidate !in cands && |results| == k
    requires !better(candidate, results[k - 1])
    ensures IsTopK(results, cands + {candidate}, k, better)
  {
    var last := results[k - 1];
    assert candidate != last;
    assert better(last, candidate);
    forall y | y in results ensures better(y, candidate) {
      var j :| 0 <= j < k && results[j] == y;
      if j < k - 1 {
        assert better(y, last);
        Transitive(better, y, last, candidate);
      }
    }
  }

  lemma Transitive<T(!new)>(better: (T, T) -> bool, a: T, b: T, c: T)
    requires StrictTotalOrder(better) && better(a, b) && better(b, c)
    ensures better(a, c)
  {
  }

  /** A ranked sequence holds no entry twice. */
  lemma RankedDistinct<T(!new)>(s: seq<T>, better: (T, T) -> bool)
    requires StrictTotalOrder(better) && Ranked(s, better)
    ensures forall i, j :: 0 <= i < j < |s| ==> s[i] != s[j]
  {
  }

  /** The entry at position i of a top-k ranks before every candidate not
      already among the first i entries. */
  lemma TopKEntryIsBest<T(!new)>(r: seq<T>, cands: set<T>, k: nat, better: (T, T) -> bool, i: nat)
    requires StrictTotalOrder(better) && IsTopK(r, cands, k, better) && i < |r|
    ensures forall c :: c in cands && c !in r[..i] ==> c == r[i] || better(r[i], c)
  {
    forall c | c in cands && c !in r[..i] ensures c == r[i] || better(r[i], c) {
      forall q | 0 <= q < i ensures r[q] != c {
        assert r[..i][q] == r[q];
      }
    }
  }

  /** Two top-k of the same candidates agree on their first i entries. */
  lemma {:induction false} TopKPrefix<T(!new)>(r1: seq<T>, r2: seq<T>, cands: set<T>, k: nat, better: (T, T) -> bool, i: nat)
    requires StrictTotalOrder(better)
    requires IsTopK(r1, cands, k, better) && IsTopK(r2, cands, k, better)
    requires i <= |r1|
    ensures r1[..i] == r2[..i]
    decreases i
  {
    if i > 0 {
      var j := i - 1;
      TopKPrefix(r1, r2, cands, k, better, j);
      TopKEntryIsBest(r1, cands, k, better, j);
      TopKEntryIsBest(r2, cands, k, better, j);
      RankedDistinct(r1, better);
      RankedDistinct(r2, better);
      assert r1[j] !in r2[..j] by {
        forall q | 0 <= q < j ensures r2[..j][q] != r1[j] {
          assert r2[..j][q] == r1[..j][q] == r1[q];
        }
      }
      assert r2[j] !in r1[..j] by {
        forall q | 0 <= q < j ensures r1[..j][q] != r2[j] {
          assert r1[..j][q] == r2[..j][q] == r2[q];
        }
      }
      assert r1[j] in cands && r2[j] in cands;
      assert r1[j] == r2[j];
      assert r1[..i] == r1[..j] + [r1[j]];
      assert r2[..i] == r2[..j] + [r2[j]];
    }
  }

  /** The top-k is unique: whatever order the candidates are offered in, the
      result is the same sequence. */
  lemma TopKUnique<T(!new)>(r1: seq<T>, r2: seq<T>, cands: set<T>, k: nat, better: (T, T) -> bool)
    requires StrictTotalOrder(better)
    requires IsTopK(r1, cands, k, better) && IsTopK(r2, cands, k, better)
    ensures r1 == r2
  {
    TopKPrefix(r1, r2, cands, k, better, |r1|);
    assert r1 == r1[..|r1|] && r2 == r2[..|r2|];
  }
}
