/**
 * The two column statistics the data cleaner fills missing cells with:
 * the median of a numeric column (pandas Series.median, skipping missing
 * values) and the first mode of a categorical column (Series.mode()[0],
 * whose modes come back sorted).
 */
module Stats {

  // ---------------------------------------------------------------------
  // Sorting reals

  predicate Sorted(s: seq<real>) {
    forall i, j :: 0 <= i < j < |s| ==> s[i] <= s[j]
  }

  function Insert(x: real, s: seq<real>): (r: seq<real>)
    requires Sorted(s)
    ensures Sorted(r)
    ensures multiset(r) == multiset(s) + multiset{x}
    ensures r[0] == if s == [] || x <= s[0] then x else s[0]
  {
    if s == [] then [x]
    else if x <= s[0] then [x] + s
    else
      var rest := Insert(x, s[1..]);
      var r := [s[0]] + rest;
      assert Sorted(r) by {
        assert s[0] <= rest[0];
        assert forall k :: 1 <= k < |r| ==> r[k] == rest[k - 1];
      }
      assert multiset(r) == multiset(s) + multiset{x} by {
        assert s == [s[0]] + s[1..];
      }
      r
  }

  function SortAsc(s: seq<real>): (r: seq<real>)
    ensures Sorted(r)
    ensures multiset(r) == multiset(s)
  {
    if s == [] then []
    else
      assert s == [s[0]] + s[1..];
      Insert(s[0], SortAsc(s[1..]))
  }

  /** Two sorted sequences with the same elements are equal. */
  lemma {:induction false} SortedUnique(a: seq<real>, b: seq<real>)
    requires Sorted(a) && Sorted(b)
    requires multiset(a) == multiset(b)
    ensures a == b
  {
    assert |a| == |multiset(a)| == |multiset(b)| == |b|;
    if a != [] {
      assert a[0] in multiset(b) && b[0] in multiset(a);
      assert a[0] == b[0] by {
        var i :| 0 <= i < |b| && b[i] == a[0];
        var j :| 0 <= j < |a| && a[j] == b[0];
        assert b[0] <= b[i] && a[0] <= a[j];
      }
      assert a == [a[0]] + a[1..];
      assert b == [b[0]] + b[1..];
      assert multiset(a[1..]) == multiset(a) - multiset{a[0]};
      assert multiset(b[1..]) == multiset(b) - multiset{b[0]};
      SortedUnique(a[1..], b[1..]);
    }
  }

  // ---------------------------------------------------------------------
  // Median

  /** The middle value of the sorted values; for an even count, the mean of the two middle ones. */
  function Median(xs: seq<real>): (m: real)
    requires |xs| > 0
    ensures exists i :: 0 <= i < |xs| && xs[i] <= m
    ensures exists j :: 0 <= j < |xs| && m <= xs[j]
    ensures |xs| % 2 == 1 ==> m in xs
  {
    var s := SortAsc(xs);
    var n := |s|;
    assert n == |xs| by {
      assert |s| == |multiset(s)| == |multiset(xs)| == |xs|;
    }
    var lo := s[(n - 1) / 2];
    var hi := s[n / 2];
    assert lo in xs && hi in xs by {
      assert lo in multiset(s) && hi in multiset(s);
    }
    assert lo <= (lo + hi) / 2.0 <= hi;
    if n % 2 == 1 then hi else (lo + hi) / 2.0
  }

  /** The median depends only on the values, not on their order. */
  lemma MedianOfPermutation(a: seq<real>, b: seq<real>)
    requires |a| > 0
    requires multiset(a) == multiset(b)
    ensures |b| > 0 && Median(a) == Median(b)
  {
    assert |a| == |multiset(a)| == |multiset(b)| == |b|;
    MedianFromSorted(a, SortAsc(b));
    MedianFromSorted(b, SortAsc(b));
  }

  /** The median can be read off any sorted arrangement of the values. */
  lemma MedianFromSorted(xs: seq<real>, s: seq<real>)
    requires |xs| > 0
    requires Sorted(s) && multiset(s) == multiset(xs)
    ensures |s| == |xs|
    ensures Median(xs) == if |s| % 2 == 1 then s[|s| / 2] else (s[|s| / 2 - 1] + s[|s| / 2]) / 2.0
  {
    assert |s| == |multiset(s)| == |multiset(xs)| == |xs|;
    SortedUnique(SortAsc(xs), s);
  }

  /** Odd count: the middle value. */
  lemma MedianOddExample()
    ensures Median([3.0, 1.0, 2.0]) == 2.0
  {
    MedianFromSorted([3.0, 1.0, 2.0], [1.0, 2.0, 3.0]);
  }

  /** Even count: the mean of the two middle values. */
  lemma MedianEvenExample()
    ensures Median([4.0, 1.0, 3.0, 2.0]) == 2.5
  {
    MedianFromSorted([4.0, 1.0, 3.0, 2.0], [1.0, 2.0, 3.0, 4.0]);
  }

  // ---------------------------------------------------------------------
  // Lexicographic order on strings (Python's str comparison by code point)

  predicate StrLe(a: string, b: string)
    ensures |a| <= |b| && a == b[..|a|] ==> StrLe(a, b)
    decreases |a|
  {
    |a| == 0 || (|b| > 0 && (a[0] < b[0] || (a[0] == b[0] && StrLe(a[1..], b[1..]))))
  }

  lemma {:induction false} StrLeTotal(a: string, b: string)
    ensures StrLe(a, b) || StrLe(b, a)
    decreases |a|
  {
    if |a| > 0 && |b| > 0 && a[0] == b[0] {
      StrLeTotal(a[1..], b[1..]);
    }
  }

  lemma {:induction false} StrLeAntisymmetric(a: string, b: string)
    requires StrLe(a, b) && StrLe(b, a)
    ensures a == b
    decreases |a|
  {
    if |a| > 0 {
      StrLeAntisymmetric(a[1..], b[1..]);
      assert a == [a[0]] + a[1..];
      assert b == [b[0]] + b[1..];
    }
  }

  lemma {:induction false} StrLeTransitive(a: string, b: string, c: string)
    requires StrLe(a, b) && StrLe(b, c)
    ensures StrLe(a, c)
    decreases |a|
  {
    if |a| > 0 && a[0] == b[0] && b[0] == c[0] {
      StrLeTransitive(a[1..], b[1..], c[1..]);
    }
  }

  // ---------------------------------------------------------------------
  // Mode

  function Occurrences(s: seq<string>, v: string): nat {
    multiset(s)[v]
  }

  /**
   * Among the candidates, the one occurring most often in s; on a tie, the
   * least in string order.
   */
  function ModeAmong(cands: seq<string>, s: seq<string>): (m: string)
    requires |cands| > 0
    ensures m in cands
    ensures forall c :: c in cands ==> Occurrences(s, c) <= Occurrences(s, m)
    ensures forall c :: c in cands && Occurrences(s, c) == Occurrences(s, m) ==> StrLe(m, c)
  {
    if |cands| == 1 then
      assert forall c :: c in cands ==> c == cands[0];
      StrLeTotal(cands[0], cands[0]);
      cands[0]
    else
      var c0 := cands[0];
      var best := ModeAmong(cands[1..], s);
      assert forall c :: c in cands ==> c == c0 || c in cands[1..];
      if Occurrences(s, c0) > Occurrences(s, best)
         || (Occurrences(s, c0) == Occurrences(s, best) && StrLe(c0, best))
      then
        StrLeTotal(c0, c0);
        forall c | c in cands[1..] && Occurrences(s, c) == Occurrences(s, c0)
          ensures StrLe(c0, c)
        {
          StrLeTransitive(c0, best, c);
        }
        c0
      else
        StrLeTotal(c0, best);
        best
  }

  /** pandas' mode()[0]: the most frequent value, the least one when several tie. */
  function Mode(s: seq<string>): (m: string)
    requires |s| > 0
    ensures m in s
    ensures forall v :: Occurrences(s, v) <= Occurrences(s, m)
    ensures forall v :: Occurrences(s, v) == Occurrences(s, m) ==> StrLe(m, v)
  {
    var m := ModeAmong(s, s);
    assert Occurrences(s, m) > 0;
    m
  }

  /** The three properties of Mode determine it. */
  lemma ModeUnique(s: seq<string>, m: string)
    requires |s| > 0
    requires m in s
    requires forall v :: Occurrences(s, v) <= Occurrences(s, m)
    requires forall v :: Occurrences(s, v) == Occurrences(s, m) ==> StrLe(m, v)
    ensures m == Mode(s)
  {
    var n := Mode(s);
    assert Occurrences(s, m) == Occurrences(s, n);
    StrLeAntisymmetric(m, n);
  }

  lemma ModeExample()
    ensures Mode(["good", "fair", "good", "fair", "excellent"]) == "fair"
  {
    var s := ["good", "fair", "good", "fair", "excellent"];
    var counts := multiset{"good", "good", "fair", "fair", "excellent"};
    assert multiset(s) == counts;
    assert "good" != "fair" && "excellent" != "fair" && "excellent" != "good" by {
      assert "good"[0] != "fair"[0] && "excellent"[0] != "fair"[0] && "excellent"[0] != "good"[0];
    }
    forall v ensures Occurrences(s, v) <= 2 && (Occurrences(s, v) == 2 ==> v == "fair" || v == "good") {
      assert Occurrences(s, v) == counts[v];
    }
    forall v | Occurrences(s, v) == 2 ensures StrLe("fair", v) {
      assert v == "fair" || v == "good";
    }
    assert Occurrences(s, "fair") == 2;
    ModeUnique(s, "fair");
  }
}
