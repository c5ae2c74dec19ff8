/** The ordering of each output list: Python's stable sort in reverse, keyed by the
    entry's year string, so the largest year comes first. */
module Ordering {
  import opened Values
  import opened Items
  import Years

  /** The sort key: the entry's year, or "0" when it has none. */
  function YearKey(e: Entry): string
  {
    if "year" in e then e["year"] else "0"
  }

  /** Python's `a <= b` on strings: code point by code point, a proper prefix first. */
  predicate StrLe(a: string, b: string)
  {
    a == [] || (b != [] && (a[0] < b[0] || (a[0] == b[0] && StrLe(a[1..], b[1..]))))
  }

  lemma {:induction false} StrLeReflexive(a: string)
    ensures StrLe(a, a)
  {
    if a != [] {
      StrLeReflexive(a[1..]);
    }
  }

  lemma {:induction false} StrLeTotal(a: string, b: string)
    ensures StrLe(a, b) || StrLe(b, a)
  {
    if a != [] && b != [] && a[0] == b[0] {
      StrLeTotal(a[1..], b[1..]);
    }
  }

  lemma {:induction false} StrLeTransitive(a: string, b: string, c: string)
    requires StrLe(a, b) && StrLe(b, c)
    ensures StrLe(a, c)
  {
    if a != [] && a[0] == b[0] && b[0] == c[0] {
      StrLeTransitive(a[1..], b[1..], c[1..]);
    }
  }

  /** Inserts x before the first entry whose key is not larger than x's: on a tie x,
      which came first in the input, stays first. */
  function Insert(x: Entry, s: seq<Entry>): seq<Entry>
  {
    if s == [] then [x]
    else if StrLe(YearKey(s[0]), YearKey(x)) then [x] + s
    else [s[0]] + Insert(x, s[1..])
  }

  lemma {:induction false} InsertPermutation(x: Entry, s: seq<Entry>)
    ensures multiset(Insert(x, s)) == multiset(s) + multiset{x}
  {
    if s != [] && !StrLe(YearKey(s[0]), YearKey(x)) {
      InsertPermutation(x, s[1..]);
      assert s == [s[0]] + s[1..];
    }
  }

  /** The stable descending sort, as an insertion sort; each list comes out a
      permutation of the entries classified into it. */
  function SortByYear(s: seq<Entry>): (r: seq<Entry>)
    ensures multiset(r) == multiset(s)
  {
    if s == [] then []
    else
      InsertPermutation(s[0], SortByYear(s[1..]));
      assert s == [s[0]] + s[1..];
      Insert(s[0], SortByYear(s[1..]))
  }

  /** Non-increasing by year under string comparison. */
  predicate Descending(s: seq<Entry>)
  {
    forall i, j :: 0 <= i < j < |s| ==> StrLe(YearKey(s[j]), YearKey(s[i]))
  }

  /** The entries of s whose year key is y, in their order in s. */
  function WithYear(s: seq<Entry>, y: string): seq<Entry>
  {
    if s == [] then []
    else (if YearKey(s[0]) == y then [s[0]] else []) + WithYear(s[1..], y)
  }

  /** Every entry of s has a key no larger than b. */
  predicate AtMost(s: seq<Entry>, b: string)
  {
    forall k :: 0 <= k < |s| ==> StrLe(YearKey(s[k]), b)
  }

  lemma {:induction false} InsertAtMost(x: Entry, s: seq<Entry>, b: string)
    requires AtMost(s, b) && StrLe(YearKey(x), b)
    ensures AtMost(Insert(x, s), b)
  {
    if s != [] && !StrLe(YearKey(s[0]), YearKey(x)) {
      InsertAtMost(x, s[1..], b);
      var r := Insert(x, s);
      assert r[1..] == Insert(x, s[1..]);
      forall k | 0 <= k < |r| ensures StrLe(YearKey(r[k]), b) {
        if k > 0 {
          assert r[k] == r[1..][k - 1];
        }
      }
    }
  }

  lemma DescendingCons(h: Entry, t: seq<Entry>)
    requires AtMost(t, YearKey(h)) && Descending(t)
    ensures Descending([h] + t)
  {
    var r := [h] + t;
    forall i, j | 0 <= i < j < |r| ensures StrLe(YearKey(r[j]), YearKey(r[i])) {
      assert r[j] == t[j - 1];
      if i > 0 {
        assert r[i] == t[i - 1];
      }
    }
  }

  lemma {:induction false} InsertDescending(x: Entry, s: seq<Entry>)
    requires Descending(s)
    ensures Descending(Insert(x, s))
  {
    if s == [] {
    } else if StrLe(YearKey(s[0]), YearKey(x)) {
      forall k | 0 <= k < |s| ensures StrLe(YearKey(s[k]), YearKey(x)) {
        if k > 0 {
          StrLeTransitive(YearKey(s[k]), YearKey(s[0]), YearKey(x));
        }
      }
      DescendingCons(x, s);
    } else {
      StrLeTotal(YearKey(s[0]), YearKey(x));
      assert Descending(s[1..]);
      assert AtMost(s[1..], YearKey(s[0]));
      InsertDescending(x, s[1..]);
      InsertAtMost(x, s[1..], YearKey(s[0]));
      DescendingCons(s[0], Insert(x, s[1..]));
    }
  }

  /** Each list comes out non-increasing by year. */
  lemma {:induction false} SortDescending(s: seq<Entry>)
    ensures Descending(SortByYear(s))
  {
    if s != [] {
      SortDescending(s[1..]);
      InsertDescending(s[0], SortByYear(s[1..]));
    }
  }

  lemma WithYearCons(h: Entry, t: seq<Entry>, y: string)
    ensures WithYear([h] + t, y) == (if YearKey(h) == y then [h] else []) + WithYear(t, y)
  {
    assert ([h] + t)[1..] == t;
  }

  lemma {:induction false} InsertWithYear(x: Entry, s: seq<Entry>, y: string)
    ensures WithYear(Insert(x, s), y) == (if YearKey(x) == y then [x] else []) + WithYear(s, y)
  {
    if s == [] {
      WithYearCons(x, [], y);
    } else if StrLe(YearKey(s[0]), YearKey(x)) {
      WithYearCons(x, s, y);
    } else {
      StrLeReflexive(YearKey(x));
      var t := Insert(x, s[1..]);
      assert Insert(x, s) == [s[0]] + t;
      InsertWithYear(x, s[1..], y);
      WithYearCons(s[0], t, y);
      WithYearCons(s[0], s[1..], y);
      assert [s[0]] + s[1..] == s;
      if YearKey(x) == y {
        assert YearKey(s[0]) != y;
        assert WithYear(Insert(x, s), y) == WithYear(t, y) == [x] + WithYear(s[1..], y);
        assert WithYear(s, y) == WithYear(s[1..], y);
      } else {
        assert WithYear(t, y) == WithYear(s[1..], y);
      }
    }
  }

  /** The sort is stable: the entries sharing a year keep their input order. */
  lemma {:induction false} SortStable(s: seq<Entry>, y: string)
    ensures WithYear(SortByYear(s), y) == WithYear(s, y)
  {
    if s != [] {
      SortStable(s[1..], y);
      InsertWithYear(s[0], SortByYear(s[1..]), y);
    }
  }

  /** Undated entries come first: "N.D." is larger than every year that starts with a
      digit, because 'N' follows the digits in code point order. */
  lemma UndatedFirst(s: seq<Entry>)
    ensures var r := SortByYear(s);
            forall i, j :: (0 <= i < |r| && 0 <= j < |r| && YearKey(r[j]) == Years.Undated
                            && YearKey(r[i]) != [] && IsDigit(YearKey(r[i])[0])) ==> j < i
  {
    SortDescending(s);
  }

  /** Three papers dated 2020, undated and 2022 come out undated, 2022, 2020. */
  lemma UndatedFirstExample()
    ensures var a, b, c := map["year" := "2020"], map["year" := Years.Undated], map["year" := "2022"];
            SortByYear([a, b, c]) == [b, c, a]
  {
    var a, b, c := map["year" := "2020"], map["year" := Years.Undated], map["year" := "2022"];
    assert YearKey(a) == "2020" && YearKey(b) == Years.Undated && YearKey(c) == "2022";
    assert !StrLe(Years.Undated, "2020") && !StrLe("2022", "2020");
    assert StrLe("2022", Years.Undated);
    assert [a, b, c][1..] == [b, c] && [b, c][1..] == [c] && [c][1..] == [];
    assert SortByYear([c]) == Insert(c, []) == [c];
    assert Insert(b, [c]) == [b, c];
    assert SortByYear([b, c]) == [b, c];
    assert Insert(a, [c]) == [c] + Insert(a, []) == [c, a];
    assert Insert(a, [b, c]) == [b] + Insert(a, [c]) == [b, c, a];
  }
}
