/** `docs.sort(key=lambda x: x.metadata.get("effective_year", 0), reverse=True)`.
    Python's sort is a library routine; what the retriever relies on is its
    result, which is unique: sorted by year, newest first, and stable (with
    `reverse=True` Python still keeps equal keys in their original order).
    The sort is given here by insertion, as a reference definition. */
module YearSort {
  import opened Seqs
  import opened Documents

  predicate YearsNonIncreasing(s: seq<Doc>) {
    forall i, j :: 0 <= i < j < |s| ==> Year(s[i]) >= Year(s[j])
  }

  /** Puts `x` after every element of `t` that is strictly newer, that is
      before the first one with a year not above its own. */
  function InsertByYear(x: Doc, t: seq<Doc>): (r: seq<Doc>)
    ensures multiset(r) == multiset(t) + multiset{x}
    ensures |r| == |t| + 1
  {
    if t == [] || Year(t[0]) <= Year(x) then [x] + t
    else
      assert t == [t[0]] + t[1..];
      [t[0]] + InsertByYear(x, t[1..])
  }

  /** Inserting into a newest-first list keeps it newest-first. */
  lemma {:induction false} InsertKeepsOrder(x: Doc, t: seq<Doc>)
    requires YearsNonIncreasing(t)
    ensures YearsNonIncreasing(InsertByYear(x, t))
    ensures InsertByYear(x, t)[0] == x || (t != [] && InsertByYear(x, t)[0] == t[0])
  {
    if t == [] || Year(t[0]) <= Year(x) {
      SortedCons(x, t);
    } else {
      var rest := InsertByYear(x, t[1..]);
      SortedTail(t);
      InsertKeepsOrder(x, t[1..]);
      assert Year(rest[0]) <= Year(t[0]) by {
        if rest[0] != x {
          assert rest[0] == t[1];
        }
      }
      SortedCons(t[0], rest);
    }
  }

  lemma SortedTail(t: seq<Doc>)
    requires t != [] && YearsNonIncreasing(t)
    ensures YearsNonIncreasing(t[1..])
  {
    forall i, j | 0 <= i < j < |t| - 1 ensures Year(t[1..][i]) >= Year(t[1..][j]) {
      assert t[1..][i] == t[i + 1] && t[1..][j] == t[j + 1];
    }
  }

  lemma SortedCons(d: Doc, s: seq<Doc>)
    requires YearsNonIncreasing(s)
    requires s == [] || Year(s[0]) <= Year(d)
    ensures YearsNonIncreasing([d] + s)
  {
    var r := [d] + s;
    forall i, j | 0 <= i < j < |r| ensures Year(r[i]) >= Year(r[j]) {
      if i == 0 {
        assert r[j] == s[j - 1];
      } else {
        assert r[i] == s[i - 1] && r[j] == s[j - 1];
      }
    }
  }

  function SortByYearDesc(s: seq<Doc>): (r: seq<Doc>)
    ensures multiset(r) == multiset(s)
    ensures |r| == |s|
    ensures YearsNonIncreasing(r)
  {
    if s == [] then []
    else
      assert s == [s[0]] + s[1..];
      var rest := SortByYearDesc(s[1..]);
      InsertKeepsOrder(s[0], rest);
      InsertByYear(s[0], rest)
  }

  /** The element put first is one of the newest. */
  lemma SortedHeadIsNewest(s: seq<Doc>)
    requires s != []
    ensures forall d :: d in s ==> Year(d) <= Year(SortByYearDesc(s)[0])
  {
    var r := SortByYearDesc(s);
    forall d | d in s ensures Year(d) <= Year(r[0]) {
      assert d in multiset(r);
      var k :| 0 <= k < |r| && r[k] == d;
    }
  }

  /** Filtering an inserted list inserts into the filtered list (the list
      inserted into being sorted). */
  lemma {:induction false} FilterInsert(p: Doc -> bool, x: Doc, t: seq<Doc>)
    requires YearsNonIncreasing(t)
    ensures p(x) ==> Filter(p, InsertByYear(x, t)) == InsertByYear(x, Filter(p, t))
    ensures !p(x) ==> Filter(p, InsertByYear(x, t)) == Filter(p, t)
  {
    if t == [] || Year(t[0]) <= Year(x) {
      FilterInsertFront(p, x, t);
    } else {
      FilterInsert(p, x, t[1..]);
      FilterInsertLater(p, x, t);
    }
  }

  lemma FilterInsertFront(p: Doc -> bool, x: Doc, t: seq<Doc>)
    requires YearsNonIncreasing(t)
    requires t == [] || Year(t[0]) <= Year(x)
    ensures p(x) ==> Filter(p, InsertByYear(x, t)) == InsertByYear(x, Filter(p, t))
    ensures !p(x) ==> Filter(p, InsertByYear(x, t)) == Filter(p, t)
  {
    var ft := Filter(p, t);
    assert InsertByYear(x, t) == [x] + t;
    assert ([x] + t)[1..] == t;
    if ft != [] {
      assert ft[0] in t;
      var k :| 0 <= k < |t| && t[k] == ft[0];
      assert Year(ft[0]) <= Year(x);
    }
  }

  lemma FilterInsertLater(p: Doc -> bool, x: Doc, t: seq<Doc>)
    requires t != [] && Year(t[0]) > Year(x)
    requires p(x) ==> Filter(p, InsertByYear(x, t[1..])) == InsertByYear(x, Filter(p, t[1..]))
    requires !p(x) ==> Filter(p, InsertByYear(x, t[1..])) == Filter(p, t[1..])
    ensures p(x) ==> Filter(p, InsertByYear(x, t)) == InsertByYear(x, Filter(p, t))
    ensures !p(x) ==> Filter(p, InsertByYear(x, t)) == Filter(p, t)
  {
    var tail := t[1..];
    assert t == [t[0]] + tail;
    var f1 := Filter(p, tail);
    InsertBehind(x, t[0], tail);
    FilterCons(p, t[0], InsertByYear(x, tail));
    FilterCons(p, t[0], tail);
    if p(t[0]) && p(x) {
      InsertBehind(x, t[0], f1);
    }
  }

  lemma InsertBehind(x: Doc, h: Doc, rest: seq<Doc>)
    requires Year(h) > Year(x)
    ensures InsertByYear(x, [h] + rest) == [h] + InsertByYear(x, rest)
  {
    assert ([h] + rest)[1..] == rest;
  }

  lemma FilterCons(p: Doc -> bool, h: Doc, rest: seq<Doc>)
    ensures Filter(p, [h] + rest) == if p(h) then [h] + Filter(p, rest) else Filter(p, rest)
  {
    assert ([h] + rest)[1..] == rest;
  }

  /** Sorting commutes with any filter: the documents a filter keeps come out
      of the sort in the order the sort gives them alone. */
  lemma {:induction false} FilterSortCommute(p: Doc -> bool, s: seq<Doc>)
    ensures Filter(p, SortByYearDesc(s)) == SortByYearDesc(Filter(p, s))
  {
    if s != [] {
      FilterSortCommute(p, s[1..]);
      FilterInsert(p, s[0], SortByYearDesc(s[1..]));
    }
  }

  /** On documents of one year the sort changes nothing. */
  lemma {:induction false} SortSameYear(s: seq<Doc>, y: int)
    requires forall i :: 0 <= i < |s| ==> Year(s[i]) == y
    ensures SortByYearDesc(s) == s
  {
    if s != [] {
      SortSameYear(s[1..], y);
      assert s == [s[0]] + s[1..];
    }
  }

  /** Stability: the documents of any one year keep their relative order. */
  lemma SortIsStable(s: seq<Doc>, sameYear: Doc -> bool, y: int)
    requires forall d :: sameYear(d) <==> Year(d) == y
    ensures Filter(sameYear, SortByYearDesc(s)) == Filter(sameYear, s)
  {
    FilterSortCommute(sameYear, s);
    var f := Filter(sameYear, s);
    forall i | 0 <= i < |f| ensures Year(f[i]) == y {
      assert f[i] in f;
    }
    SortSameYear(f, y);
  }
}
