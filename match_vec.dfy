/**
  The crawler's output vector, `Vec<(JsonPath, i64)>`: matches are pushed at
  the end, and the application sorts it in place by timestamp with a stable
  sort (`sort_by_key`).
 */
module MatchVecs {
  import opened JsonPaths

  /** A matched integer leaf: where it is, and its value. */
  type Match = (JsonPath, int)

  /** Timestamps never decrease along `s`. */
  predicate SortedByTs(s: seq<Match>) {
    forall i, j :: 0 <= i < j < |s| ==> s[i].1 <= s[j].1
  }

  /** The matches of `s` whose timestamp is `t`, in their order in `s`. */
  function WithTs(s: seq<Match>, t: int): seq<Match>
    decreases |s|
  {
    if s == [] then []
    else WithTs(s[..|s| - 1], t) + (if s[|s| - 1].1 == t then [s[|s| - 1]] else [])
  }

  /**
    `r` is what a stable sort by timestamp makes of `s`: timestamps
    non-decreasing, and for every timestamp the matches that carry it appear
    in `r` exactly as, and in the order, they appear in `s`.
   */
  ghost predicate IsStableSortOf(r: seq<Match>, s: seq<Match>) {
    SortedByTs(r) && forall t :: WithTs(r, t) == WithTs(s, t)
  }

  /** `r` with `m` placed after every match whose timestamp is not larger. */
  function InsertByTs(r: seq<Match>, m: Match): seq<Match>
    decreases |r|
  {
    if r == [] || r[|r| - 1].1 <= m.1 then r + [m]
    else InsertByTs(r[..|r| - 1], m) + [r[|r| - 1]]
  }

  /** Insertion sort by timestamp, the reference stable sort. */
  function SortByTs(s: seq<Match>): seq<Match>
    decreases |s|
  {
    if s == [] then [] else InsertByTs(SortByTs(s[..|s| - 1]), s[|s| - 1])
  }

  lemma {:induction false} WithTsConcat(a: seq<Match>, b: seq<Match>, t: int)
    ensures WithTs(a + b, t) == WithTs(a, t) + WithTs(b, t)
    decreases |b|
  {
    if b == [] {
      assert a + b == a;
    } else {
      assert (a + b)[..|a + b| - 1] == a + b[..|b| - 1];
      assert (a + b)[|a + b| - 1] == b[|b| - 1];
      WithTsConcat(a, b[..|b| - 1], t);
    }
  }

  lemma {:induction false} InsertByTsPermutes(r: seq<Match>, m: Match)
    ensures multiset(InsertByTs(r, m)) == multiset(r) + multiset{m}
    decreases |r|
  {
    if !(r == [] || r[|r| - 1].1 <= m.1) {
      assert r == r[..|r| - 1] + [r[|r| - 1]];
      InsertByTsPermutes(r[..|r| - 1], m);
    }
  }

  lemma {:induction false} InsertByTsSorted(r: seq<Match>, m: Match)
    requires SortedByTs(r)
    ensures SortedByTs(InsertByTs(r, m))
    decreases |r|
  {
    if !(r == [] || r[|r| - 1].1 <= m.1) {
      var init, last := r[..|r| - 1], r[|r| - 1];
      InsertByTsSorted(init, m);
      InsertByTsPermutes(init, m);
      var ins := InsertByTs(init, m);
      forall i | 0 <= i < |ins| ensures ins[i].1 <= last.1 {
        var x := ins[i];
        assert x in multiset(ins);
        if x != m {
          assert x in multiset(init);
          var k :| 0 <= k < |init| && init[k] == x;
          assert r[k] == x;
        }
      }
    }
  }

  lemma WithTsSingle(x: Match, t: int)
    ensures WithTs([x], t) == if x.1 == t then [x] else []
  {
    assert [x][..0] == [];
  }

  lemma {:induction false} InsertByTsKeepsOrder(r: seq<Match>, m: Match, t: int)
    ensures WithTs(InsertByTs(r, m), t) == WithTs(r, t) + WithTs([m], t)
    decreases |r|
  {
    if r == [] || r[|r| - 1].1 <= m.1 {
      WithTsConcat(r, [m], t);
    } else {
      var init, last := r[..|r| - 1], r[|r| - 1];
      var ins := InsertByTs(init, m);
      InsertByTsKeepsOrder(init, m, t);
      WithTsConcat(ins, [last], t);
      WithTsSingle(m, t);
      WithTsSingle(last, t);
      var a, l, mm := WithTs(init, t), WithTs([last], t), WithTs([m], t);
      assert WithTs(r, t) == a + l;
      assert WithTs(InsertByTs(r, m), t) == a + mm + l;
      if m.1 == t {
        assert l == [];
        assert a + mm + l == a + mm;
        assert a + l == a;
      } else {
        assert mm == [];
        assert a + mm + l == a + l;
        assert a + l + mm == a + l;
      }
    }
  }

  /** The reference sort is a stable sort by timestamp, and a permutation. */
  lemma {:induction false} SortByTsIsStableSort(s: seq<Match>)
    ensures IsStableSortOf(SortByTs(s), s)
    ensures multiset(SortByTs(s)) == multiset(s)
    decreases |s|
  {
    if s != [] {
      var init, last := s[..|s| - 1], s[|s| - 1];
      assert s == init + [last];
      SortByTsIsStableSort(init);
      InsertByTsSorted(SortByTs(init), last);
      InsertByTsPermutes(SortByTs(init), last);
      forall t ensures WithTs(SortByTs(s), t) == WithTs(s, t) {
        InsertByTsKeepsOrder(SortByTs(init), last, t);
        WithTsConcat(init, [last], t);
      }
    }
  }

  /** A match is among those with timestamp `t` exactly when it occurs in `s` and carries `t`. */
  lemma {:induction false} WithTsMember(s: seq<Match>, x: Match, t: int)
    ensures x in WithTs(s, t) <==> x in s && x.1 == t
    decreases |s|
  {
    if s != [] {
      assert s == s[..|s| - 1] + [s[|s| - 1]];
      WithTsMember(s[..|s| - 1], x, t);
    }
  }

  /** Two sorted sequences that agree on the matches of every timestamp are equal. */
  lemma {:induction false} SameGroupsSame(r: seq<Match>, q: seq<Match>)
    requires SortedByTs(r) && SortedByTs(q)
    requires forall t :: WithTs(r, t) == WithTs(q, t)
    ensures r == q
    decreases |r| + |q|
  {
    if r == [] && q == [] {
    } else if r == [] {
      var y := q[|q| - 1];
      WithTsMember(q, y, y.1);
      WithTsMember(r, y, y.1);
    } else if q == [] {
      var x := r[|r| - 1];
      WithTsMember(r, x, x.1);
      WithTsMember(q, x, x.1);
    } else {
      var r', x := r[..|r| - 1], r[|r| - 1];
      var q', y := q[..|q| - 1], q[|q| - 1];
      WithTsMember(r, x, x.1);
      WithTsMember(q, x, x.1);
      WithTsMember(q, y, y.1);
      WithTsMember(r, y, y.1);
      assert x.1 == y.1;
      forall u ensures WithTs(r', u) == WithTs(q', u) {
        var a, b := WithTs(r, u), WithTs(q, u);
        if u == x.1 {
          assert a == WithTs(r', u) + [x] && b == WithTs(q', u) + [y];
          assert WithTs(r', u) == a[..|a| - 1];
        } else {
          assert a == WithTs(r', u) && b == WithTs(q', u);
        }
      }
      SameGroupsSame(r', q');
      assert x == WithTs(r, x.1)[|WithTs(r, x.1)| - 1];
      assert r == r' + [x] && q == q' + [y];
    }
  }

  /** Any stable sort by timestamp gives exactly what the reference sort gives. */
  lemma StableSortUnique(r: seq<Match>, s: seq<Match>)
    requires IsStableSortOf(r, s)
    ensures r == SortByTs(s)
  {
    SortByTsIsStableSort(s);
    SameGroupsSame(r, SortByTs(s));
  }

  lemma InsertByTsShift(sorted: seq<Match>, m: Match, j: nat)
    requires 0 < j <= |sorted| && sorted[j - 1].1 > m.1
    ensures InsertByTs(sorted[..j], m) + sorted[j..] == InsertByTs(sorted[..j - 1], m) + sorted[j - 1..]
  {
    var p := sorted[..j];
    assert p[..|p| - 1] == sorted[..j - 1] && p[|p| - 1] == sorted[j - 1];
    assert sorted[j - 1..] == [sorted[j - 1]] + sorted[j..];
  }

  lemma InsertByTsStop(sorted: seq<Match>, m: Match, j: nat)
    requires j <= |sorted| && (j == 0 || sorted[j - 1].1 <= m.1)
    ensures InsertByTs(sorted[..j], m) + sorted[j..] == sorted[..j] + [m] + sorted[j..]
  {
  }

  /** One step of the insertion sort: scans `sorted` from the right for the
      place of `m`. */
  method InsertByTimestamp(sorted: seq<Match>, m: Match) returns (r: seq<Match>)
    ensures r == InsertByTs(sorted, m)
  {
    var j := |sorted|;
    assert sorted[..j] == sorted && sorted[j..] == [];
    while j > 0 && sorted[j - 1].1 > m.1
      invariant 0 <= j <= |sorted|
      invariant InsertByTs(sorted, m) == InsertByTs(sorted[..j], m) + sorted[j..]
    {
      InsertByTsShift(sorted, m, j);
      j := j - 1;
    }
    InsertByTsStop(sorted, m, j);
    r := sorted[..j] + [m] + sorted[j..];
  }

  /** `Vec<(JsonPath, i64)>`, reduced to the two operations used on it. */
  class MatchVec {
    var items: seq<Match>

    /** A new, empty vector. */
    constructor ()
      ensures items == []
    {
      items := [];
    }

    /** `Vec::push` */
    method Push(m: Match)
      modifies this
      ensures items == old(items) + [m]
    {
      items := items + [m];
    }

    /** The library's stable in-place sort keyed by timestamp,
        here by insertion. */
    method SortByTimestamp()
      modifies this
      ensures items == SortByTs(old(items))
    {
      var sorted: seq<Match> := [];
      var i := 0;
      while i < |items|
        invariant 0 <= i <= |items| && items == old(items)
        invariant sorted == SortByTs(items[..i])
      {
        assert items[..i + 1][..i] == items[..i];
        sorted := InsertByTimestamp(sorted, items[i]);
        i := i + 1;
      }
      assert items[..i] == items;
      items := sorted;
    }
  }
}
