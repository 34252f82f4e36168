/**
  The crawler: a pre-order walk over an already parsed JSON value that pushes
  `(path, n)` onto the caller's vector for every integer leaf `n` the
  caller's predicate accepts.
 */
module JsonCrawl {
  import opened Wrappers
  import opened JsonPaths
  import opened MatchVecs

  const I64Min: int := -0x8000_0000_0000_0000
  const I64Max: int := 0x7fff_ffff_ffff_ffff

  /**
    A JSON number as the parser delivers it: integer-typed (any size the
    parser accepted) or floating point. Floats are opaque: only their
    literal text is kept and no arithmetic is done on them.
   */
  datatype Number = Integer(value: int) | Float(literal: string)

  /** A parsed JSON value. An object is its members in the map's iteration order. */
  datatype Value =
    | Null
    | Bool(b: bool)
    | Num(num: Number)
    | Str(s: string)
    | Arr(elems: seq<Value>)
    | Obj(fields: seq<(string, Value)>)

  /** `Number::as_i64`: the value of an integer-typed number within i64 range. */
  function AsI64(n: Number): (r: Option<int>)
    ensures r.Some? <==> n.Integer? && I64Min <= n.value <= I64Max
    ensures r.Some? ==> r.value == n.value
  {
    match n
    case Integer(v) => if I64Min <= v <= I64Max then Some(v) else None
    case Float(_) => None
  }

  // ---------------------------------------------------------------------
  // The walk, as a function

  /** What `crawl_json(v, path, pred, out)` appends to `out`. */
  function Crawl(v: Value, path: JsonPath, pred: int -> bool): seq<Match>
    decreases v, 1
  {
    match v
    case Num(num) =>
      var r := AsI64(num);
      if r.Some? && pred(r.value) then [(path, r.value)] else []
    case Arr(elems) => CrawlElems(v, path, pred, |elems|)
    case Obj(fields) => CrawlFields(v, path, pred, |fields|)
    case _ => []
  }

  /** The matches of the first `k` elements of the array `v`, element by element. */
  function CrawlElems(v: Value, path: JsonPath, pred: int -> bool, k: nat): seq<Match>
    requires v.Arr? && k <= |v.elems|
    decreases v, 0, k
  {
    if k == 0 then []
    else CrawlElems(v, path, pred, k - 1) + Crawl(v.elems[k - 1], Append(path, Index(k - 1)), pred)
  }

  /** The matches of the first `k` members of the object `v`, member by member. */
  function CrawlFields(v: Value, path: JsonPath, pred: int -> bool, k: nat): seq<Match>
    requires v.Obj? && k <= |v.fields|
    decreases v, 0, k
  {
    if k == 0 then []
    else
      var (key, sub) := v.fields[k - 1];
      CrawlFields(v, path, pred, k - 1) + Crawl(sub, Append(path, Field(key)), pred)
  }

  // ---------------------------------------------------------------------
  // The walk, as the source runs it

  /** `crawl_json`: appends the matches of `value` below `path` to `out`. */
  method CrawlJson(value: Value, path: JsonPath, pred: int -> bool, out: MatchVec)
    modifies out
    ensures out.items == old(out.items) + Crawl(value, path, pred)
    decreases value
  {
    match value {
      case Num(num) =>
        var n := AsI64(num);
        if n.Some? {
          if pred(n.value) {
            out.Push((path, n.value));
          }
        }
      case Arr(arr) =>
        var i := 0;
        while i < |arr|
          invariant 0 <= i <= |arr|
          invariant out.items == old(out.items) + CrawlElems(value, path, pred, i)
        {
          var subPath := Append(path, Index(i));
          CrawlJson(arr[i], subPath, pred, out);
          i := i + 1;
        }
      case Obj(obj) =>
        var i := 0;
        while i < |obj|
          invariant 0 <= i <= |obj|
          invariant out.items == old(out.items) + CrawlFields(value, path, pred, i)
        {
          var (key, subVal) := obj[i];
          var subPath := Append(path, Field(key));
          CrawlJson(subVal, subPath, pred, out);
          i := i + 1;
        }
      case _ =>
    }
  }

  // ---------------------------------------------------------------------
  // Soundness and completeness

  /**
    The steps `steps`, taken from `v`, lead to a number that `as_i64`
    accepts with value `n`. An object step may go through any member whose
    key matches, so the relation makes sense for objects with repeated keys.
   */
  ghost predicate Reaches(v: Value, steps: seq<PathPart>, n: int)
    decreases v
  {
    if steps == [] then v.Num? && AsI64(v.num) == Some(n)
    else match steps[0]
      case Index(i) => v.Arr? && i < |v.elems| && Reaches(v.elems[i], steps[1..], n)
      case Field(key) =>
        v.Obj? && exists j :: 0 <= j < |v.fields| && v.fields[j].0 == key && Reaches(v.fields[j].1, steps[1..], n)
  }

  /** Null, booleans, strings, floats and integers outside i64 range contribute nothing. */
  lemma ScalarsContributeNothing(v: Value, path: JsonPath, pred: int -> bool)
    requires v.Null? || v.Bool? || v.Str? || (v.Num? && AsI64(v.num).None?)
    ensures Crawl(v, path, pred) == []
  {
  }

  /** Soundness: every match is an accepted integer leaf, found below `path` along the steps that reach it. */
  lemma {:induction false} CrawlSound(v: Value, path: JsonPath, pred: int -> bool, m: Match)
    requires m in Crawl(v, path, pred)
    ensures pred(m.1)
    ensures IsPrefix(path, m.0) && Reaches(v, m.0.parts[|path.parts|..], m.1)
    decreases v, 1
  {
    match v
    case Num(num) =>
      assert m.0.parts[|path.parts|..] == [];
    case Arr(elems) =>
      ElemsSound(v, path, pred, |elems|, m);
    case Obj(fields) =>
      FieldsSound(v, path, pred, |fields|, m);
  }

  lemma {:induction false} ElemsSound(v: Value, path: JsonPath, pred: int -> bool, k: nat, m: Match)
    requires v.Arr? && k <= |v.elems| && m in CrawlElems(v, path, pred, k)
    ensures pred(m.1)
    ensures IsPrefix(path, m.0) && Reaches(v, m.0.parts[|path.parts|..], m.1)
    ensures |m.0.parts| > |path.parts|
    ensures m.0.parts[|path.parts|].Index? && m.0.parts[|path.parts|].index < k
    decreases v, 0, k
  {
    if m in CrawlElems(v, path, pred, k - 1) {
      ElemsSound(v, path, pred, k - 1, m);
    } else {
      var sub := Append(path, Index(k - 1));
      CrawlSound(v.elems[k - 1], sub, pred, m);
      var steps := m.0.parts[|path.parts|..];
      assert m.0.parts[..|sub.parts|][..|path.parts|] == path.parts;
      assert steps[0] == Index(k - 1) && steps[1..] == m.0.parts[|sub.parts|..];
    }
  }

  lemma {:induction false} FieldsSound(v: Value, path: JsonPath, pred: int -> bool, k: nat, m: Match)
    requires v.Obj? && k <= |v.fields| && m in CrawlFields(v, path, pred, k)
    ensures pred(m.1)
    ensures IsPrefix(path, m.0) && Reaches(v, m.0.parts[|path.parts|..], m.1)
    ensures |m.0.parts| > |path.parts|
    ensures exists j :: 0 <= j < k && m.0.parts[|path.parts|] == Field(v.fields[j].0)
    decreases v, 0, k
  {
    if m in CrawlFields(v, path, pred, k - 1) {
      FieldsSound(v, path, pred, k - 1, m);
    } else {
      var (key, sub) := v.fields[k - 1];
      var subPath := Append(path, Field(key));
      CrawlSound(sub, subPath, pred, m);
      var steps := m.0.parts[|path.parts|..];
      assert m.0.parts[..|subPath.parts|][..|path.parts|] == path.parts;
      assert steps[0] == Field(key) && steps[1..] == m.0.parts[|subPath.parts|..];
      assert v.fields[k - 1].0 == key && Reaches(v.fields[k - 1].1, steps[1..], m.1);
    }
  }

  lemma {:induction false} ElemsContains(v: Value, path: JsonPath, pred: int -> bool, k: nat, i: nat, m: Match)
    requires v.Arr? && i < k <= |v.elems|
    requires m in Crawl(v.elems[i], Append(path, Index(i)), pred)
    ensures m in CrawlElems(v, path, pred, k)
    decreases k
  {
    if i < k - 1 {
      ElemsContains(v, path, pred, k - 1, i, m);
    }
  }

  lemma {:induction false} FieldsContains(v: Value, path: JsonPath, pred: int -> bool, k: nat, j: nat, m: Match)
    requires v.Obj? && j < k <= |v.fields|
    requires m in Crawl(v.fields[j].1, Append(path, Field(v.fields[j].0)), pred)
    ensures m in CrawlFields(v, path, pred, k)
    decreases k
  {
    if j < k - 1 {
      FieldsContains(v, path, pred, k - 1, j, m);
    }
  }

  /** Completeness: every accepted integer leaf is matched, with the path that reaches it. */
  lemma {:induction false} CrawlComplete(v: Value, path: JsonPath, pred: int -> bool, steps: seq<PathPart>, n: int)
    requires Reaches(v, steps, n) && pred(n)
    ensures (JsonPath(path.parts + steps), n) in Crawl(v, path, pred)
    decreases v
  {
    if steps == [] {
      assert path.parts + steps == path.parts;
    } else {
      match steps[0]
      case Index(i) =>
        var sub := Append(path, Index(i));
        CrawlComplete(v.elems[i], sub, pred, steps[1..], n);
        assert sub.parts + steps[1..] == path.parts + steps;
        ElemsContains(v, path, pred, |v.elems|, i, (JsonPath(path.parts + steps), n));
      case Field(key) =>
        var j :| 0 <= j < |v.fields| && v.fields[j].0 == key && Reaches(v.fields[j].1, steps[1..], n);
        var sub := Append(path, Field(key));
        CrawlComplete(v.fields[j].1, sub, pred, steps[1..], n);
        assert sub.parts + steps[1..] == path.parts + steps;
        FieldsContains(v, path, pred, |v.fields|, j, (JsonPath(path.parts + steps), n));
    }
  }

  // ---------------------------------------------------------------------
  // No duplicates

  /** Object keys are pairwise distinct at every level, as in a parsed map. */
  ghost predicate DistinctKeys(v: Value)
    decreases v
  {
    match v
    case Arr(elems) => forall i :: 0 <= i < |elems| ==> DistinctKeys(elems[i])
    case Obj(fields) =>
      (forall i, j :: 0 <= i < j < |fields| ==> fields[i].0 != fields[j].0) &&
      forall i :: 0 <= i < |fields| ==> DistinctKeys(fields[i].1)
    case _ => true
  }

  /** No two matches share a path. */
  ghost predicate DistinctPaths(s: seq<Match>) {
    forall i, j :: 0 <= i < j < |s| ==> s[i].0 != s[j].0
  }

  /** With distinct keys, each path occurs at most once among the matches. */
  lemma {:induction false} CrawlDistinct(v: Value, path: JsonPath, pred: int -> bool)
    requires DistinctKeys(v)
    ensures DistinctPaths(Crawl(v, path, pred))
    decreases v, 1
  {
    match v
    case Arr(elems) => ElemsDistinct(v, path, pred, |elems|);
    case Obj(fields) => FieldsDistinct(v, path, pred, |fields|);
    case _ =>
  }

  lemma {:induction false} ElemsDistinct(v: Value, path: JsonPath, pred: int -> bool, k: nat)
    requires v.Arr? && k <= |v.elems| && DistinctKeys(v)
    ensures DistinctPaths(CrawlElems(v, path, pred, k))
    decreases v, 0, k
  {
    if k > 0 {
      var a: seq<Match> := CrawlElems(v, path, pred, k - 1);
      var sub := Append(path, Index(k - 1));
      var b: seq<Match> := Crawl(v.elems[k - 1], sub, pred);
      ElemsDistinct(v, path, pred, k - 1);
      CrawlDistinct(v.elems[k - 1], sub, pred);
      forall i: int, j: int | 0 <= i < |a| <= j < |a + b| ensures (a + b)[i].0 != (a + b)[j].0 {
        ElemsSound(v, path, pred, k - 1, a[i]);
        CrawlSound(v.elems[k - 1], sub, pred, b[j - |a|]);
        assert b[j - |a|].0.parts[|path.parts|] == sub.parts[|path.parts|];
      }
    }
  }

  lemma {:induction false} FieldsDistinct(v: Value, path: JsonPath, pred: int -> bool, k: nat)
    requires v.Obj? && k <= |v.fields| && DistinctKeys(v)
    ensures DistinctPaths(CrawlFields(v, path, pred, k))
    decreases v, 0, k
  {
    if k > 0 {
      var a: seq<Match> := CrawlFields(v, path, pred, k - 1);
      var sub := Append(path, Field(v.fields[k - 1].0));
      var b: seq<Match> := Crawl(v.fields[k - 1].1, sub, pred);
      FieldsDistinct(v, path, pred, k - 1);
      CrawlDistinct(v.fields[k - 1].1, sub, pred);
      forall i: int, j: int | 0 <= i < |a| <= j < |a + b| ensures (a + b)[i].0 != (a + b)[j].0 {
        FieldsSound(v, path, pred, k - 1, a[i]);
        CrawlSound(v.fields[k - 1].1, sub, pred, b[j - |a|]);
        assert b[j - |a|].0.parts[|path.parts|] == sub.parts[|path.parts|];
      }
    }
  }

  // ---------------------------------------------------------------------
  // Example

  /** A document with leaves inside and outside the window of the years 2020 to 2024 (up to the first instant of 2025). */
  lemma CrawlExample()
    ensures
      var doc := Obj([("a", Num(Integer(1678912200))),
                      ("b", Arr([Num(Integer(1)), Num(Integer(1678967840))])),
                      ("c", Obj([("d", Null)]))]);
      var window := (ts: int) => 1577836800 <= ts <= 1735689600;
      Crawl(doc, NewPath(), window) ==
        [(JsonPath([Field("a")]), 1678912200), (JsonPath([Field("b"), Index(1)]), 1678967840)]
  {
    var b := Arr([Num(Integer(1)), Num(Integer(1678967840))]);
    var c := Obj([("d", Null)]);
    var doc := Obj([("a", Num(Integer(1678912200))), ("b", b), ("c", c)]);
    var window := (ts: int) => 1577836800 <= ts <= 1735689600;
    var pb := JsonPath([Field("b")]);
    assert CrawlElems(b, pb, window, 1) == [];
    var pb1 := JsonPath([Field("b"), Index(1)]);
    assert Append(pb, Index(1)) == pb1;
    assert AsI64(Integer(1678967840)) == Some(1678967840);
    assert Crawl(Num(Integer(1678967840)), pb1, window) == [(pb1, 1678967840)];
    assert CrawlElems(b, pb, window, 2) == [(JsonPath([Field("b"), Index(1)]), 1678967840)];
    assert CrawlFields(c, JsonPath([Field("c")]), window, 1) == [];
    assert Append(NewPath(), Field("a")) == JsonPath([Field("a")]);
    assert Append(NewPath(), Field("b")) == pb;
    assert AsI64(Integer(1678912200)) == Some(1678912200);
    assert CrawlFields(doc, NewPath(), window, 1) == [(JsonPath([Field("a")]), 1678912200)];
    assert CrawlFields(doc, NewPath(), window, 2) ==
      [(JsonPath([Field("a")]), 1678912200), (JsonPath([Field("b"), Index(1)]), 1678967840)];
  }
}
