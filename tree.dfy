/**
  The collapsible tree view of a document, reduced to its decisions: which
  containers open by default and which number is highlighted, given an
  optional target path. The view is modelled as the pre-order list of its
  nodes, each with its name, path, kind and the two decisions.
 */
module Tree {
  import opened Wrappers
  import Decimal
  import opened JsonPaths
  import opened MatchVecs
  import opened JsonCrawl

  datatype Kind = NullLeaf | BoolLeaf | NumberLeaf | StringLeaf | ArrayNode | ObjectNode

  predicate IsContainer(k: Kind) {
    k == ArrayNode || k == ObjectNode
  }

  /** One node of the view. `open` is the default-open decision of a
      collapsing header; `highlighted` the background colour of a number. */
  datatype Row = Row(name: string, path: JsonPath, kind: Kind, open: bool, highlighted: bool)

  /** A container opens by default when there is a path to open and its own path is a prefix of it. */
  predicate OpensFor(path: JsonPath, target: Option<JsonPath>) {
    target.Some? && IsPrefix(path, target.value)
  }

  /** A number is highlighted when there is a path to open and it is exactly the number's path. */
  predicate HighlightsFor(path: JsonPath, target: Option<JsonPath>) {
    target.Some? && target.value == path
  }

  /** The tree view of `v` shown under `name` at `path`, as the pre-order list of nodes it lays out. */
  function TreeRows(v: Value, name: string, path: JsonPath, target: Option<JsonPath>): (rows: seq<Row>)
    ensures |rows| >= 1 && rows[0].name == name && rows[0].path == path
    decreases v, 1
  {
    match v
    case Null => [Row(name, path, NullLeaf, false, false)]
    case Bool(_) => [Row(name, path, BoolLeaf, false, false)]
    case Num(_) => [Row(name, path, NumberLeaf, false, HighlightsFor(path, target))]
    case Str(_) => [Row(name, path, StringLeaf, false, false)]
    case Arr(elems) => [Row(name, path, ArrayNode, OpensFor(path, target), false)] + ElemRows(v, path, target, |elems|)
    case Obj(fields) => [Row(name, path, ObjectNode, OpensFor(path, target), false)] + FieldRows(v, path, target, |fields|)
  }

  /** The first `k` children of an array: labelled by their index, at `path` extended by that index. */
  function ElemRows(v: Value, path: JsonPath, target: Option<JsonPath>, k: nat): seq<Row>
    requires v.Arr? && k <= |v.elems|
    decreases v, 0, k
  {
    if k == 0 then []
    else
      var sub := TreeRows(v.elems[k - 1], Decimal.NatToDecimal(k - 1), Append(path, Index(k - 1)), target);
      ElemRows(v, path, target, k - 1) + sub
  }

  /** The first `k` members of an object: labelled by their key, at `path` extended by that key. */
  function FieldRows(v: Value, path: JsonPath, target: Option<JsonPath>, k: nat): seq<Row>
    requires v.Obj? && k <= |v.fields|
    decreases v, 0, k
  {
    if k == 0 then []
    else
      var (key, sub) := v.fields[k - 1];
      FieldRows(v, path, target, k - 1) + TreeRows(sub, key, Append(path, Field(key)), target)
  }

  // ---------------------------------------------------------------------
  // The per-node rule

  /** What every node of the view satisfies. */
  predicate NodeRule(r: Row, target: Option<JsonPath>) {
    (IsContainer(r.kind) ==> (r.open <==> OpensFor(r.path, target))) &&
    (!IsContainer(r.kind) ==> !r.open) &&
    (r.kind == NumberLeaf ==> (r.highlighted <==> HighlightsFor(r.path, target))) &&
    (r.kind != NumberLeaf ==> !r.highlighted)
  }

  /** A node inside the children of a container at `path`: below `path`, and following the rule. */
  predicate ChildRule(r: Row, path: JsonPath, target: Option<JsonPath>) {
    NodeRule(r, target) && IsPrefix(path, r.path) && |r.path.parts| > |path.parts|
  }

  /** Every node follows the rule, and lies at or below the path the view starts from. */
  lemma {:induction false} TreeRule(v: Value, name: string, path: JsonPath, target: Option<JsonPath>)
    ensures var rows := TreeRows(v, name, path, target);
      |rows| >= 1 && rows[0].path == path && NodeRule(rows[0], target) &&
      forall r :: r in rows[1..] ==> ChildRule(r, path, target)
    decreases v, 1
  {
    var rows := TreeRows(v, name, path, target);
    match v
    case Arr(elems) =>
      ElemRule(v, path, target, |elems|);
      assert rows[1..] == ElemRows(v, path, target, |elems|);
    case Obj(fields) =>
      FieldRule(v, path, target, |fields|);
      assert rows[1..] == FieldRows(v, path, target, |fields|);
    case _ =>
  }

  lemma {:induction false} ElemRule(v: Value, path: JsonPath, target: Option<JsonPath>, k: nat)
    requires v.Arr? && k <= |v.elems|
    ensures forall r :: r in ElemRows(v, path, target, k) ==>
      ChildRule(r, path, target) && r.path.parts[|path.parts|].Index? && r.path.parts[|path.parts|].index < k
    decreases v, 0, k
  {
    if k > 0 {
      var sub := Append(path, Index(k - 1));
      var b := TreeRows(v.elems[k - 1], Decimal.NatToDecimal(k - 1), sub, target);
      ElemRule(v, path, target, k - 1);
      TreeRule(v.elems[k - 1], Decimal.NatToDecimal(k - 1), sub, target);
      forall r | r in b
        ensures ChildRule(r, path, target) && r.path.parts[|path.parts|] == Index(k - 1)
      {
        BelowChild(r, b, path, sub, target);
      }
    }
  }

  lemma {:induction false} FieldRule(v: Value, path: JsonPath, target: Option<JsonPath>, k: nat)
    requires v.Obj? && k <= |v.fields|
    ensures forall r :: r in FieldRows(v, path, target, k) ==>
      ChildRule(r, path, target) && exists j :: 0 <= j < k && r.path.parts[|path.parts|] == Field(v.fields[j].0)
    decreases v, 0, k
  {
    if k > 0 {
      var (key, subVal) := v.fields[k - 1];
      var sub := Append(path, Field(key));
      var b := TreeRows(subVal, key, sub, target);
      FieldRule(v, path, target, k - 1);
      TreeRule(subVal, key, sub, target);
      forall r | r in b
        ensures ChildRule(r, path, target) && r.path.parts[|path.parts|] == Field(v.fields[k - 1].0)
      {
        BelowChild(r, b, path, sub, target);
      }
    }
  }

  /** The nodes of a child's subtree lie below the parent, one step further down. */
  lemma BelowChild(r: Row, b: seq<Row>, path: JsonPath, sub: JsonPath, target: Option<JsonPath>)
    requires r in b && |b| >= 1 && b[0].path == sub && NodeRule(b[0], target)
    requires forall x :: x in b[1..] ==> ChildRule(x, sub, target)
    requires |sub.parts| == |path.parts| + 1 && sub.parts[..|path.parts|] == path.parts
    ensures ChildRule(r, path, target) && r.path.parts[|path.parts|] == sub.parts[|path.parts|]
  {
    var i :| 0 <= i < |b| && b[i] == r;
    if i > 0 {
      assert r in b[1..];
    }
    assert IsPrefix(sub, r.path);
    assert r.path.parts[..|path.parts|] == r.path.parts[..|sub.parts|][..|path.parts|];
  }

  /** Every node of a view follows the rule. */
  lemma NodeOf(r: Row, rows: seq<Row>, path: JsonPath, target: Option<JsonPath>)
    requires r in rows && |rows| >= 1 && NodeRule(rows[0], target)
    requires forall x :: x in rows[1..] ==> ChildRule(x, path, target)
    ensures NodeRule(r, target)
  {
    var i :| 0 <= i < |rows| && rows[i] == r;
    if i > 0 {
      assert r in rows[1..];
    }
  }

  /** Without a target nothing opens by default and nothing is highlighted. */
  lemma NoTargetNoDecisions(v: Value, name: string, path: JsonPath)
    ensures forall r :: r in TreeRows(v, name, path, None) ==> !r.open && !r.highlighted
  {
    TreeRule(v, name, path, None);
    var rows := TreeRows(v, name, path, None);
    forall r | r in rows ensures !r.open && !r.highlighted {
      NodeOf(r, rows, path, None);
    }
  }

  // ---------------------------------------------------------------------
  // Node paths

  /** No two nodes of the view share a path. */
  predicate DistinctRowPaths(rows: seq<Row>) {
    forall i, j :: 0 <= i < j < |rows| ==> rows[i].path != rows[j].path
  }

  /** With distinct keys, every node of the view has a path of its own. */
  lemma {:induction false} TreeDistinct(v: Value, name: string, path: JsonPath, target: Option<JsonPath>)
    requires DistinctKeys(v)
    ensures DistinctRowPaths(TreeRows(v, name, path, target))
    decreases v, 1
  {
    var rows := TreeRows(v, name, path, target);
    TreeRule(v, name, path, target);
    match v {
      case Arr(elems) =>
        ElemDistinct(v, path, target, |elems|);
        assert rows[1..] == ElemRows(v, path, target, |elems|);
      case Obj(fields) =>
        FieldDistinct(v, path, target, |fields|);
        assert rows[1..] == FieldRows(v, path, target, |fields|);
      case _ =>
    }
    forall i, j | 0 <= i < j < |rows| ensures rows[i].path != rows[j].path {
      assert rows[j] in rows[1..];
      if i > 0 {
        assert rows[i] == rows[1..][i - 1] && rows[j] == rows[1..][j - 1];
      }
    }
  }

  lemma {:induction false} ElemDistinct(v: Value, path: JsonPath, target: Option<JsonPath>, k: nat)
    requires v.Arr? && k <= |v.elems| && DistinctKeys(v)
    ensures DistinctRowPaths(ElemRows(v, path, target, k))
    decreases v, 0, k
  {
    if k > 0 {
      var sub := Append(path, Index(k - 1));
      var a: seq<Row> := ElemRows(v, path, target, k - 1);
      var b: seq<Row> := TreeRows(v.elems[k - 1], Decimal.NatToDecimal(k - 1), sub, target);
      ElemDistinct(v, path, target, k - 1);
      ElemRule(v, path, target, k - 1);
      TreeDistinct(v.elems[k - 1], Decimal.NatToDecimal(k - 1), sub, target);
      TreeRule(v.elems[k - 1], Decimal.NatToDecimal(k - 1), sub, target);
      forall i, j | 0 <= i < |a| <= j < |a + b| ensures (a + b)[i].path != (a + b)[j].path {
        assert (a + b)[i] == a[i] && a[i] in a;
        assert (a + b)[j] == b[j - |a|] && b[j - |a|] in b;
        BelowChild(b[j - |a|], b, path, sub, target);
      }
    }
  }

  lemma {:induction false} FieldDistinct(v: Value, path: JsonPath, target: Option<JsonPath>, k: nat)
    requires v.Obj? && k <= |v.fields| && DistinctKeys(v)
    ensures DistinctRowPaths(FieldRows(v, path, target, k))
    decreases v, 0, k
  {
    if k > 0 {
      var (key, subVal) := v.fields[k - 1];
      var sub := Append(path, Field(key));
      var a: seq<Row> := FieldRows(v, path, target, k - 1);
      var b: seq<Row> := TreeRows(subVal, key, sub, target);
      FieldDistinct(v, path, target, k - 1);
      FieldRule(v, path, target, k - 1);
      TreeDistinct(subVal, key, sub, target);
      TreeRule(subVal, key, sub, target);
      forall i, j | 0 <= i < |a| <= j < |a + b| ensures (a + b)[i].path != (a + b)[j].path {
        assert (a + b)[i] == a[i] && a[i] in a;
        assert (a + b)[j] == b[j - |a|] && b[j - |a|] in b;
        BelowChild(b[j - |a|], b, path, sub, target);
      }
    }
  }

  lemma {:induction false} ElemRowsContain(v: Value, path: JsonPath, target: Option<JsonPath>, k: nat, i: nat, r: Row)
    requires v.Arr? && i < k <= |v.elems|
    requires r in TreeRows(v.elems[i], Decimal.NatToDecimal(i), Append(path, Index(i)), target)
    ensures r in ElemRows(v, path, target, k)
    decreases k
  {
    if i < k - 1 {
      ElemRowsContain(v, path, target, k - 1, i, r);
    }
  }

  lemma {:induction false} FieldRowsContain(v: Value, path: JsonPath, target: Option<JsonPath>, k: nat, j: nat, r: Row)
    requires v.Obj? && j < k <= |v.fields|
    requires r in TreeRows(v.fields[j].1, v.fields[j].0, Append(path, Field(v.fields[j].0)), target)
    ensures r in FieldRows(v, path, target, k)
    decreases k
  {
    if j < k - 1 {
      FieldRowsContain(v, path, target, k - 1, j, r);
    }
  }

  /** `rows` has a node at `parts`: the number node if `leaf`, a container otherwise. */
  predicate HasNode(rows: seq<Row>, parts: seq<PathPart>, leaf: bool) {
    exists r :: r in rows && r.path.parts == parts && (if leaf then r.kind == NumberLeaf else IsContainer(r.kind))
  }

  /**
    Along steps that reach an integer leaf, the view has a node at every
    depth: containers on the way, and the number at the end.
   */
  lemma {:induction false} StepsHaveNodes(v: Value, name: string, path: JsonPath, target: Option<JsonPath>,
                                          steps: seq<PathPart>, n: int, l: nat)
    requires Reaches(v, steps, n) && l <= |steps|
    ensures HasNode(TreeRows(v, name, path, target), path.parts + steps[..l], l == |steps|)
    decreases v
  {
    var rows := TreeRows(v, name, path, target);
    if l == 0 {
      assert rows[0] in rows && path.parts + steps[..0] == path.parts;
    } else {
      var rest := steps[1..];
      assert path.parts + steps[..l] == (path.parts + [steps[0]]) + rest[..l - 1];
      match steps[0]
      case Index(i) =>
        var sub := Append(path, Index(i));
        var childRows := TreeRows(v.elems[i], Decimal.NatToDecimal(i), sub, target);
        StepsHaveNodes(v.elems[i], Decimal.NatToDecimal(i), sub, target, rest, n, l - 1);
        var r :| r in childRows && r.path.parts == sub.parts + rest[..l - 1] &&
          (if l == |steps| then r.kind == NumberLeaf else IsContainer(r.kind));
        ElemRowsContain(v, path, target, |v.elems|, i, r);
        assert rows[1..] == ElemRows(v, path, target, |v.elems|);
        assert r in rows;
      case Field(key) =>
        var j :| 0 <= j < |v.fields| && v.fields[j].0 == key && Reaches(v.fields[j].1, rest, n);
        var sub := Append(path, Field(key));
        var childRows := TreeRows(v.fields[j].1, key, sub, target);
        StepsHaveNodes(v.fields[j].1, key, sub, target, rest, n, l - 1);
        var r :| r in childRows && r.path.parts == sub.parts + rest[..l - 1] &&
          (if l == |steps| then r.kind == NumberLeaf else IsContainer(r.kind));
        FieldRowsContain(v, path, target, |v.fields|, j, r);
        assert rows[1..] == FieldRows(v, path, target, |v.fields|);
        assert r in rows;
    }
  }

  /** Every match of the crawler has a number node at its path. */
  lemma CrawlMatchHasNode(v: Value, name: string, path: JsonPath, pred: int -> bool,
                          target: Option<JsonPath>, m: Match)
    requires m in Crawl(v, path, pred)
    ensures exists r :: r in TreeRows(v, name, path, target) && r.path == m.0 && r.kind == NumberLeaf
  {
    CrawlSound(v, path, pred, m);
    var steps := m.0.parts[|path.parts|..];
    StepsHaveNodes(v, name, path, target, steps, m.1, |steps|);
    assert path.parts + steps[..|steps|] == m.0.parts;
  }

  /** Every node of a view with target `target` follows the per-node rule. */
  lemma AllNodesFollowRule(v: Value, name: string, path: JsonPath, target: Option<JsonPath>)
    ensures forall r :: r in TreeRows(v, name, path, target) ==> NodeRule(r, target)
  {
    var rows := TreeRows(v, name, path, target);
    TreeRule(v, name, path, target);
    forall r | r in rows ensures NodeRule(r, target) {
      NodeOf(r, rows, path, target);
    }
  }

  /** With a crawler's match as the target, exactly one node is highlighted: the matched number. */
  lemma CrawlTargetHighlightsOne(v: Value, name: string, path: JsonPath, pred: int -> bool, m: Match)
    requires DistinctKeys(v) && m in Crawl(v, path, pred)
    ensures var rows := TreeRows(v, name, path, Some(m.0));
      (exists k :: 0 <= k < |rows| && rows[k].highlighted && rows[k].kind == NumberLeaf && rows[k].path == m.0) &&
      (forall i, j :: 0 <= i < |rows| && 0 <= j < |rows| && rows[i].highlighted && rows[j].highlighted ==> i == j)
  {
    var target := Some(m.0);
    var rows := TreeRows(v, name, path, target);
    AllNodesFollowRule(v, name, path, target);
    TreeDistinct(v, name, path, target);
    CrawlMatchHasNode(v, name, path, pred, target, m);
    var r :| r in rows && r.path == m.0 && r.kind == NumberLeaf;
    var k :| 0 <= k < |rows| && rows[k] == r;
    assert rows[k].highlighted;
    forall i, j | 0 <= i < |rows| && 0 <= j < |rows| && rows[i].highlighted && rows[j].highlighted ensures i == j {
      assert rows[i] in rows && rows[j] in rows;
    }
  }

  /**
    With a crawler's match as the target, the nodes open by default are
    exactly the containers on the way to it, and every one of them is there.
   */
  lemma CrawlTargetOpensPath(v: Value, name: string, path: JsonPath, pred: int -> bool, m: Match)
    requires m in Crawl(v, path, pred)
    ensures var rows := TreeRows(v, name, path, Some(m.0));
      (forall r :: r in rows ==> (r.open <==> IsContainer(r.kind) && IsPrefix(r.path, m.0))) &&
      (forall l :: |path.parts| <= l < |m.0.parts| ==> HasNode(rows, m.0.parts[..l], false))
  {
    var target := Some(m.0);
    var rows := TreeRows(v, name, path, target);
    AllNodesFollowRule(v, name, path, target);
    CrawlSound(v, path, pred, m);
    var steps := m.0.parts[|path.parts|..];
    forall l | |path.parts| <= l < |m.0.parts| ensures HasNode(rows, m.0.parts[..l], false) {
      StepsHaveNodes(v, name, path, target, steps, m.1, l - |path.parts|);
      assert path.parts + steps[..l - |path.parts|] == m.0.parts[..l];
    }
  }

  // ---------------------------------------------------------------------
  // Nodes and the document

  /**
    The steps `steps`, taken from `v`, lead to the value `w`. As for
    `Reaches`, an object step may go through any member whose key matches.
   */
  ghost predicate Locates(v: Value, steps: seq<PathPart>, w: Value)
    decreases v
  {
    if steps == [] then w == v
    else match steps[0]
      case Index(i) => v.Arr? && i < |v.elems| && Locates(v.elems[i], steps[1..], w)
      case Field(key) =>
        v.Obj? && exists j :: 0 <= j < |v.fields| && v.fields[j].0 == key && Locates(v.fields[j].1, steps[1..], w)
  }

  /** The kind of node the view draws for a value: integer or float, every number is a `NumberLeaf`. */
  function KindOf(w: Value): (k: Kind)
    ensures IsContainer(k) <==> w.Arr? || w.Obj?
    ensures k == NumberLeaf <==> w.Num?
  {
    match w
    case Null => NullLeaf
    case Bool(_) => BoolLeaf
    case Num(_) => NumberLeaf
    case Str(_) => StringLeaf
    case Arr(_) => ArrayNode
    case Obj(_) => ObjectNode
  }

  /** A node among the first `k` array children comes from the subtree of one of them. */
  lemma {:induction false} ElemRowsFrom(v: Value, path: JsonPath, target: Option<JsonPath>, k: nat, r: Row) returns (i: nat)
    requires v.Arr? && k <= |v.elems| && r in ElemRows(v, path, target, k)
    ensures i < k && r in TreeRows(v.elems[i], Decimal.NatToDecimal(i), Append(path, Index(i)), target)
    decreases k
  {
    var sub := TreeRows(v.elems[k - 1], Decimal.NatToDecimal(k - 1), Append(path, Index(k - 1)), target);
    if r in sub {
      i := k - 1;
    } else {
      i := ElemRowsFrom(v, path, target, k - 1, r);
    }
  }

  /** A node among the first `k` object children comes from the subtree of one of them. */
  lemma {:induction false} FieldRowsFrom(v: Value, path: JsonPath, target: Option<JsonPath>, k: nat, r: Row) returns (j: nat)
    requires v.Obj? && k <= |v.fields| && r in FieldRows(v, path, target, k)
    ensures j < k && r in TreeRows(v.fields[j].1, v.fields[j].0, Append(path, Field(v.fields[j].0)), target)
    decreases k
  {
    var (key, subVal) := v.fields[k - 1];
    if r in TreeRows(subVal, key, Append(path, Field(key)), target) {
      j := k - 1;
    } else {
      j := FieldRowsFrom(v, path, target, k - 1, r);
    }
  }

  /** Every node lies below the view's path, and its kind is that of a value found at its path. */
  lemma {:induction false} RowLocated(v: Value, name: string, path: JsonPath, target: Option<JsonPath>, r: Row)
    returns (w: Value)
    requires r in TreeRows(v, name, path, target)
    ensures IsPrefix(path, r.path)
    ensures Locates(v, r.path.parts[|path.parts|..], w) && r.kind == KindOf(w)
    decreases v, 1
  {
    var rows := TreeRows(v, name, path, target);
    if r == rows[0] {
      w := v;
      assert r.path.parts[|path.parts|..] == [];
    } else {
      assert r in rows[1..];
      if v.Arr? {
        assert rows[1..] == ElemRows(v, path, target, |v.elems|);
        w := ElemRowLocated(v, path, target, r);
      } else {
        assert rows[1..] == FieldRows(v, path, target, |v.fields|);
        w := FieldRowLocated(v, path, target, r);
      }
    }
  }

  /** The steps from a container to a node below its child at `sub`: the child's step, then the rest. */
  lemma StepsBelowChild(path: JsonPath, sub: JsonPath, q: JsonPath)
    requires |sub.parts| == |path.parts| + 1 && sub.parts[..|path.parts|] == path.parts && IsPrefix(sub, q)
    ensures IsPrefix(path, q)
    ensures var steps := q.parts[|path.parts|..];
      |steps| >= 1 && steps[0] == sub.parts[|path.parts|] && steps[1..] == q.parts[|sub.parts|..]
  {
  }

  lemma {:induction false} ElemRowLocated(v: Value, path: JsonPath, target: Option<JsonPath>, r: Row)
    returns (w: Value)
    requires v.Arr? && r in ElemRows(v, path, target, |v.elems|)
    ensures IsPrefix(path, r.path)
    ensures Locates(v, r.path.parts[|path.parts|..], w) && r.kind == KindOf(w)
    decreases v, 0
  {
    var i := ElemRowsFrom(v, path, target, |v.elems|, r);
    var sub := Append(path, Index(i));
    w := RowLocated(v.elems[i], Decimal.NatToDecimal(i), sub, target, r);
    StepsBelowChild(path, sub, r.path);
  }

  lemma {:induction false} FieldRowLocated(v: Value, path: JsonPath, target: Option<JsonPath>, r: Row)
    returns (w: Value)
    requires v.Obj? && r in FieldRows(v, path, target, |v.fields|)
    ensures IsPrefix(path, r.path)
    ensures Locates(v, r.path.parts[|path.parts|..], w) && r.kind == KindOf(w)
    decreases v, 0
  {
    var j := FieldRowsFrom(v, path, target, |v.fields|, r);
    var sub := Append(path, Field(v.fields[j].0));
    w := RowLocated(v.fields[j].1, v.fields[j].0, sub, target, r);
    StepsBelowChild(path, sub, r.path);
  }

  /**
    Every node of the view, whatever the target, decides as the value at its
    path demands: an array or object opens exactly when its path is a prefix
    of the target, a number (integer or float) is highlighted exactly when
    its path is the target, and null, booleans and strings do neither.
   */
  lemma NodesFollowDocument(v: Value, name: string, path: JsonPath, target: Option<JsonPath>, r: Row)
    requires r in TreeRows(v, name, path, target)
    ensures IsPrefix(path, r.path)
    ensures exists w :: (Locates(v, r.path.parts[|path.parts|..], w) && r.kind == KindOf(w) &&
      (r.open <==> (w.Arr? || w.Obj?) && OpensFor(r.path, target)) &&
      (r.highlighted <==> w.Num? && HighlightsFor(r.path, target)))
  {
    var w := RowLocated(v, name, path, target, r);
    AllNodesFollowRule(v, name, path, target);
    assert NodeRule(r, target);
  }
}
