/**
  The location of a node inside a JSON document: a sequence of object-field
  and array-index steps, built by copying and extending, and rendered as
  access-path text such as `a.b[3].c`.
 */
module JsonPaths {
  import Decimal

  /** One step from a container to one of its children. */
  datatype PathPart = Field(name: string) | Index(index: nat)

  /** A path from the root; the steps are in root-to-node order. */
  datatype JsonPath = JsonPath(parts: seq<PathPart>)

  /** `JsonPath::new`: the path of the root. */
  function NewPath(): (p: JsonPath)
    ensures |p.parts| == 0
    ensures Render(p) == ""
  {
    JsonPath([])
  }

  /**
    `JsonPath::append`: a new path one step longer than `p`. Paths are
    values, so `p` itself is left as it was and two siblings extended from
    the same parent never share steps.
   */
  function Append(p: JsonPath, part: PathPart): (r: JsonPath)
    ensures |r.parts| == |p.parts| + 1
    ensures r.parts[..|p.parts|] == p.parts
    ensures r.parts[|p.parts|] == part
  {
    JsonPath(p.parts + [part])
  }

  // ---------------------------------------------------------------------
  // Rendering

  /** The text of the step at position `pos`: indices always in brackets,
      a field bare at position 0 and after a dot elsewhere; field names are
      copied as they are, with no quoting or escaping. */
  function Piece(pos: nat, part: PathPart): string {
    match part
    case Index(i) => "[" + Decimal.NatToDecimal(i) + "]"
    case Field(name) => if pos == 0 then name else "." + name
  }

  /** The pieces of `parts`, the first of them taken to stand at position `start`. */
  function RenderFrom(parts: seq<PathPart>, start: nat): string
    decreases |parts|
  {
    if parts == [] then "" else Piece(start, parts[0]) + RenderFrom(parts[1..], start + 1)
  }

  /** The display text of a path. */
  function Render(p: JsonPath): string {
    RenderFrom(p.parts, 0)
  }

  lemma {:induction false} RenderFromSnoc(parts: seq<PathPart>, start: nat, part: PathPart)
    ensures RenderFrom(parts + [part], start) == RenderFrom(parts, start) + Piece(start + |parts|, part)
    decreases |parts|
  {
    if parts != [] {
      assert (parts + [part])[1..] == parts[1..] + [part];
      RenderFromSnoc(parts[1..], start + 1, part);
    }
  }

  lemma RenderPrefixStep(parts: seq<PathPart>, i: nat)
    requires i < |parts|
    ensures RenderFrom(parts[..i + 1], 0) == RenderFrom(parts[..i], 0) + Piece(i, parts[i])
  {
    assert parts[..i + 1] == parts[..i] + [parts[i]];
    RenderFromSnoc(parts[..i], 0, parts[i]);
  }

  /** Rendering is compositional: appending a step appends that step's piece. */
  lemma RenderAppend(p: JsonPath, part: PathPart)
    ensures Render(Append(p, part)) == Render(p) + Piece(|p.parts|, part)
    ensures part.Index? ==>
      Render(Append(p, part)) == Render(p) + "[" + Decimal.NatToDecimal(part.index) + "]"
    ensures part.Field? && p.parts == [] ==> Render(Append(p, part)) == part.name
    ensures part.Field? && p.parts != [] ==> Render(Append(p, part)) == Render(p) + "." + part.name
  {
    RenderFromSnoc(p.parts, 0, part);
  }

  /**
    `Display for JsonPath`: the loop that pushes one piece per step onto a
    growing string.
   */
  method Format(p: JsonPath) returns (out: string)
    ensures out == Render(p)
  {
    out := "";
    var i := 0;
    while i < |p.parts|
      invariant 0 <= i <= |p.parts|
      invariant out == RenderFrom(p.parts[..i], 0)
    {
      var z := Piece(i, p.parts[i]);
      RenderPrefixStep(p.parts, i);
      out := out + z;
      i := i + 1;
    }
    assert p.parts[..i] == p.parts;
  }

  /** Examples of the notation. */
  lemma RenderExamples()
    ensures Render(JsonPath([Field("a"), Field("b"), Index(3), Field("c")])) == "a.b[3].c"
    ensures Render(Append(NewPath(), Index(0))) == "[0]"
  {
  }

  /** Since field names are not escaped, two different paths can render alike. */
  lemma RenderNotInjective()
    ensures JsonPath([Field("a.b")]) != JsonPath([Field("a"), Field("b")])
    ensures Render(JsonPath([Field("a.b")])) == Render(JsonPath([Field("a"), Field("b")]))
  {
    assert JsonPath([Field("a.b")]).parts[0] != JsonPath([Field("a"), Field("b")]).parts[0];
  }

  // ---------------------------------------------------------------------
  // Prefix relation (structural; see README on why it is an assumption)

  /** `p` is an ancestor-or-self of `q`: `q`'s first `|p|` steps are `p`'s. */
  predicate IsPrefix(p: JsonPath, q: JsonPath) {
    |p.parts| <= |q.parts| && q.parts[..|p.parts|] == p.parts
  }

  /** The prefix relation is a partial order with the root path at the bottom,
      and appending yields a strict extension. */
  lemma PrefixOrder(p: JsonPath, q: JsonPath, r: JsonPath, part: PathPart)
    ensures IsPrefix(p, p)
    ensures IsPrefix(NewPath(), p)
    ensures IsPrefix(p, q) && IsPrefix(q, p) ==> p == q
    ensures IsPrefix(p, q) && IsPrefix(q, r) ==> IsPrefix(p, r)
    ensures IsPrefix(p, Append(p, part)) && p != Append(p, part)
  {
    if IsPrefix(p, q) && IsPrefix(q, p) {
      assert p.parts == q.parts;
    }
    if IsPrefix(p, q) && IsPrefix(q, r) {
      assert r.parts[..|p.parts|] == r.parts[..|q.parts|][..|p.parts|];
    }
  }
}
