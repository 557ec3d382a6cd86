/**
  The `u v w` edge-file reader `get_adjacency_nodes_from_file` of the
  integer prototypes: each readable line that splits into exactly three
  `i32` tokens contributes the edges of that line which leave `node`.
*/
module EdgeFile {
  import opened Wrappers
  import opened Decimal
  import opened Tokens

  /** `Edge { weight, from, to }`. */
  datatype Edge = Edge(weight: int, from: int, to: int)

  /** One item of the line iterator: a line, or an I/O error reading it. */
  datatype LineRead = Line(text: string) | ReadError

  /** What a line's text amounts to. */
  datatype LineParse = Triple(u: int, v: int, w: int) | NotThree | Panic

  /**
    `tokens.map(|x| x.parse().unwrap()).collect()`: `None` when some token
    fails to parse (the `unwrap` panics), else every token's value in order.
  */
  function ParseAll(ts: seq<string>): Option<seq<int>>
  {
    if ts == [] then Some([])
    else
      match ParseI32(ts[0])
      case None => None
      case Some(n) =>
        match ParseAll(ts[1..])
        case None => None
        case Some(rest) => Some([n] + rest)
  }

  function ParseLine(text: string): LineParse
  {
    match ParseAll(Split(text))
    case None => Panic
    case Some(p) => if |p| == 3 then Triple(p[0], p[1], p[2]) else NotThree
  }

  /** The edges a parsed line `u v w` contributes for `node`: forward, then backward. */
  function LineEdges(node: int, u: int, v: int, w: int): (es: seq<Edge>)
    ensures forall e :: e in es ==> e.from == node && e.weight == w
  {
    (if u == node then [Edge(w, u, v)] else []) + (if v == node then [Edge(w, v, u)] else [])
  }

  /** One loop iteration's contribution; `Panicked` when the `unwrap` fails. */
  function LineContribution(l: LineRead, node: int): Run<seq<Edge>> {
    match l
    case ReadError => Done([])
    case Line(text) =>
      match ParseLine(text)
      case Panic => Panicked
      case NotThree => Done([])
      case Triple(u, v, w) => Done(LineEdges(node, u, v, w))
  }

  /** Joins two partial results: a panic in either is a panic. */
  function Then(x: Run<seq<Edge>>, y: Run<seq<Edge>>): (r: Run<seq<Edge>>)
    ensures r.Done? <==> x.Done? && y.Done?
    ensures r.Done? ==> r.value == x.value + y.value
  {
    match x
    case Panicked => Panicked
    case Done(a) =>
      match y
      case Panicked => Panicked
      case Done(b) => Done(a + b)
  }

  lemma ThenAssoc(x: Run<seq<Edge>>, y: Run<seq<Edge>>, z: Run<seq<Edge>>)
    ensures Then(Then(x, y), z) == Then(x, Then(y, z))
  {
    if x.Done? && y.Done? && z.Done? {
      assert x.value + y.value + z.value == x.value + (y.value + z.value);
    }
  }

  /** `l` is a readable line with a token that does not parse: the `unwrap` panics. */
  predicate Panics(l: LineRead) {
    l.Line? && ParseLine(l.text).Panic?
  }

  /** The specification: the contributions of all lines, in line order, up to the first panic. */
  function EdgesOf(lines: seq<LineRead>, node: int): Run<seq<Edge>>
  {
    if lines == [] then Done([])
    else Then(EdgesOf(lines[..|lines| - 1], node), LineContribution(lines[|lines| - 1], node))
  }

  /** `e` is one of the edges line `l` contributes for `node`. */
  predicate Contributes(l: LineRead, node: int, e: Edge) {
    l.Line? && ParseLine(l.text).Triple? &&
    var t := ParseLine(l.text);
    e in LineEdges(node, t.u, t.v, t.w)
  }

  /**
    `get_adjacency_nodes_from_file`. `file` is `None` when the file cannot be
    opened; the source then returns `Ok` of an empty vector.
  */
  method GetAdjacencyNodesFromFile(file: Option<seq<LineRead>>, node: int) returns (r: Run<seq<Edge>>)
    ensures r == (if file.None? then Done([]) else EdgesOf(file.value, node))
  {
    var adjacency: seq<Edge> := [];
    if file.None? {
      return Done(adjacency);
    }
    var lines := file.value;
    var i := 0;
    while i < |lines|
      invariant 0 <= i <= |lines|
      invariant EdgesOf(lines[..i], node) == Done(adjacency)
    {
      assert lines[..i + 1][..i] == lines[..i];
      var next := PushLineEdges(lines[i], node, adjacency);
      if next.Panicked? {
        PanicPersists(lines, i + 1, node);
        return Panicked;
      }
      adjacency := next.value;
      i := i + 1;
    }
    assert lines[..i] == lines;
    return Done(adjacency);
  }

  /**
    One iteration of the loop: a readable line whose tokens all parse and
    number three pushes its edges that leave `node` onto `adjacency`; a
    token that does not parse panics.
  */
  method PushLineEdges(l: LineRead, node: int, adjacency: seq<Edge>) returns (r: Run<seq<Edge>>)
    ensures r == Then(Done(adjacency), LineContribution(l, node))
  {
    r := Done(adjacency);
    if l.Line? {
      var parts := ParseAll(Split(l.text));
      if parts.None? {
        assert ParseLine(l.text) == Panic;
        return Panicked;
      }
      if |parts.value| == 3 {
        var u, v, weight := parts.value[0], parts.value[1], parts.value[2];
        var pushed := adjacency;
        if u == node {
          pushed := pushed + [Edge(weight, u, v)];
        }
        if v == node {
          pushed := pushed + [Edge(weight, v, u)];
        }
        assert ParseLine(l.text) == Triple(u, v, weight);
        assert pushed == adjacency + LineEdges(node, u, v, weight);
        r := Done(pushed);
      } else {
        assert ParseLine(l.text) == NotThree;
        assert adjacency + [] == adjacency;
      }
    } else {
      assert adjacency + [] == adjacency;
    }
  }

  // ---------------------------------------------------------------------------
  // Properties

  /** `collect` succeeds iff every token parses, and then holds every token's value in order. */
  lemma {:induction false} ParseAllMeaning(ts: seq<string>)
    ensures ParseAll(ts).Some? ==>
      |ParseAll(ts).value| == |ts| && forall i :: 0 <= i < |ts| ==> ParseI32(ts[i]) == Some(ParseAll(ts).value[i])
    ensures ParseAll(ts).None? <==> exists i :: 0 <= i < |ts| && ParseI32(ts[i]).None?
  {
    if ts != [] {
      ParseAllMeaning(ts[1..]);
      if ParseI32(ts[0]).Some? && ParseAll(ts[1..]).None? {
        var i :| 0 <= i < |ts[1..]| && ParseI32(ts[1..][i]).None?;
        assert ParseI32(ts[i + 1]).None?;
      }
      if ParseAll(ts).Some? {
        forall i | 0 <= i < |ts| ensures ParseI32(ts[i]) == Some(ParseAll(ts).value[i]) {
          if i > 0 {
            assert ts[i] == ts[1..][i - 1];
          }
        }
      }
    }
  }

  /** A line yields a triple iff it has exactly three tokens and all three are `i32`s. */
  lemma ParseLineTriple(text: string)
    ensures ParseLine(text).Triple? <==>
      |Split(text)| == 3 && forall j :: 0 <= j < 3 ==> ParseI32(Split(text)[j]).Some?
    ensures ParseLine(text).Triple? ==>
      var t := ParseLine(text);
      ParseI32(Split(text)[0]) == Some(t.u) && ParseI32(Split(text)[1]) == Some(t.v) &&
      ParseI32(Split(text)[2]) == Some(t.w)
  {
    ParseAllMeaning(Split(text));
  }

  /** The edges of one line: `node→v` when `u == node`, `node→u` when `v == node`. */
  lemma LineEdgesMembership(node: int, u: int, v: int, w: int, e: Edge)
    ensures e in LineEdges(node, u, v, w) <==>
      e.from == node && e.weight == w && ((u == node && e.to == v) || (v == node && e.to == u))
  {
  }

  /** A self-loop on `node` yields the same edge twice. */
  lemma SelfLoopTwice(node: int, w: int)
    ensures LineEdges(node, node, node, w) == [Edge(w, node, node), Edge(w, node, node)]
  {
  }

  /** Reading is compositional: `a` then `b` gives `a`'s edges followed by `b`'s. */
  lemma {:induction false} EdgesOfAppend(a: seq<LineRead>, b: seq<LineRead>, node: int)
    ensures EdgesOf(a + b, node) == Then(EdgesOf(a, node), EdgesOf(b, node))
    decreases |b|
  {
    if b == [] {
      assert a + b == a;
      if EdgesOf(a, node).Done? {
        assert EdgesOf(a, node).value + [] == EdgesOf(a, node).value;
      }
    } else {
      var b' := b[..|b| - 1];
      assert (a + b)[..|a + b| - 1] == a + b';
      assert (a + b)[|a + b| - 1] == b[|b| - 1];
      EdgesOfAppend(a, b', node);
      ThenAssoc(EdgesOf(a, node), EdgesOf(b', node), LineContribution(b[|b| - 1], node));
    }
  }

  /** Once a prefix has panicked, the whole file panics: no later line can undo it. */
  lemma PanicPersists(lines: seq<LineRead>, i: nat, node: int)
    requires i <= |lines| && EdgesOf(lines[..i], node).Panicked?
    ensures EdgesOf(lines, node).Panicked?
  {
    EdgesOfAppend(lines[..i], lines[i..], node);
    assert lines[..i] + lines[i..] == lines;
  }

  /** Some element of `init + [last]` satisfies `f` iff one of `init` does or `last` does. */
  lemma ExistsSnoc<T>(f: T -> bool, init: seq<T>, last: T)
    ensures (exists i :: 0 <= i < |init + [last]| && f((init + [last])[i])) <==>
            (exists i :: 0 <= i < |init| && f(init[i])) || f(last)
  {
    var s := init + [last];
    if exists i :: 0 <= i < |s| && f(s[i]) {
      var i :| 0 <= i < |s| && f(s[i]);
      if i < |init| {
        assert f(init[i]);
      }
    }
    if exists i :: 0 <= i < |init| && f(init[i]) {
      var i :| 0 <= i < |init| && f(init[i]);
      assert f(s[i]);
    }
    if f(last) {
      assert f(s[|init|]);
    }
  }

  /** The last line's contribution panics exactly when the line panics. */
  lemma ContributionPanics(l: LineRead, node: int)
    ensures LineContribution(l, node).Panicked? <==> Panics(l)
  {
  }

  /** The reader panics iff some readable line has a token that is not an `i32`. */
  lemma {:induction false} PanicsIff(lines: seq<LineRead>, node: int)
    ensures EdgesOf(lines, node).Panicked? <==> exists i :: 0 <= i < |lines| && Panics(lines[i])
  {
    if lines != [] {
      var init := lines[..|lines| - 1];
      var last := lines[|lines| - 1];
      PanicsIff(init, node);
      ContributionPanics(last, node);
      assert lines == init + [last];
      ExistsSnoc(Panics, init, last);
    }
  }

  /**
    Exactly the edges that leave `node` along some `u v w` line, in either
    direction, are returned; every returned edge starts at `node`.
  */
  lemma {:induction false} EdgesOfMembership(lines: seq<LineRead>, node: int, e: Edge)
    requires EdgesOf(lines, node).Done?
    ensures e in EdgesOf(lines, node).value <==> exists i :: 0 <= i < |lines| && Contributes(lines[i], node, e)
  {
    if lines != [] {
      var init := lines[..|lines| - 1];
      var last := lines[|lines| - 1];
      EdgesOfMembership(init, node, e);
      ContributionHolds(last, node, e);
      assert lines == init + [last];
      ExistsSnoc(l => Contributes(l, node, e), init, last);
    }
  }

  /** A line that does not panic contributes `e` exactly when `e` is among its edges. */
  lemma ContributionHolds(l: LineRead, node: int, e: Edge)
    requires LineContribution(l, node).Done?
    ensures e in LineContribution(l, node).value <==> Contributes(l, node, e)
  {
  }

  /** Every returned edge leaves `node`. */
  lemma EdgesLeaveNode(lines: seq<LineRead>, node: int, e: Edge)
    requires EdgesOf(lines, node).Done? && e in EdgesOf(lines, node).value
    ensures e.from == node
  {
    EdgesOfMembership(lines, node, e);
  }

  /** A line whose first token is an `i32` but whose later token has a non-digit panics. */
  lemma NonIntegerTokenPanics(text: string, j: nat, k: nat)
    requires j < |Split(text)| && 0 < k < |Split(text)[j]| && !IsDigit(Split(text)[j][k])
    ensures ParseLine(text) == Panic
  {
    ParseI32RejectsNonDigit(Split(text)[j], k);
    ParseAllMeaning(Split(text));
  }

  /** What the fixture writer prints (`u v w` in decimal, one space apart) reads back as that triple. */
  lemma LineRoundTrip(u: int, v: int, w: int)
    requires I32_MIN <= u <= I32_MAX && I32_MIN <= v <= I32_MAX && I32_MIN <= w <= I32_MAX
    ensures ParseLine(Show(u) + " " + Show(v) + " " + Show(w)) == Triple(u, v, w)
  {
    ShowIsWord(u);
    ShowIsWord(v);
    ShowIsWord(w);
    SplitThreeWords(Show(u), Show(v), Show(w));
    ParseI32OfShow(u);
    ParseI32OfShow(v);
    ParseI32OfShow(w);
    ParseAllThree(Show(u), Show(v), Show(w), u, v, w);
  }

  /** Three tokens that each parse to an `i32` parse together to the three values. */
  lemma ParseAllThree(a: string, b: string, c: string, u: int, v: int, w: int)
    requires ParseI32(a) == Some(u) && ParseI32(b) == Some(v) && ParseI32(c) == Some(w)
    ensures ParseAll([a, b, c]) == Some([u, v, w])
  {
    var ts := [a, b, c];
    var t3: seq<string> := [c];
    assert t3[1..] == [];
    assert ParseAll(t3[1..]) == Some([]);
    assert [w] + [] == [w];
    assert ParseAll(t3) == Some([w]);
    assert ts[2..] == t3;
    var t2: seq<string> := [b, c];
    assert t2[1..] == t3;
    assert [v] + [w] == [v, w];
    assert ParseAll(t2) == Some([v, w]);
    assert ts[1..] == t2;
    assert [u] + [v, w] == [u, v, w];
  }

  lemma ShowIsWord(n: int)
    ensures IsWord(Show(n))
  {
  }
}
