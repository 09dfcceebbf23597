/**
 What `drawConnections` decides before it touches the canvas: which
 relationship lines are drawn, how wide, whether highlighted, and the colour
 at each end (`influenceToColor`).
 */
module Edges {
  import opened Wrappers
  import opened Numeric
  import opened Nodes
  import opened GravMap

  /** `influenceToColor`: a blue-to-red ramp, each channel capped at 255. */
  function InfluenceToColor(influence: int): (c: Rgb)
    ensures c.r <= 255 && c.g <= 255 && c.b <= 255
  {
    var i := influence as real;
    Rgb(Min(255, RoundHalfUp(i * 25.0)),
        Min(255, RoundHalfUp(100.0 + i * 10.0)),
        Min(255, RoundHalfUp(250.0 - i * 20.0)))
  }

  function Min(a: int, b: int): int {
    if a < b then a else b
  }

  /**
   For every influence a node can hold the cap never applies and the rounding
   is exact: red grows by 25, green by 10 and blue falls by 20 per point, so
   the colour is a valid RGB triple and strictly redder as influence grows.
   */
  lemma InfluenceToColorExact(influence: int)
    requires MinInfluence <= influence <= MaxInfluence
    ensures InfluenceToColor(influence) == Rgb(25 * influence, 100 + 10 * influence, 250 - 20 * influence)
    ensures var c := InfluenceToColor(influence);
            0 <= c.r <= 255 && 0 <= c.g <= 255 && 0 <= c.b <= 255
  {
    var i := influence as real;
    RoundOfInteger(i * 25.0, 25 * influence);
    RoundOfInteger(100.0 + i * 10.0, 100 + 10 * influence);
    RoundOfInteger(250.0 - i * 20.0, 250 - 20 * influence);
  }

  lemma RoundOfInteger(v: real, n: int)
    requires v == n as real
    ensures RoundHalfUp(v) == n
  {
  }

  /** `(a.influence + b.influence) / 20`. */
  function ConnectionStrength(a: Node, b: Node): real {
    (a.influence + b.influence) as real / 20.0
  }

  /** `Math.max(1, Math.min(5, strength * 2))`. */
  function LineWidth(strength: real): (w: real)
    ensures 1.0 <= w <= 5.0
    ensures 0.5 <= strength <= 2.5 ==> w == strength * 2.0
    ensures strength < 0.5 ==> w == 1.0
    ensures 2.5 < strength ==> w == 5.0
  {
    Clamp(1.0, 5.0, strength * 2.0)
  }

  /** A highlighted connection is drawn half as wide again. */
  function StrokeWidth(width: real, highlighted: bool): real {
    if highlighted then width * 1.5 else width
  }

  /** One line as `drawCurvedConnection` strokes it, between the nodes with ids `from` and `to`. */
  datatype Segment = Segment(from: nat, to: nat, width: real, highlighted: bool, fromColor: Rgb, toColor: Rgb)

  /** The line from `a` to its related node `b`; it is highlighted when either end is hovered. */
  function SegmentOf(a: Node, b: Node, hovered: Option<nat>): Segment {
    var highlighted := hovered.Some? && (a.id == hovered.value || b.id == hovered.value);
    Segment(a.id, b.id, StrokeWidth(LineWidth(ConnectionStrength(a, b)), highlighted), highlighted,
            InfluenceToColor(a.influence), InfluenceToColor(b.influence))
  }

  /**
   Between two well-formed nodes the strength lies in [0.1, 1], so the lower
   bound of the width clamp may apply but its upper bound of 5 never does: the
   width is `max(1, (ia + ib) / 10)`, at most 2, and at most 3 when highlighted.
   */
  lemma SegmentWidth(a: Node, b: Node, hovered: Option<nat>)
    requires WellFormed(a) && WellFormed(b)
    ensures var w := LineWidth(ConnectionStrength(a, b));
            var sum := (a.influence + b.influence) as real;
            && (sum <= 10.0 ==> w == 1.0)
            && (10.0 <= sum ==> w == sum / 10.0)
            && 1.0 <= w <= 2.0
    ensures 1.0 <= SegmentOf(a, b, hovered).width <= 3.0
  {
  }

  /**
   The lines drawn for `n`'s relationship list `rels`: a line for every related
   id that names a node of `all`, and only such lines; ids with no node are
   skipped. `SegmentsFromConcat` fixes their order.
   */
  function SegmentsFrom(n: Node, rels: seq<nat>, all: seq<Node>, hovered: Option<nat>): (r: seq<Segment>)
    ensures |r| <= |rels|
    ensures forall e :: e in r ==> exists j :: 0 <= j < |rels| && Drawn(n, rels[j], all, hovered, e)
    ensures forall j :: 0 <= j < |rels| && Lookup(all, rels[j]).Some? ==>
              SegmentOf(n, Lookup(all, rels[j]).value, hovered) in r
  {
    if |rels| == 0 then []
    else
      var rest := SegmentsFrom(n, rels[1..], all, hovered);
      assert forall j :: 1 <= j < |rels| ==> rels[j] == rels[1..][j - 1];
      match Lookup(all, rels[0])
      case None => rest
      case Some(b) => [SegmentOf(n, b, hovered)] + rest
  }

  /**
   One line per entry of the relationship list, in list order: the lines of a
   concatenation are the lines of each part, one after the other.
   */
  lemma {:induction false} SegmentsFromConcat(n: Node, a: seq<nat>, b: seq<nat>, all: seq<Node>, hovered: Option<nat>)
    ensures SegmentsFrom(n, a + b, all, hovered) == SegmentsFrom(n, a, all, hovered) + SegmentsFrom(n, b, all, hovered)
    decreases |a|
  {
    if |a| > 0 {
      assert (a + b)[0] == a[0];
      assert (a + b)[1..] == a[1..] + b;
      SegmentsFromConcat(n, a[1..], b, all, hovered);
    } else {
      assert a + b == b;
    }
  }

  /** A single related id gives one line when it names a node and none when it does not. */
  lemma SegmentsFromSingle(n: Node, id: nat, all: seq<Node>, hovered: Option<nat>)
    ensures Lookup(all, id).None? ==> SegmentsFrom(n, [id], all, hovered) == []
    ensures Lookup(all, id).Some? ==>
              SegmentsFrom(n, [id], all, hovered) == [SegmentOf(n, Lookup(all, id).value, hovered)]
  {
  }

  /** `e` is the line drawn from `a` for its relationship with `id`. */
  predicate Drawn(a: Node, id: nat, all: seq<Node>, hovered: Option<nat>, e: Segment) {
    match Lookup(all, id)
    case None => false
    case Some(b) => e == SegmentOf(a, b, hovered)
  }

  /**
   `drawConnections`: for every node of `src` in order, the lines of its
   relationship list against the whole list `all`. A line is drawn exactly
   when some node lists the id of a node that exists.
   */
  function Connections(src: seq<Node>, all: seq<Node>, hovered: Option<nat>): (r: seq<Segment>)
    ensures forall e :: e in r ==>
              exists i, j :: 0 <= i < |src| && 0 <= j < |src[i].relationships| &&
                             Drawn(src[i], src[i].relationships[j], all, hovered, e)
    ensures forall i, j :: 0 <= i < |src| && 0 <= j < |src[i].relationships| &&
                           Lookup(all, src[i].relationships[j]).Some? ==>
              SegmentOf(src[i], Lookup(all, src[i].relationships[j]).value, hovered) in r
  {
    StrokesDrawn(src, all, hovered);
    Strokes(src, all, hovered)
  }

  /** The loop of `drawConnections`: each node's lines, node after node. */
  function Strokes(src: seq<Node>, all: seq<Node>, hovered: Option<nat>): seq<Segment> {
    if |src| == 0 then []
    else SegmentsFrom(src[0], src[0].relationships, all, hovered) + Strokes(src[1..], all, hovered)
  }

  lemma {:induction false} StrokesDrawn(src: seq<Node>, all: seq<Node>, hovered: Option<nat>)
    ensures forall e :: e in Strokes(src, all, hovered) ==>
              exists i, j :: 0 <= i < |src| && 0 <= j < |src[i].relationships| &&
                             Drawn(src[i], src[i].relationships[j], all, hovered, e)
    ensures forall i, j :: 0 <= i < |src| && 0 <= j < |src[i].relationships| &&
                           Lookup(all, src[i].relationships[j]).Some? ==>
              SegmentOf(src[i], Lookup(all, src[i].relationships[j]).value, hovered) in Strokes(src, all, hovered)
    decreases |src|
  {
    if |src| > 0 {
      StrokesDrawn(src[1..], all, hovered);
      assert forall i :: 1 <= i < |src| ==> src[i] == src[1..][i - 1];
    }
  }

  /**
   Lines are drawn node by node in list order, so a later node's lines lie on
   top: the lines of a concatenated list are those of each part, one after the
   other.
   */
  lemma ConnectionsConcat(a: seq<Node>, b: seq<Node>, all: seq<Node>, hovered: Option<nat>)
    ensures Connections(a + b, all, hovered) == Connections(a, all, hovered) + Connections(b, all, hovered)
  {
    StrokesConcat(a, b, all, hovered);
  }

  lemma {:induction false} StrokesConcat(a: seq<Node>, b: seq<Node>, all: seq<Node>, hovered: Option<nat>)
    ensures Strokes(a + b, all, hovered) == Strokes(a, all, hovered) + Strokes(b, all, hovered)
    decreases |a|
  {
    if |a| > 0 {
      var head := SegmentsFrom(a[0], a[0].relationships, all, hovered);
      var ab := a + b;
      assert ab[0] == a[0] && ab[1..] == a[1..] + b;
      assert Strokes(ab, all, hovered) == head + Strokes(a[1..] + b, all, hovered);
      StrokesConcat(a[1..], b, all, hovered);
      assert Strokes(a, all, hovered) == head + Strokes(a[1..], all, hovered);
      Regroup(head, Strokes(a[1..], all, hovered), Strokes(b, all, hovered));
    } else {
      assert a + b == b;
    }
  }

  lemma Regroup(x: seq<Segment>, y: seq<Segment>, z: seq<Segment>)
    ensures x + (y + z) == (x + y) + z
  {
  }

  /** One node's lines are the lines of its relationship list. */
  lemma ConnectionsSingle(n: Node, all: seq<Node>, hovered: Option<nat>)
    ensures Connections([n], all, hovered) == SegmentsFrom(n, n.relationships, all, hovered)
  {
    var lines := SegmentsFrom(n, n.relationships, all, hovered);
    assert [n][0] == n && [n][1..] == [];
    assert Strokes([n], all, hovered) == lines + Strokes([], all, hovered);
    assert lines + [] == lines;
  }

  /** Both ends of every drawn line are nodes of the list. */
  lemma ConnectionEndsExist(nodes: seq<Node>, hovered: Option<nat>)
    ensures forall e :: e in Connections(nodes, nodes, hovered) ==> e.from in Ids(nodes) && e.to in Ids(nodes)
  {
    forall e | e in Connections(nodes, nodes, hovered)
      ensures e.from in Ids(nodes) && e.to in Ids(nodes)
    {
      var i, j :| 0 <= i < |nodes| && 0 <= j < |nodes[i].relationships| &&
                  Drawn(nodes[i], nodes[i].relationships[j], nodes, hovered, e);
      assert Ids(nodes)[i] == nodes[i].id;
    }
  }

  /** After `removeNode` no drawn line touches the removed node. */
  lemma RemovedNodeHasNoLines(s: GravMapState, canvas: Canvas, id: nat, recentre: Draw, hovered: Option<nat>)
    ensures var nodes := RemoveNode(s, canvas, id, recentre).nodes;
            forall e :: e in Connections(nodes, nodes, hovered) ==> e.from != id && e.to != id
  {
    var nodes := RemoveNode(s, canvas, id, recentre).nodes;
    ConnectionEndsExist(nodes, hovered);
    assert id !in multiset(Ids(nodes));
  }
}
