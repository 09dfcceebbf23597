/**
 The `Node` class of GravMap: a labelled entity whose integer influence (1 to 10)
 fixes its mass, radius, colour and label size. Nodes are immutable records
 here; each method of the class that writes fields becomes a function that
 returns the updated record.
 */
module Nodes {
  import opened Wrappers
  import opened Numeric

  datatype Vec = Vec(x: real, y: real)

  /** The size of the drawing surface, in pixels. */
  datatype Canvas = Canvas(width: nat, height: nat)

  /** Two values of `Math.random()`, consumed as a horizontal and a vertical draw. */
  datatype Draw = Draw(u: real, v: real) {
    predicate Valid() {
      0.0 <= u < 1.0 && 0.0 <= v < 1.0
    }
  }

  datatype Rgb = Rgb(r: int, g: int, b: int)

  /**
   The fields of a node that the model keeps. `canvas` is the surface size the
   node was created with; the node clamps its position against it for its whole
   life. `acc` is the acceleration last written by `ApplyForce`.
   */
  datatype Node = Node(
    id: nat,
    name: string,
    influence: int,
    relationships: seq<nat>,
    mass: int,
    radius: int,
    pos: Vec,
    vel: Vec,
    acc: Vec,
    canvas: Canvas,
    isDragging: bool)

  const MinInfluence: int := 1
  const MaxInfluence: int := 10

  /** What the constructor establishes and nothing later changes. */
  predicate WellFormed(n: Node) {
    && MinInfluence <= n.influence <= MaxInfluence
    && n.mass == 3 * n.influence
    && n.radius == 5 * n.influence
  }

  /**
   The constructor: influence is clamped into [1, 10], mass and radius derive
   from the clamped value, the node starts at rest at a random point of the
   canvas and is not being dragged.
   */
  function NewNode(id: nat, name: string, influence: int, canvas: Canvas,
                   relationships: seq<nat>, draw: Draw): (n: Node)
    ensures WellFormed(n)
    ensures MinInfluence <= influence <= MaxInfluence ==> n.influence == influence
    ensures influence < MinInfluence ==> n.influence == MinInfluence
    ensures MaxInfluence < influence ==> n.influence == MaxInfluence
    ensures n.id == id && n.name == name && n.relationships == relationships
    ensures n.canvas == canvas && !n.isDragging && n.vel == Vec(0.0, 0.0)
    ensures draw.Valid() ==>
              && 0.0 <= n.pos.x <= canvas.width as real
              && 0.0 <= n.pos.y <= canvas.height as real
  {
    var inf := ClampInt(MinInfluence, MaxInfluence, influence);
    Node(id, name, inf, relationships, 3 * inf, 5 * inf,
         RandomPoint(canvas, draw), Vec(0.0, 0.0), Vec(0.0, 0.0), canvas, false)
  }

  /** `(Math.random() * width, Math.random() * height)`: a point of the canvas. */
  function RandomPoint(canvas: Canvas, draw: Draw): (p: Vec)
    ensures draw.Valid() ==>
              && 0.0 <= p.x <= canvas.width as real
              && 0.0 <= p.y <= canvas.height as real
  {
    Vec(Fraction(draw.u, canvas.width), Fraction(draw.v, canvas.height))
  }

  /** `u * extent`: for a random `u` in [0, 1) a point of [0, extent]. */
  function Fraction(u: real, extent: nat): (r: real)
    ensures 0.0 <= u < 1.0 ==> 0.0 <= r <= extent as real
  {
    var w := extent as real;
    MulBetween(u, w);
    u * w
  }

  lemma MulBetween(u: real, w: real)
    requires 0.0 <= w
    ensures 0.0 <= u < 1.0 ==> 0.0 <= u * w <= w
  {
    if 0.0 <= u < 1.0 {
      assert 0.0 <= u * w;
      assert 0.0 <= (1.0 - u) * w;
    }
  }

  /** Spring constant pulling the central node to the canvas centre. */
  const CentralPull: real := 0.01
  /** Spring constant of the weak centring force on every other node. */
  const CentrePull: real := 0.005

  /** The vector from the node to the centre of its canvas, scaled by `k`. */
  function TowardCentre(n: Node, k: real): Vec {
    Vec((n.canvas.width as real / 2.0 - n.pos.x) * k,
        (n.canvas.height as real / 2.0 - n.pos.y) * k)
  }

  /**
   `applyForce`: a dragged node is left alone. The central node gets only the
   spring toward the canvas centre. Any other node gets the pairwise and orbital
   terms, passed in as `interaction`, plus a weaker centring spring.
   */
  function ApplyForce(n: Node, central: Option<nat>, interaction: Vec): (r: Node)
    ensures n.isDragging ==> r == n
    ensures !n.isDragging ==> r == n.(acc := r.acc)
    ensures !n.isDragging && central == Some(n.id) ==> r.acc == TowardCentre(n, CentralPull)
    ensures !n.isDragging && central != Some(n.id) ==>
              && r.acc.x - interaction.x == TowardCentre(n, CentrePull).x
              && r.acc.y - interaction.y == TowardCentre(n, CentrePull).y
  {
    if n.isDragging then n
    else if central == Some(n.id) then n.(acc := TowardCentre(n, CentralPull))
    else
      var c := TowardCentre(n, CentrePull);
      n.(acc := Vec(interaction.x + c.x, interaction.y + c.y))
  }

  /** The central node's acceleration points at the canvas centre, whatever the other nodes do. */
  lemma CentralIgnoresInteraction(n: Node, a: Vec, b: Vec)
    requires !n.isDragging
    ensures ApplyForce(n, Some(n.id), a) == ApplyForce(n, Some(n.id), b)
    ensures var acc := ApplyForce(n, Some(n.id), a).acc;
            && (acc.x > 0.0 <==> n.pos.x < n.canvas.width as real / 2.0)
            && (acc.x == 0.0 <==> n.pos.x == n.canvas.width as real / 2.0)
            && (acc.y > 0.0 <==> n.pos.y < n.canvas.height as real / 2.0)
            && (acc.y == 0.0 <==> n.pos.y == n.canvas.height as real / 2.0)
  {
  }

  /** The margin `update` keeps between a node's centre and the canvas edge. */
  function Padding(n: Node): real {
    (n.radius + 10) as real
  }

  /**
   One coordinate after the containment clamp: inside [pad, extent - pad] when
   the canvas is wide enough for that interval, and pinned to `pad` when it is not.
   */
  predicate AxisContained(c: real, pad: real, extent: real) {
    if 2.0 * pad <= extent then pad <= c <= extent - pad else c == pad
  }

  predicate Contained(n: Node) {
    && AxisContained(n.pos.x, Padding(n), n.canvas.width as real)
    && AxisContained(n.pos.y, Padding(n), n.canvas.height as real)
  }

  /**
   `update`: a dragged node is left alone. Any other node takes the velocity
   `v` (the damped, speed-limited velocity, computed outside the model), moves
   by it, and is clamped back inside its canvas with a margin of radius + 10.
   */
  function Update(n: Node, v: Vec): (r: Node)
    ensures n.isDragging ==> r == n
    ensures !n.isDragging ==> r == n.(vel := v, pos := r.pos)
    ensures !n.isDragging ==> Contained(r)
    ensures !n.isDragging && Padding(n) <= n.pos.x + v.x <= n.canvas.width as real - Padding(n) ==>
              r.pos.x == n.pos.x + v.x
    ensures !n.isDragging && Padding(n) <= n.pos.y + v.y <= n.canvas.height as real - Padding(n) ==>
              r.pos.y == n.pos.y + v.y
    ensures !n.isDragging ==>
              r.pos == Vec(Clamp(Padding(n), n.canvas.width as real - Padding(n), n.pos.x + v.x),
                           Clamp(Padding(n), n.canvas.height as real - Padding(n), n.pos.y + v.y))
  {
    if n.isDragging then n
    else
      var pad := Padding(n);
      var x := Clamp(pad, n.canvas.width as real - pad, n.pos.x + v.x);
      var y := Clamp(pad, n.canvas.height as real - pad, n.pos.y + v.y);
      n.(vel := v, pos := Vec(x, y))
  }

  /** Light blue, the colour of influence 1. */
  const LowColor: Rgb := Rgb(144, 224, 239)
  /** Dark red, the colour of influence 10. */
  const HighColor: Rgb := Rgb(136, 13, 30)

  /** The exact linear interpolation `lo + t * (hi - lo)` with `t = (influence - 1) / 9`. */
  function Lerp(lo: int, hi: int, influence: int): real {
    lo as real + (influence - 1) as real / 9.0 * (hi - lo) as real
  }

  /** `getInfluenceColor`: each channel interpolated and rounded with `Math.round`. */
  function InfluenceColor(influence: int): Rgb {
    Rgb(RoundHalfUp(Lerp(LowColor.r, HighColor.r, influence)),
        RoundHalfUp(Lerp(LowColor.g, HighColor.g, influence)),
        RoundHalfUp(Lerp(LowColor.b, HighColor.b, influence)))
  }

  /** Each channel is the nearest integer to the exact interpolation, halves rounded up. */
  predicate NearestTo(c: int, exact: real) {
    c as real - 0.5 <= exact < c as real + 0.5
  }

  /**
   The gradient runs from light blue at influence 1 to dark red at influence 10,
   every channel of every colour in between lies between the two end colours,
   and each channel is the rounded exact interpolation.
   */
  lemma InfluenceColorRange(influence: int)
    requires MinInfluence <= influence <= MaxInfluence
    ensures influence == MinInfluence ==> InfluenceColor(influence) == LowColor
    ensures influence == MaxInfluence ==> InfluenceColor(influence) == HighColor
    ensures var c := InfluenceColor(influence);
            && HighColor.r <= c.r <= LowColor.r
            && HighColor.g <= c.g <= LowColor.g
            && HighColor.b <= c.b <= LowColor.b
    ensures var c := InfluenceColor(influence);
            && NearestTo(c.r, Lerp(LowColor.r, HighColor.r, influence))
            && NearestTo(c.g, Lerp(LowColor.g, HighColor.g, influence))
            && NearestTo(c.b, Lerp(LowColor.b, HighColor.b, influence))
  {
    RoundWithin(Lerp(LowColor.r, HighColor.r, influence), HighColor.r, LowColor.r);
    RoundWithin(Lerp(LowColor.g, HighColor.g, influence), HighColor.g, LowColor.g);
    RoundWithin(Lerp(LowColor.b, HighColor.b, influence), HighColor.b, LowColor.b);
  }

  /** More influence never makes any channel brighter: the gradient is monotonic. */
  lemma InfluenceColorMonotonic(i: int, j: int)
    requires MinInfluence <= i <= j <= MaxInfluence
    ensures InfluenceColor(j).r <= InfluenceColor(i).r
    ensures InfluenceColor(j).g <= InfluenceColor(i).g
    ensures InfluenceColor(j).b <= InfluenceColor(i).b
  {
    RoundMonotonic(Lerp(LowColor.r, HighColor.r, j), Lerp(LowColor.r, HighColor.r, i));
    RoundMonotonic(Lerp(LowColor.g, HighColor.g, j), Lerp(LowColor.g, HighColor.g, i));
    RoundMonotonic(Lerp(LowColor.b, HighColor.b, j), Lerp(LowColor.b, HighColor.b, i));
  }

  /**
   The label font size of `draw`: influence + 6, but never below 12 or above 16.
   For nodes (influence 1 to 10) the cap at 16 only meets influence 10.
   */
  function FontSize(influence: int): (px: int)
    ensures 12 <= px <= 16
    ensures 6 <= influence <= 10 ==> px == influence + 6
    ensures influence <= 6 ==> px == 12
    ensures 10 <= influence ==> px == 16
  {
    ClampInt(12, 16, influence + 6)
  }

  function SquaredDistance(a: Vec, b: Vec): real {
    (a.x - b.x) * (a.x - b.x) + (a.y - b.y) * (a.y - b.y)
  }

  /** `isPointInside`: the point lies on the node's disc, compared without a square root. */
  predicate IsPointInside(n: Node, p: Vec) {
    SquaredDistance(n.pos, p) <= (n.radius * n.radius) as real
  }

  /**
   The squared comparison agrees with the source's `sqrt(dx*dx + dy*dy) <= radius`:
   for the non-negative root `d` of the squared distance, the point is inside
   exactly when `d` is at most the radius.
   */
  lemma PointInsideIsDistanceTest(n: Node, p: Vec, d: real)
    requires 0 <= n.radius
    requires 0.0 <= d && d * d == SquaredDistance(n.pos, p)
    ensures IsPointInside(n, p) <==> d <= n.radius as real
  {
    var r := n.radius as real;
    assert (n.radius * n.radius) as real == r * r;
    if d <= r {
      SquareMonotonic(d, r);
    } else {
      SquareStrict(r, d);
    }
  }

  lemma SquareMonotonic(a: real, b: real)
    requires 0.0 <= a <= b
    ensures a * a <= b * b
  {
    assert 0.0 <= a * (b - a);
    assert 0.0 <= b * (b - a);
  }

  lemma SquareStrict(a: real, b: real)
    requires 0.0 <= a < b
    ensures a * a < b * b
  {
    assert 0.0 <= a * (b - a);
    assert 0.0 < b * (b - a);
  }
}
