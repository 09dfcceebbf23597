/**
 One frame of `GravMap.animate` and `randomizePositions`. Both only move
 nodes, so they keep every invariant of the state and the choice of central
 node. The floating-point force and velocity terms are inputs: `forces[i]` is
 the pairwise and orbital acceleration node i's `applyForce` computes on its
 turn, and `velocities[i]` the damped, speed-limited velocity its `update`
 computes from it.
 */
module Animation {
  import opened Wrappers
  import opened Numeric
  import opened Nodes
  import opened GravMap

  /** `applyForce` then `update` on one node. */
  function Step(n: Node, central: Option<nat>, force: Vec, velocity: Vec): Node {
    Update(ApplyForce(n, central, force), velocity)
  }

  /**
   The physics half of `animate`: every node in list order gets `applyForce`
   and `update`. Dragged nodes stay exactly as the pointer left them; every
   other node takes the given velocity, moves by it and is clamped to its
   canvas margin on each axis, and its acceleration is the one `applyForce`
   assigns.
   */
  function AnimateFrame(s: GravMapState, forces: seq<Vec>, velocities: seq<Vec>): (r: GravMapState)
    requires |forces| == |s.nodes| && |velocities| == |s.nodes|
    ensures r.nextId == s.nextId && r.central == s.central
    ensures Moved(s.nodes, r.nodes)
    ensures forall i :: 0 <= i < |s.nodes| && s.nodes[i].isDragging ==> r.nodes[i] == s.nodes[i]
    ensures forall i :: 0 <= i < |s.nodes| && !s.nodes[i].isDragging ==>
              && Contained(r.nodes[i])
              && !r.nodes[i].isDragging
              && r.nodes[i].vel == velocities[i]
              && r.nodes[i].acc == ApplyForce(s.nodes[i], s.central, forces[i]).acc
              && r.nodes[i].pos.x == Clamp(Padding(s.nodes[i]), s.nodes[i].canvas.width as real - Padding(s.nodes[i]),
                                           s.nodes[i].pos.x + velocities[i].x)
              && r.nodes[i].pos.y == Clamp(Padding(s.nodes[i]), s.nodes[i].canvas.height as real - Padding(s.nodes[i]),
                                           s.nodes[i].pos.y + velocities[i].y)
    ensures Valid(s) ==> Valid(r)
  {
    var nodes := seq(|s.nodes|, i requires 0 <= i < |s.nodes| =>
                       Step(s.nodes[i], s.central, forces[i], velocities[i]));
    MovedKeepsInvariants(s.nodes, nodes, s.nextId);
    s.(nodes := nodes)
  }

  /** The inputs of one frame: one force term and one velocity per node. */
  datatype Frame = Frame(forces: seq<Vec>, velocities: seq<Vec>)

  predicate Fits(s: GravMapState, f: Frame) {
    |f.forces| == |s.nodes| && |f.velocities| == |s.nodes|
  }

  /** The animation loop over a run of frames; a frame that does not fit stops the run. */
  function Animate(s: GravMapState, frames: seq<Frame>): (r: GravMapState)
    decreases |frames|
  {
    if |frames| == 0 || !Fits(s, frames[0]) then s
    else Animate(AnimateFrame(s, frames[0].forces, frames[0].velocities), frames[1..])
  }

  /**
   However long the animation runs, the node list keeps its ids, order,
   names, influences and relationships, the central node stays the same, and
   a valid state stays valid.
   */
  lemma {:induction false} AnimateKeepsInvariants(s: GravMapState, frames: seq<Frame>)
    ensures var r := Animate(s, frames);
            && r.nextId == s.nextId && r.central == s.central
            && Moved(s.nodes, r.nodes)
            && (Valid(s) ==> Valid(r))
    decreases |frames|
  {
    if |frames| > 0 && Fits(s, frames[0]) {
      var next := AnimateFrame(s, frames[0].forces, frames[0].velocities);
      AnimateKeepsInvariants(next, frames[1..]);
      MovedTransitive(s.nodes, next.nodes, Animate(next, frames[1..]).nodes);
    }
  }

  lemma MovedTransitive(a: seq<Node>, b: seq<Node>, c: seq<Node>)
    requires Moved(a, b) && Moved(b, c)
    ensures Moved(a, c)
  {
  }

  /**
   `randomizePositions`: the central node goes to a point jittered 50 pixels
   wide around the centre of the current canvas, every other node to a random
   point of the canvas; all velocities become zero. `draws[i]` is the pair of
   `Math.random()` values node i consumes.
   */
  function RandomizePositions(s: GravMapState, canvas: Canvas, draws: seq<Draw>): (r: GravMapState)
    requires |draws| == |s.nodes|
    ensures r.nextId == s.nextId && r.central == s.central
    ensures Moved(s.nodes, r.nodes)
    ensures forall i :: 0 <= i < |s.nodes| ==>
              && r.nodes[i].vel == Vec(0.0, 0.0)
              && r.nodes[i].acc == s.nodes[i].acc
              && r.nodes[i].isDragging == s.nodes[i].isDragging
    ensures forall i :: 0 <= i < |s.nodes| && draws[i].Valid() ==>
              if s.central == Some(s.nodes[i].id)
              then Near(r.nodes[i].pos, Centre(canvas), CentralSpread / 2.0)
              else && 0.0 <= r.nodes[i].pos.x <= canvas.width as real
                   && 0.0 <= r.nodes[i].pos.y <= canvas.height as real
    ensures Valid(s) ==> Valid(r)
  {
    var nodes := seq(|s.nodes|, i requires 0 <= i < |s.nodes| =>
                       var p := if s.central == Some(s.nodes[i].id) then Jitter(canvas, draws[i], CentralSpread)
                                else RandomPoint(canvas, draws[i]);
                       s.nodes[i].(pos := p, vel := Vec(0.0, 0.0)));
    MovedKeepsInvariants(s.nodes, nodes, s.nextId);
    s.(nodes := nodes)
  }
}
