/**
 The mouse handlers of `GravMap`: hit-testing walks the node list from the
 last (topmost drawn) node down. `draggedNode` and `hoveredNode` are kept as
 node ids in a `PointerState`; canvas-relative coordinates are the input.
 */
module Pointer {
  import opened Wrappers
  import opened Nodes
  import opened GravMap

  datatype PointerState = PointerState(dragged: Option<nat>, hovered: Option<nat>)

  /** `hit` is the last node whose disc contains `p`, or none when no disc does. */
  predicate IsTopmostHit(nodes: seq<Node>, p: Vec, hit: Option<nat>) {
    match hit
    case None => forall j :: 0 <= j < |nodes| ==> !IsPointInside(nodes[j], p)
    case Some(k) =>
      && k < |nodes|
      && IsPointInside(nodes[k], p)
      && forall j :: k < j < |nodes| ==> !IsPointInside(nodes[j], p)
  }

  /** The loop `for (let i = nodes.length - 1; i >= 0; i--)` of the two handlers. */
  method TopmostHit(nodes: seq<Node>, p: Vec) returns (hit: Option<nat>)
    ensures IsTopmostHit(nodes, p, hit)
  {
    var i := |nodes|;
    while i > 0
      invariant 0 <= i <= |nodes|
      invariant forall j :: i <= j < |nodes| ==> !IsPointInside(nodes[j], p)
    {
      i := i - 1;
      if IsPointInside(nodes[i], p) {
        return Some(i);
      }
    }
    return None;
  }

  /** At most one answer satisfies the topmost-hit description. */
  lemma TopmostHitUnique(nodes: seq<Node>, p: Vec, a: Option<nat>, b: Option<nat>)
    requires IsTopmostHit(nodes, p, a) && IsTopmostHit(nodes, p, b)
    ensures a == b
  {
  }

  /**
   `handleMouseDown`: the topmost node under the pointer starts being dragged;
   nothing else changes. A press on empty canvas changes nothing.
   */
  method MouseDown(s: GravMapState, ptr: PointerState, p: Vec)
    returns (r: GravMapState, ptr': PointerState, hit: Option<nat>)
    ensures IsTopmostHit(s.nodes, p, hit)
    ensures hit.None? ==> r == s && ptr' == ptr
    ensures hit.Some? ==>
              && r.nodes == s.nodes[hit.value := s.nodes[hit.value].(isDragging := true)]
              && ptr' == ptr.(dragged := Some(s.nodes[hit.value].id))
    ensures r.nextId == s.nextId && r.central == s.central && Moved(s.nodes, r.nodes)
    ensures Valid(s) ==> Valid(r)
  {
    hit := TopmostHit(s.nodes, p);
    match hit
    case None =>
      r, ptr' := s, ptr;
    case Some(k) =>
      r := s.(nodes := s.nodes[k := s.nodes[k].(isDragging := true)]);
      ptr' := ptr.(dragged := Some(s.nodes[k].id));
    MovedKeepsInvariants(s.nodes, r.nodes, s.nextId);
  }

  /** Every node with id `id` moved to `p`; the rest untouched. */
  function MoveTo(nodes: seq<Node>, id: nat, p: Vec): (r: seq<Node>)
    ensures Moved(nodes, r)
    ensures forall i :: 0 <= i < |r| ==> r[i] == (if nodes[i].id == id then nodes[i].(pos := p) else nodes[i])
  {
    seq(|nodes|, i requires 0 <= i < |nodes| => if nodes[i].id == id then nodes[i].(pos := p) else nodes[i])
  }

  /**
   With distinct ids the drag moves exactly one node, the one carrying `id`, and
   only its position; an id that names no node moves nothing.
   */
  lemma MoveToMovesOne(nodes: seq<Node>, id: nat, p: Vec)
    requires UniqueIds(nodes)
    ensures Ids(MoveTo(nodes, id, p)) == Ids(nodes)
    ensures id !in Ids(nodes) ==> MoveTo(nodes, id, p) == nodes
    ensures forall k :: 0 <= k < |nodes| && nodes[k].id == id ==>
              MoveTo(nodes, id, p) == nodes[k := nodes[k].(pos := p)]
  {
    var r := MoveTo(nodes, id, p);
    MovedKeepsInvariants(nodes, r, 0);
    if id !in Ids(nodes) {
      forall i | 0 <= i < |nodes| ensures r[i] == nodes[i] {
        assert Ids(nodes)[i] == nodes[i].id;
      }
    }
    forall k | 0 <= k < |nodes| && nodes[k].id == id
      ensures r == nodes[k := nodes[k].(pos := p)]
    {
      forall i | 0 <= i < |nodes| ensures r[i] == nodes[k := nodes[k].(pos := p)][i] {
        if i != k {
          assert nodes[i].id != id by {
            if i < k { assert nodes[i].id != nodes[k].id; } else { assert nodes[k].id != nodes[i].id; }
          }
        }
      }
    }
  }

  /**
   `handleMouseMove`: while a node is dragged it follows the pointer and the
   hover state is left as it was; otherwise the hovered node becomes the topmost
   node under the pointer (or none), and no node moves.
   */
  method MouseMove(s: GravMapState, ptr: PointerState, p: Vec)
    returns (r: GravMapState, ptr': PointerState)
    ensures ptr.dragged.Some? ==>
              && ptr' == ptr
              && |r.nodes| == |s.nodes|
              && forall i :: 0 <= i < |s.nodes| ==>
                   r.nodes[i] == (if s.nodes[i].id == ptr.dragged.value then s.nodes[i].(pos := p) else s.nodes[i])
    ensures ptr.dragged.None? ==>
              && r == s
              && ptr'.dragged == None
              && (ptr'.hovered.None? <==> forall j :: 0 <= j < |s.nodes| ==> !IsPointInside(s.nodes[j], p))
              && (ptr'.hovered.Some? ==> exists k: nat :: IsTopmostHit(s.nodes, p, Some(k)) && ptr'.hovered == Some(s.nodes[k].id))
    ensures r.nextId == s.nextId && r.central == s.central && Moved(s.nodes, r.nodes)
    ensures Valid(s) ==> Valid(r)
  {
    match ptr.dragged
    case Some(d) =>
      r := s.(nodes := MoveTo(s.nodes, d, p));
      ptr' := ptr;
      MovedKeepsInvariants(s.nodes, r.nodes, s.nextId);
    case None =>
      r := s;
      var hit := TopmostHit(s.nodes, p);
      match hit
      case None =>
        ptr' := ptr.(hovered := None);
      case Some(k) =>
        ptr' := ptr.(hovered := Some(s.nodes[k].id));
    MovedKeepsInvariants(s.nodes, r.nodes, s.nextId);
  }

  /** `handleMouseUp`: the dragged node is released; with none dragged nothing changes. */
  function MouseUp(s: GravMapState, ptr: PointerState): (res: (GravMapState, PointerState))
    ensures res.1 == ptr.(dragged := None)
    ensures ptr.dragged.None? ==> res.0 == s
    ensures ptr.dragged.Some? ==>
              && |res.0.nodes| == |s.nodes|
              && forall i :: 0 <= i < |s.nodes| ==>
                res.0.nodes[i] == (if s.nodes[i].id == ptr.dragged.value then s.nodes[i].(isDragging := false)
                                   else s.nodes[i])
    ensures res.0.nextId == s.nextId && res.0.central == s.central && Moved(s.nodes, res.0.nodes)
    ensures Valid(s) ==> Valid(res.0)
  {
    match ptr.dragged
    case None => (s, ptr)
    case Some(d) =>
      var nodes := seq(|s.nodes|, i requires 0 <= i < |s.nodes| =>
                         if s.nodes[i].id == d then s.nodes[i].(isDragging := false) else s.nodes[i]);
      MovedKeepsInvariants(s.nodes, nodes, s.nextId);
      (s.(nodes := nodes), ptr.(dragged := None))
  }
}
