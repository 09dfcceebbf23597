/**
 The node-set bookkeeping of the `GravMap` class: the ordered list of nodes,
 the `nextNodeId` counter and the central node (kept by id). Every method that
 changes the set becomes a pure transition on `GravMapState`; `Valid` is the
 invariant each of them keeps.
 */
module GravMap {
  import opened Wrappers
  import opened Text
  import opened Nodes

  datatype GravMapState = GravMapState(nodes: seq<Node>, nextId: nat, central: Option<nat>)

  function Ids(nodes: seq<Node>): (ids: seq<nat>)
    ensures |ids| == |nodes|
    ensures forall i :: 0 <= i < |nodes| ==> ids[i] == nodes[i].id
  {
    seq(|nodes|, i requires 0 <= i < |nodes| => nodes[i].id)
  }

  predicate UniqueIds(nodes: seq<Node>) {
    forall i, j :: 0 <= i < j < |nodes| ==> nodes[i].id != nodes[j].id
  }

  predicate AllWellFormed(nodes: seq<Node>) {
    forall i :: 0 <= i < |nodes| ==> WellFormed(nodes[i])
  }

  /** The invariant of the node list: well-formed nodes, distinct ids, all below the counter. */
  predicate WellKept(nodes: seq<Node>, nextId: nat) {
    && AllWellFormed(nodes)
    && UniqueIds(nodes)
    && 0 < nextId
    && (forall i :: 0 <= i < |nodes| ==> 0 < nodes[i].id < nextId)
  }

  predicate Valid(s: GravMapState) {
    WellKept(s.nodes, s.nextId) && s.central == CentralId(s.nodes)
  }

  /** Every relationship names a node that is present. */
  predicate RelationshipsClosed(nodes: seq<Node>) {
    forall i, k :: 0 <= i < |nodes| && 0 <= k < |nodes[i].relationships| ==>
      nodes[i].relationships[k] in Ids(nodes)
  }

  // ---------------------------------------------------------------------------
  // Central node

  /** `k` is the first position whose influence is at least every other node's. */
  predicate IsFirstArgmax(nodes: seq<Node>, k: nat) {
    && k < |nodes|
    && (forall j :: 0 <= j < |nodes| ==> nodes[j].influence <= nodes[k].influence)
    && (forall j :: 0 <= j < k ==> nodes[j].influence < nodes[k].influence)
  }

  lemma FirstArgmaxUnique(nodes: seq<Node>, k1: nat, k2: nat)
    requires IsFirstArgmax(nodes, k1) && IsFirstArgmax(nodes, k2)
    ensures k1 == k2
  {
    assert nodes[k1].influence == nodes[k2].influence;
  }

  /**
   What `updateCentralNode`'s loop knows after visiting `nodes[..i]`: with
   `maxInfluence` starting at 0 and replaced only on a strictly greater influence,
   `best` is the first maximum of the visited prefix if that maximum is positive.
   */
  predicate ScanState(nodes: seq<Node>, i: nat, best: Option<nat>, maxInfluence: int) {
    && i <= |nodes|
    && match best
       case None =>
         && maxInfluence == 0
         && (forall j :: 0 <= j < i ==> nodes[j].influence <= 0)
       case Some(k) =>
         && k < i
         && maxInfluence == nodes[k].influence
         && 0 < maxInfluence
         && (forall j :: 0 <= j < i ==> nodes[j].influence <= maxInfluence)
         && (forall j :: 0 <= j < k ==> nodes[j].influence < maxInfluence)
  }

  /** The `forEach` of `updateCentralNode`, from position `i` on. */
  function ScanCentral(nodes: seq<Node>, i: nat, best: Option<nat>, maxInfluence: int): (r: Option<nat>)
    requires ScanState(nodes, i, best, maxInfluence)
    ensures r.None? <==> forall j :: 0 <= j < |nodes| ==> nodes[j].influence <= 0
    ensures r.Some? ==> IsFirstArgmax(nodes, r.value) && 0 < nodes[r.value].influence
    decreases |nodes| - i
  {
    if i == |nodes| then best
    else if nodes[i].influence > maxInfluence then ScanCentral(nodes, i + 1, Some(i), nodes[i].influence)
    else ScanCentral(nodes, i + 1, best, maxInfluence)
  }

  /**
   The position of the central node: the first node of greatest influence, so
   ties go to the earliest node. It is absent exactly when the list is empty.
   */
  function CentralIndex(nodes: seq<Node>): (r: Option<nat>)
    ensures r.None? <==> forall j :: 0 <= j < |nodes| ==> nodes[j].influence <= 0
    ensures r.Some? ==> IsFirstArgmax(nodes, r.value) && 0 < nodes[r.value].influence
    ensures AllWellFormed(nodes) ==> (r.None? <==> |nodes| == 0)
  {
    ScanCentral(nodes, 0, None, 0)
  }

  function CentralId(nodes: seq<Node>): Option<nat> {
    match CentralIndex(nodes)
    case None => None
    case Some(k) => Some(nodes[k].id)
  }

  /** Only ids and influences decide the central node. */
  predicate SameRanking(a: seq<Node>, b: seq<Node>) {
    && |a| == |b|
    && forall i :: 0 <= i < |a| ==> a[i].id == b[i].id && a[i].influence == b[i].influence
  }

  lemma CentralIdFollowsRanking(a: seq<Node>, b: seq<Node>)
    requires SameRanking(a, b)
    ensures CentralIndex(a) == CentralIndex(b)
    ensures CentralId(a) == CentralId(b)
  {
    forall k: nat | k < |a| ensures IsFirstArgmax(a, k) == IsFirstArgmax(b, k) {
    }
    assert (forall j :: 0 <= j < |a| ==> a[j].influence <= 0) <==>
           (forall j :: 0 <= j < |b| ==> b[j].influence <= 0);
    var ra, rb := CentralIndex(a), CentralIndex(b);
    if ra.Some? && rb.Some? {
      FirstArgmaxUnique(a, ra.value, rb.value);
    }
  }

  // ---------------------------------------------------------------------------
  // Motion: what changes when only positions, velocities and drag flags move

  predicate MovedOnly(a: Node, b: Node) {
    b == a.(pos := b.pos, vel := b.vel, acc := b.acc, isDragging := b.isDragging)
  }

  predicate Moved(a: seq<Node>, b: seq<Node>) {
    |a| == |b| && forall i :: 0 <= i < |a| ==> MovedOnly(a[i], b[i])
  }

  /** Moving nodes keeps every invariant of the list and the choice of central node. */
  lemma MovedKeepsInvariants(a: seq<Node>, b: seq<Node>, nextId: nat)
    requires Moved(a, b)
    ensures Ids(a) == Ids(b)
    ensures CentralId(a) == CentralId(b) && CentralIndex(a) == CentralIndex(b)
    ensures WellKept(a, nextId) ==> WellKept(b, nextId)
    ensures RelationshipsClosed(a) ==> RelationshipsClosed(b)
  {
    assert SameRanking(a, b);
    CentralIdFollowsRanking(a, b);
    assert forall i :: 0 <= i < |a| ==> a[i].relationships == b[i].relationships;
  }

  /** `Math.random()`-jittered canvas centre, `spread` pixels wide on each axis. */
  function Jitter(canvas: Canvas, draw: Draw, spread: real): (p: Vec)
    requires 0.0 <= spread
    ensures draw.Valid() ==> Near(p, Centre(canvas), spread / 2.0)
  {
    var dx, dy := (draw.u - 0.5) * spread, (draw.v - 0.5) * spread;
    JitterWithin(draw.u, spread, dx);
    JitterWithin(draw.v, spread, dy);
    Vec(canvas.width as real / 2.0 + dx, canvas.height as real / 2.0 + dy)
  }

  lemma JitterWithin(u: real, spread: real, d: real)
    requires 0.0 <= spread && d == (u - 0.5) * spread
    ensures 0.0 <= u < 1.0 ==> -spread / 2.0 <= d <= spread / 2.0
  {
    MulBetween(u, spread);
    assert d == u * spread - 0.5 * spread;
  }

  function Centre(canvas: Canvas): Vec {
    Vec(canvas.width as real / 2.0, canvas.height as real / 2.0)
  }

  /** Both coordinates of `p` within `reach` of `q`. */
  predicate Near(p: Vec, q: Vec, reach: real) {
    && q.x - reach <= p.x <= q.x + reach
    && q.y - reach <= p.y <= q.y + reach
  }

  /** Spread of the jitter `updateCentralNode` gives the central node. */
  const CentralSpread: real := 50.0
  /** Spread of the jitter `addNode` gives a new node. */
  const NewNodeSpread: real := 100.0

  /**
   `b` is `a` with at most the node at position `k` moved to a new position:
   nothing else of that node changes, and every other node stays as it was.
   */
  predicate Repositioned(a: seq<Node>, b: seq<Node>, k: Option<nat>) {
    && |a| == |b|
    && (forall i :: 0 <= i < |a| ==> b[i] == a[i].(pos := b[i].pos))
    && (forall i :: 0 <= i < |a| && k != Some(i) ==> b[i] == a[i])
  }

  /**
   `updateCentralNode`: choose the first node of greatest influence and move it
   near the canvas centre. Nothing else changes; the choice depends only on the
   nodes' influences, so the stored central id is also that of the updated list.
   */
  function UpdateCentralNode(s: GravMapState, canvas: Canvas, draw: Draw): (r: GravMapState)
    ensures r.nextId == s.nextId
    ensures Moved(s.nodes, r.nodes)
    ensures r.central == CentralId(s.nodes) == CentralId(r.nodes)
    ensures Repositioned(s.nodes, r.nodes, CentralIndex(s.nodes))
    ensures match CentralIndex(s.nodes)
            case None => r.nodes == s.nodes
            case Some(k) => draw.Valid() ==> Near(r.nodes[k].pos, Centre(canvas), CentralSpread / 2.0)
    ensures WellKept(s.nodes, s.nextId) ==> Valid(r)
  {
    match CentralIndex(s.nodes)
    case None => s.(central := None)
    case Some(k) =>
      var nodes := s.nodes[k := s.nodes[k].(pos := Jitter(canvas, draw, CentralSpread))];
      MovedKeepsInvariants(s.nodes, nodes, s.nextId);
      GravMapState(nodes, s.nextId, Some(s.nodes[k].id))
  }

  // ---------------------------------------------------------------------------
  // Creation and the sample data

  /** Append a node that carries the freshly allocated id `nextNodeId++`. */
  function Push(s: GravMapState, n: Node): (r: GravMapState)
    requires n.id == s.nextId
    ensures r.nextId == s.nextId + 1
    ensures Ids(r.nodes) == Ids(s.nodes) + [s.nextId]
    ensures |r.nodes| == |s.nodes| + 1 && r.nodes[..|s.nodes|] == s.nodes && r.nodes[|s.nodes|] == n
    ensures WellKept(s.nodes, s.nextId) ==>
              forall i :: 0 <= i < |s.nodes| ==> s.nodes[i].id < r.nodes[|s.nodes|].id
    ensures WellKept(s.nodes, s.nextId) && WellFormed(n) ==> WellKept(r.nodes, r.nextId)
  {
    var r := s.(nodes := s.nodes + [n], nextId := s.nextId + 1);
    assert Ids(r.nodes) == Ids(s.nodes) + [s.nextId];
    r
  }

  /** The state before any node exists. */
  const Empty: GravMapState := GravMapState([], 1, None)

  /**
   The `GravMap` constructor's bookkeeping: three sample nodes with ids 1, 2, 3
   (the CEO related to the two others, each of them related to the CEO), then
   the central node, which is the CEO (influence 9). This is the state before
   the constructor's first `animate()` frame.
   */
  function Create(canvas: Canvas, draws: seq<Draw>, recentre: Draw): (r: GravMapState)
    requires |draws| == 3
    ensures Valid(r) && RelationshipsClosed(r.nodes)
    ensures Ids(r.nodes) == [1, 2, 3] && r.nextId == 4
    ensures r.central == Some(1)
  {
    var s1 := Push(Empty, NewNode(1, "CEO", 9, canvas, [2, 3], draws[0]));
    var s2 := Push(s1, NewNode(2, "Designer", 6, canvas, [1], draws[1]));
    var s3 := Push(s2, NewNode(3, "Engineer", 7, canvas, [1], draws[2]));
    assert IsFirstArgmax(s3.nodes, 0);
    FirstArgmaxUnique(s3.nodes, 0, CentralIndex(s3.nodes).value);
    var r := UpdateCentralNode(s3, canvas, recentre);
    MovedKeepsInvariants(s3.nodes, r.nodes, r.nextId);
    assert Ids(s3.nodes) == [1, 2, 3];
    r
  }

  // ---------------------------------------------------------------------------
  // Adding a node from the form

  datatype AddError = EmptyName | InfluenceOutOfRange

  /** The state after the call, and the message the form shows, if any. */
  datatype AddOutcome = AddOutcome(state: GravMapState, error: Option<AddError>)

  predicate InfluenceAccepted(parsed: Option<int>) {
    parsed.Some? && MinInfluence <= parsed.value <= MaxInfluence
  }

  /**
   `addNode`: the trimmed name must be non-empty and the influence must parse to
   an integer in [1, 10], checked in that order; a rejected call changes nothing.
   An accepted call appends one node with the next id, at rest near the canvas
   centre, and recomputes the central node; of the earlier nodes only the new
   central node moves, to near the centre.
   */
  function AddNode(s: GravMapState, canvas: Canvas, nameInput: string, influenceInput: string,
                   relationships: seq<nat>, place: Draw, recentre: Draw): (r: AddOutcome)
    ensures r.error == Some(EmptyName) <==> AllWhitespace(nameInput)
    ensures r.error == Some(InfluenceOutOfRange) <==>
              !AllWhitespace(nameInput) && !InfluenceAccepted(ParseInt(influenceInput))
    ensures r.error.Some? ==> r.state == s
    ensures r.error.None? ==>
              && r.state.nextId == s.nextId + 1
              && Ids(r.state.nodes) == Ids(s.nodes) + [s.nextId]
              && Moved(s.nodes, r.state.nodes[..|s.nodes|])
              && (forall i :: 0 <= i < |s.nodes| ==>
                    && r.state.nodes[i] == s.nodes[i].(pos := r.state.nodes[i].pos)
                    && (CentralIndex(r.state.nodes) != Some(i) ==> r.state.nodes[i] == s.nodes[i]))
              && r.state.nodes[|s.nodes|].name == Trim(nameInput)
              && r.state.nodes[|s.nodes|].influence == ParseInt(influenceInput).value
              && r.state.nodes[|s.nodes|].relationships == relationships
              && !r.state.nodes[|s.nodes|].isDragging
              && r.state.nodes[|s.nodes|] ==
                 NewNode(s.nextId, Trim(nameInput), ParseInt(influenceInput).value, canvas, relationships, place)
                   .(pos := r.state.nodes[|s.nodes|].pos)
              && (place.Valid() && recentre.Valid() ==>
                    Near(r.state.nodes[|s.nodes|].pos, Centre(canvas), NewNodeSpread / 2.0))
              && (recentre.Valid() ==>
                    Near(r.state.nodes[CentralIndex(r.state.nodes).value].pos, Centre(canvas), CentralSpread / 2.0))
    ensures Valid(s) ==> Valid(r.state)
    ensures Valid(s) && RelationshipsClosed(s.nodes) &&
            (forall k :: 0 <= k < |relationships| ==> relationships[k] in Ids(s.nodes)) ==>
              RelationshipsClosed(r.state.nodes)
  {
    var name := Trim(nameInput);
    var influence := ParseInt(influenceInput);
    if |name| == 0 then AddOutcome(s, Some(EmptyName))
    else if !InfluenceAccepted(influence) then AddOutcome(s, Some(InfluenceOutOfRange))
    else
      var r := UpdateCentralNode(Push(s, Fresh(s, canvas, name, influence.value, relationships, place)), canvas, recentre);
      AddAccepted(s, canvas, name, influence.value, relationships, place, recentre, r);
      AddOutcome(r, None)
  }

  /** The node `addNode` builds: the next id, at rest, jittered 100 pixels wide around the centre. */
  function Fresh(s: GravMapState, canvas: Canvas, name: string, influence: int, relationships: seq<nat>, place: Draw): Node {
    NewNode(s.nextId, name, influence, canvas, relationships, place).(pos := Jitter(canvas, place, NewNodeSpread))
  }

  lemma AddAccepted(s: GravMapState, canvas: Canvas, name: string, influence: int, relationships: seq<nat>,
                    place: Draw, recentre: Draw, r: GravMapState)
    requires r == UpdateCentralNode(Push(s, Fresh(s, canvas, name, influence, relationships, place)), canvas, recentre)
    ensures r.nextId == s.nextId + 1
    ensures Ids(r.nodes) == Ids(s.nodes) + [s.nextId]
    ensures Moved(s.nodes, r.nodes[..|s.nodes|])
    ensures forall i :: 0 <= i < |s.nodes| ==>
              && r.nodes[i] == s.nodes[i].(pos := r.nodes[i].pos)
              && (CentralIndex(r.nodes) != Some(i) ==> r.nodes[i] == s.nodes[i])
    ensures r.nodes[|s.nodes|] ==
            NewNode(s.nextId, name, influence, canvas, relationships, place).(pos := r.nodes[|s.nodes|].pos)
    ensures place.Valid() && recentre.Valid() ==> Near(r.nodes[|s.nodes|].pos, Centre(canvas), NewNodeSpread / 2.0)
    ensures CentralIndex(r.nodes).Some?
    ensures recentre.Valid() ==> Near(r.nodes[CentralIndex(r.nodes).value].pos, Centre(canvas), CentralSpread / 2.0)
    ensures Valid(s) ==> Valid(r)
    ensures Valid(s) && RelationshipsClosed(s.nodes) &&
            (forall k :: 0 <= k < |relationships| ==> relationships[k] in Ids(s.nodes)) ==>
              RelationshipsClosed(r.nodes)
  {
    var n := Fresh(s, canvas, name, influence, relationships, place);
    var pushed := Push(s, n);
    AddNodeFacts(s, n, pushed, r, relationships);
    AddNodeFrame(s, n, pushed.nodes, r.nodes);
    NearWider(n.pos, Centre(canvas), CentralSpread / 2.0, NewNodeSpread / 2.0);
    assert WellFormed(r.nodes[|s.nodes|]);
  }

  lemma AddNodeFacts(s: GravMapState, n: Node, pushed: GravMapState, r: GravMapState, relationships: seq<nat>)
    requires n.id == s.nextId && WellFormed(n) && n.relationships == relationships
    requires pushed == Push(s, n)
    requires r.nextId == pushed.nextId && Moved(pushed.nodes, r.nodes)
    requires WellKept(pushed.nodes, pushed.nextId) ==> Valid(r)
    ensures Ids(r.nodes) == Ids(s.nodes) + [s.nextId]
    ensures Moved(s.nodes, r.nodes[..|s.nodes|])
    ensures MovedOnly(n, r.nodes[|s.nodes|])
    ensures Valid(s) ==> Valid(r)
    ensures Valid(s) && RelationshipsClosed(s.nodes) &&
            (forall k :: 0 <= k < |relationships| ==> relationships[k] in Ids(s.nodes)) ==>
              RelationshipsClosed(r.nodes)
  {
    MovedKeepsInvariants(pushed.nodes, r.nodes, r.nextId);
    assert pushed.nodes[..|s.nodes|] == s.nodes;
    assert forall i :: 0 <= i < |s.nodes| ==> r.nodes[..|s.nodes|][i] == r.nodes[i];
    if Valid(s) && RelationshipsClosed(s.nodes) &&
       (forall k :: 0 <= k < |relationships| ==> relationships[k] in Ids(s.nodes)) {
      AddKeepsClosed(s, pushed, relationships);
    }
  }

  /**
   After appending `n` and recentring, every earlier node is as it was except
   that the new central node may have moved, and the appended node is `n`
   except perhaps for its position.
   */
  lemma AddNodeFrame(s: GravMapState, n: Node, pushed: seq<Node>, after: seq<Node>)
    requires pushed == s.nodes + [n]
    requires Repositioned(pushed, after, CentralIndex(pushed))
    requires CentralIndex(after) == CentralIndex(pushed)
    ensures forall i :: 0 <= i < |s.nodes| ==>
              && after[i] == s.nodes[i].(pos := after[i].pos)
              && (CentralIndex(after) != Some(i) ==> after[i] == s.nodes[i])
    ensures after[|s.nodes|] == n.(pos := after[|s.nodes|].pos)
    ensures CentralIndex(after) != Some(|s.nodes|) ==> after[|s.nodes|] == n
  {
    assert forall i :: 0 <= i < |s.nodes| ==> pushed[i] == s.nodes[i];
  }

  lemma NearWider(p: Vec, q: Vec, narrow: real, wide: real)
    requires narrow <= wide
    ensures Near(p, q, narrow) ==> Near(p, q, wide)
  {
  }

  lemma AddKeepsClosed(s: GravMapState, pushed: GravMapState, relationships: seq<nat>)
    requires |pushed.nodes| == |s.nodes| + 1 && pushed.nodes[..|s.nodes|] == s.nodes
    requires pushed.nodes[|s.nodes|].relationships == relationships
    requires Ids(pushed.nodes) == Ids(s.nodes) + [s.nextId]
    requires RelationshipsClosed(s.nodes)
    requires forall k :: 0 <= k < |relationships| ==> relationships[k] in Ids(s.nodes)
    ensures RelationshipsClosed(pushed.nodes)
  {
    forall i, k | 0 <= i < |pushed.nodes| && 0 <= k < |pushed.nodes[i].relationships|
      ensures pushed.nodes[i].relationships[k] in Ids(pushed.nodes)
    {
      var x := pushed.nodes[i].relationships[k];
      if i < |s.nodes| {
        assert pushed.nodes[i] == s.nodes[i];
      }
      assert x in Ids(s.nodes);
    }
  }

  // ---------------------------------------------------------------------------
  // Removing a node

  /** `relationships.filter(relId => relId !== x)`. */
  function Without(xs: seq<nat>, x: nat): (r: seq<nat>)
    ensures multiset(r) == multiset(xs)[x := 0]
    ensures x !in xs ==> r == xs
  {
    if |xs| == 0 then []
    else
      assert xs == [xs[0]] + xs[1..];
      if xs[0] == x then Without(xs[1..], x) else [xs[0]] + Without(xs[1..], x)
  }

  /**
   Removal keeps order: filtering a concatenation filters each part. With the
   single-element cases this pins `Without` down completely.
   */
  lemma {:induction false} WithoutConcat(a: seq<nat>, b: seq<nat>, x: nat)
    ensures Without(a + b, x) == Without(a, x) + Without(b, x)
  {
    if |a| == 0 {
      assert a + b == b;
    } else {
      assert (a + b)[0] == a[0];
      assert (a + b)[1..] == a[1..] + b;
      WithoutConcat(a[1..], b, x);
    }
  }

  /** `nodes.filter(node => node.id !== id)`. */
  function RemoveById(nodes: seq<Node>, id: nat): (r: seq<Node>)
    ensures Ids(r) == Without(Ids(nodes), id)
    ensures forall i :: 0 <= i < |r| ==> r[i] in nodes
  {
    if |nodes| == 0 then []
    else
      var rest := RemoveById(nodes[1..], id);
      IdsCons(nodes);
      WithoutCons(nodes[0].id, Ids(nodes[1..]), id);
      assert forall n :: n in nodes[1..] ==> n in nodes;
      if nodes[0].id == id then rest
      else
        IdsPrepend(nodes[0], rest);
        assert forall i :: 0 < i <= |rest| ==> ([nodes[0]] + rest)[i] == rest[i - 1];
        [nodes[0]] + rest
  }

  lemma IdsCons(nodes: seq<Node>)
    requires 0 < |nodes|
    ensures Ids(nodes) == [nodes[0].id] + Ids(nodes[1..])
  {
  }

  lemma IdsPrepend(n: Node, rest: seq<Node>)
    ensures Ids([n] + rest) == [n.id] + Ids(rest)
  {
  }

  /** Filtering a list that starts with `x`: `x` is dropped if it is the id, kept otherwise. */
  lemma WithoutCons(x: nat, rest: seq<nat>, id: nat)
    ensures Without([x] + rest, id) == if x == id then Without(rest, id) else [x] + Without(rest, id)
  {
    assert ([x] + rest)[1..] == rest;
  }

  /** Filtering out an id that is not present changes nothing. */
  lemma {:induction false} RemoveByIdAbsent(nodes: seq<Node>, id: nat)
    requires id !in Ids(nodes)
    ensures RemoveById(nodes, id) == nodes
  {
    if |nodes| > 0 {
      var tail := nodes[1..];
      IdsCons(nodes);
      RemoveByIdAbsent(tail, id);
      assert RemoveById(nodes, id) == [nodes[0]] + tail;
    }
  }

  lemma UniqueTail(nodes: seq<Node>)
    requires 0 < |nodes| && UniqueIds(nodes)
    ensures UniqueIds(nodes[1..])
    ensures nodes[0].id !in Ids(nodes[1..])
  {
    var tail := nodes[1..];
    forall j | 0 <= j < |tail| ensures Ids(tail)[j] != nodes[0].id {
      assert tail[j] == nodes[j + 1];
    }
    forall i, j | 0 <= i < j < |tail| ensures tail[i].id != tail[j].id {
      assert tail[i] == nodes[i + 1] && tail[j] == nodes[j + 1];
    }
  }

  /** Filtering keeps ids distinct, and with distinct ids it removes at most one node. */
  lemma {:induction false} RemoveByIdUnique(nodes: seq<Node>, id: nat)
    requires UniqueIds(nodes)
    ensures UniqueIds(RemoveById(nodes, id))
    ensures id in Ids(nodes) ==> |RemoveById(nodes, id)| == |nodes| - 1
  {
    if |nodes| > 0 {
      var tail := nodes[1..];
      var rest := RemoveById(tail, id);
      UniqueTail(nodes);
      RemoveByIdUnique(tail, id);
      IdsCons(nodes);
      if nodes[0].id == id {
        RemoveByIdAbsent(tail, id);
      } else {
        assert id in Ids(nodes) ==> id in Ids(tail);
        forall i | 0 <= i < |rest| ensures rest[i].id != nodes[0].id {
          assert rest[i] in tail;
          assert rest[i].id in Ids(tail);
        }
        UniqueCons(nodes[0], rest);
      }
    }
  }

  lemma UniqueCons(n: Node, rest: seq<Node>)
    requires UniqueIds(rest)
    requires forall i :: 0 <= i < |rest| ==> rest[i].id != n.id
    ensures UniqueIds([n] + rest)
  {
    var all := [n] + rest;
    forall i, j | 0 <= i < j < |all| ensures all[i].id != all[j].id {
      assert all[j] == rest[j - 1];
      if 0 < i {
        assert all[i] == rest[i - 1];
      }
    }
  }

  /** `nodes.find(n => n.id === id)`. */
  function Lookup(nodes: seq<Node>, id: nat): (r: Option<Node>)
    ensures r.None? <==> id !in Ids(nodes)
    ensures r.Some? ==> r.value in nodes && r.value.id == id
  {
    if |nodes| == 0 then None
    else if nodes[0].id == id then Some(nodes[0])
    else
      assert Ids(nodes) == [nodes[0].id] + Ids(nodes[1..]);
      Lookup(nodes[1..], id)
  }

  /** With distinct ids, looking a node up by its id finds that node. */
  lemma {:induction false} LookupFinds(nodes: seq<Node>, n: Node)
    requires UniqueIds(nodes) && n in nodes
    ensures Lookup(nodes, n.id) == Some(n)
  {
    if nodes[0] != n {
      assert n in nodes[1..];
      LookupFinds(nodes[1..], n);
    }
  }

  /**
   `after` is `before` with `id` scrubbed from its relationships, and perhaps
   moved to another position; nothing else of it changes.
   */
  predicate Scrubbed(before: Node, after: Node, id: nat) {
    after == before.(relationships := Without(before.relationships, id), pos := after.pos)
  }

  function ScrubAll(nodes: seq<Node>, id: nat): (r: seq<Node>)
    ensures |r| == |nodes|
    ensures forall i :: 0 <= i < |r| ==> r[i] == nodes[i].(relationships := Without(nodes[i].relationships, id))
  {
    seq(|nodes|, i requires 0 <= i < |nodes| => nodes[i].(relationships := Without(nodes[i].relationships, id)))
  }

  /**
   `removeNode`: drop the nodes with this id, keeping the others in order,
   delete the id from every remaining relationship list, and recompute the
   central node on what is left. Of the survivors only the new central node
   moves, to near the canvas centre.
   */
  function RemoveNode(s: GravMapState, canvas: Canvas, id: nat, recentre: Draw): (r: GravMapState)
    ensures r.nextId == s.nextId
    ensures Ids(r.nodes) == Without(Ids(s.nodes), id)
    ensures forall i :: 0 <= i < |r.nodes| ==> id !in r.nodes[i].relationships
    ensures UniqueIds(s.nodes) ==>
              forall i :: 0 <= i < |r.nodes| ==>
                && Lookup(s.nodes, r.nodes[i].id).Some?
                && Scrubbed(Lookup(s.nodes, r.nodes[i].id).value, r.nodes[i], id)
                && (CentralIndex(r.nodes) != Some(i) ==> r.nodes[i].pos == Lookup(s.nodes, r.nodes[i].id).value.pos)
    ensures recentre.Valid() && CentralIndex(r.nodes).Some? ==>
              Near(r.nodes[CentralIndex(r.nodes).value].pos, Centre(canvas), CentralSpread / 2.0)
    ensures UniqueIds(s.nodes) && id in Ids(s.nodes) ==> |r.nodes| == |s.nodes| - 1
    ensures id !in Ids(s.nodes) ==> |r.nodes| == |s.nodes|
    ensures r.central == CentralId(r.nodes)
    ensures Valid(s) ==> Valid(r)
    ensures RelationshipsClosed(s.nodes) ==> RelationshipsClosed(r.nodes)
  {
    var r := UpdateCentralNode(Scrub(s, id), canvas, recentre);
    RemoveNodeSpec(s, canvas, id, recentre, r);
    r
  }

  /** The list once the id is filtered out and scrubbed, before the central node is recomputed. */
  function Scrub(s: GravMapState, id: nat): GravMapState {
    GravMapState(ScrubAll(RemoveById(s.nodes, id), id), s.nextId, s.central)
  }

  lemma RemoveNodeSpec(s: GravMapState, canvas: Canvas, id: nat, recentre: Draw, r: GravMapState)
    requires r == UpdateCentralNode(Scrub(s, id), canvas, recentre)
    ensures r.nextId == s.nextId
    ensures Ids(r.nodes) == Without(Ids(s.nodes), id)
    ensures forall i :: 0 <= i < |r.nodes| ==> id !in r.nodes[i].relationships
    ensures UniqueIds(s.nodes) ==>
              forall i :: 0 <= i < |r.nodes| ==>
                && Lookup(s.nodes, r.nodes[i].id).Some?
                && Scrubbed(Lookup(s.nodes, r.nodes[i].id).value, r.nodes[i], id)
                && (CentralIndex(r.nodes) != Some(i) ==> r.nodes[i].pos == Lookup(s.nodes, r.nodes[i].id).value.pos)
    ensures recentre.Valid() && CentralIndex(r.nodes).Some? ==>
              Near(r.nodes[CentralIndex(r.nodes).value].pos, Centre(canvas), CentralSpread / 2.0)
    ensures UniqueIds(s.nodes) && id in Ids(s.nodes) ==> |r.nodes| == |s.nodes| - 1
    ensures id !in Ids(s.nodes) ==> |r.nodes| == |s.nodes|
    ensures r.central == CentralId(r.nodes)
    ensures Valid(s) ==> Valid(r)
    ensures RelationshipsClosed(s.nodes) ==> RelationshipsClosed(r.nodes)
  {
    var kept := RemoveById(s.nodes, id);
    var scrubbed := ScrubAll(kept, id);
    RemoveNodeFacts(s, id, kept, scrubbed, r);
    SurvivorsScrubbed(s.nodes, id, kept, scrubbed, r.nodes);
    RemovedCount(s.nodes, id);
  }

  /** With distinct ids a present id costs exactly one node; an absent id costs none. */
  lemma RemovedCount(nodes: seq<Node>, id: nat)
    ensures UniqueIds(nodes) && id in Ids(nodes) ==> |RemoveById(nodes, id)| == |nodes| - 1
    ensures id !in Ids(nodes) ==> RemoveById(nodes, id) == nodes
  {
    if UniqueIds(nodes) && id in Ids(nodes) {
      RemoveByIdUnique(nodes, id);
    }
    if id !in Ids(nodes) {
      RemoveByIdAbsent(nodes, id);
    }
  }

  lemma RemoveNodeFacts(s: GravMapState, id: nat, kept: seq<Node>, scrubbed: seq<Node>, r: GravMapState)
    requires kept == RemoveById(s.nodes, id)
    requires scrubbed == ScrubAll(kept, id)
    requires Moved(scrubbed, r.nodes) && r.nextId == s.nextId
    requires WellKept(scrubbed, s.nextId) ==> Valid(r)
    ensures CentralIndex(r.nodes) == CentralIndex(scrubbed)
    ensures Ids(r.nodes) == Without(Ids(s.nodes), id)
    ensures forall i :: 0 <= i < |r.nodes| ==> id !in r.nodes[i].relationships
    ensures Valid(s) ==> Valid(r)
    ensures RelationshipsClosed(s.nodes) ==> RelationshipsClosed(r.nodes)
  {
    MovedKeepsInvariants(scrubbed, r.nodes, s.nextId);
    assert Ids(scrubbed) == Ids(kept);
    NoneRelateTo(kept, scrubbed, r.nodes, id);
    if Valid(s) {
      ScrubbedWellKept(s, id, kept, scrubbed);
    }
    if RelationshipsClosed(s.nodes) {
      ScrubbedClosed(s.nodes, id, kept, scrubbed);
    }
  }

  /** Once scrubbed, no relationship list names the id, however the nodes then move. */
  lemma NoneRelateTo(kept: seq<Node>, scrubbed: seq<Node>, after: seq<Node>, id: nat)
    requires scrubbed == ScrubAll(kept, id)
    requires Moved(scrubbed, after)
    ensures forall i :: 0 <= i < |after| ==> id !in after[i].relationships
  {
    forall i | 0 <= i < |after| ensures id !in after[i].relationships {
      assert after[i].relationships == Without(kept[i].relationships, id);
      assert id !in multiset(after[i].relationships);
    }
  }

  lemma SurvivorsScrubbed(nodes: seq<Node>, id: nat, kept: seq<Node>, scrubbed: seq<Node>, after: seq<Node>)
    requires kept == RemoveById(nodes, id)
    requires scrubbed == ScrubAll(kept, id)
    requires Repositioned(scrubbed, after, CentralIndex(after))
    ensures UniqueIds(nodes) ==>
              forall i :: 0 <= i < |after| ==>
                && Lookup(nodes, after[i].id).Some?
                && Scrubbed(Lookup(nodes, after[i].id).value, after[i], id)
                && (CentralIndex(after) != Some(i) ==> after[i].pos == Lookup(nodes, after[i].id).value.pos)
  {
    forall i | 0 <= i < |after| && UniqueIds(nodes)
      ensures Lookup(nodes, after[i].id) == Some(kept[i])
      ensures Scrubbed(kept[i], after[i], id)
      ensures CentralIndex(after) != Some(i) ==> after[i].pos == kept[i].pos
    {
      assert after[i] == scrubbed[i].(pos := after[i].pos);
      assert after[i].id == kept[i].id;
      LookupFinds(nodes, kept[i]);
    }
  }

  lemma ScrubbedWellKept(s: GravMapState, id: nat, kept: seq<Node>, scrubbed: seq<Node>)
    requires Valid(s)
    requires kept == RemoveById(s.nodes, id)
    requires scrubbed == ScrubAll(kept, id)
    ensures WellKept(scrubbed, s.nextId)
  {
    RemoveByIdUnique(s.nodes, id);
    assert Ids(scrubbed) == Ids(kept);
    forall i | 0 <= i < |scrubbed| ensures WellFormed(scrubbed[i]) && 0 < scrubbed[i].id < s.nextId {
      assert kept[i] in s.nodes;
    }
  }

  lemma ScrubbedClosed(nodes: seq<Node>, id: nat, kept: seq<Node>, scrubbed: seq<Node>)
    requires RelationshipsClosed(nodes)
    requires kept == RemoveById(nodes, id)
    requires scrubbed == ScrubAll(kept, id)
    ensures RelationshipsClosed(scrubbed)
  {
    assert Ids(scrubbed) == Ids(kept);
    forall i, k | 0 <= i < |scrubbed| && 0 <= k < |scrubbed[i].relationships|
      ensures scrubbed[i].relationships[k] in Ids(scrubbed)
    {
      var x := scrubbed[i].relationships[k];
      assert x in multiset(scrubbed[i].relationships);
      assert x != id && x in multiset(kept[i].relationships);
      assert kept[i] in nodes;
      assert x in Ids(nodes);
      assert x in multiset(Ids(nodes));
      assert x in multiset(Ids(kept));
    }
  }
}
