/**
 Worked instances of the central-node rule on concrete node lists.
 */
module Scenarios {
  import opened Wrappers
  import opened Nodes
  import opened GravMap

  /** A node with the given id and influence and nothing else of note. */
  function Sample(id: nat, influence: int, canvas: Canvas, draw: Draw): Node {
    NewNode(id, "", influence, canvas, [], draw)
  }

  /**
   Influences 3, 9, 9, 5 under ids 1 to 4: the tie at 9 goes to the earlier
   node, id 2. Removing it hands the role to the other 9, id 3.
   */
  lemma TieBreakExample(canvas: Canvas, draw: Draw, recentre: Draw)
    ensures var nodes := [Sample(1, 3, canvas, draw), Sample(2, 9, canvas, draw),
                          Sample(3, 9, canvas, draw), Sample(4, 5, canvas, draw)];
            && CentralId(nodes) == Some(2)
            && RemoveNode(GravMapState(nodes, 5, Some(2)), canvas, 2, recentre).central == Some(3)
  {
    var nodes := [Sample(1, 3, canvas, draw), Sample(2, 9, canvas, draw),
                  Sample(3, 9, canvas, draw), Sample(4, 5, canvas, draw)];
    assert Influences(nodes) == [3, 9, 9, 5];
    assert UniqueIds(nodes);
    TieThenRemove(nodes, canvas, recentre);
  }

  function Influences(nodes: seq<Node>): seq<int> {
    seq(|nodes|, i requires 0 <= i < |nodes| => nodes[i].influence)
  }

  /**
   For any four nodes with distinct ids and influences 3, 9, 9, 5, the first 9
   is central, and after removing it the second 9 is.
   */
  lemma TieThenRemove(nodes: seq<Node>, canvas: Canvas, recentre: Draw)
    requires UniqueIds(nodes) && Influences(nodes) == [3, 9, 9, 5]
    ensures CentralId(nodes) == Some(nodes[1].id)
    ensures RemoveNode(GravMapState(nodes, 5, Some(nodes[1].id)), canvas, nodes[1].id, recentre).central
            == Some(nodes[2].id)
  {
    InfluencesAt(nodes);
    TieCentral(nodes);
    var r := RemoveNode(GravMapState(nodes, 5, Some(nodes[1].id)), canvas, nodes[1].id, recentre);
    SurvivorsKeepInfluence(nodes, nodes[1].id, r.nodes);
    AfterRemoval(nodes, r.nodes);
  }

  lemma TieCentral(nodes: seq<Node>)
    requires |nodes| == 4
    requires nodes[0].influence == 3 && nodes[1].influence == 9
    requires nodes[2].influence == 9 && nodes[3].influence == 5
    ensures CentralId(nodes) == Some(nodes[1].id)
  {
    assert IsFirstArgmax(nodes, 1);
    FirstArgmaxUnique(nodes, 1, CentralIndex(nodes).value);
  }

  lemma AfterRemoval(nodes: seq<Node>, after: seq<Node>)
    requires UniqueIds(nodes) && Influences(nodes) == [3, 9, 9, 5]
    requires Ids(after) == Without(Ids(nodes), nodes[1].id)
    requires forall i :: 0 <= i < |after| ==> InfluenceOf(nodes, after[i].id) == Some(after[i].influence)
    ensures CentralId(after) == Some(nodes[2].id)
  {
    Survivors(nodes, after);
    assert IsFirstArgmax(after, 1);
    FirstArgmaxUnique(after, 1, CentralIndex(after).value);
  }

  lemma InfluencesAt(nodes: seq<Node>)
    requires Influences(nodes) == [3, 9, 9, 5]
    ensures |nodes| == 4
    ensures nodes[0].influence == 3 && nodes[1].influence == 9
    ensures nodes[2].influence == 9 && nodes[3].influence == 5
  {
    assert |nodes| == |Influences(nodes)|;
    assert Influences(nodes)[0] == nodes[0].influence && Influences(nodes)[1] == nodes[1].influence;
    assert Influences(nodes)[2] == nodes[2].influence && Influences(nodes)[3] == nodes[3].influence;
  }

  lemma SurvivorsKeepInfluence(nodes: seq<Node>, id: nat, after: seq<Node>)
    requires forall i :: 0 <= i < |after| ==>
               Lookup(nodes, after[i].id).Some? &&
               Scrubbed(Lookup(nodes, after[i].id).value, after[i], id)
    ensures forall i :: 0 <= i < |after| ==> InfluenceOf(nodes, after[i].id) == Some(after[i].influence)
  {
    forall i | 0 <= i < |after| ensures InfluenceOf(nodes, after[i].id) == Some(after[i].influence) {
      assert Scrubbed(Lookup(nodes, after[i].id).value, after[i], id);
    }
  }

  /** The influence of the node that `find` returns for `id`. */
  function InfluenceOf(nodes: seq<Node>, id: nat): Option<int> {
    match Lookup(nodes, id)
    case None => None
    case Some(n) => Some(n.influence)
  }

  lemma Survivors(nodes: seq<Node>, after: seq<Node>)
    requires UniqueIds(nodes) && Influences(nodes) == [3, 9, 9, 5]
    requires Ids(after) == Without(Ids(nodes), nodes[1].id)
    requires forall i :: 0 <= i < |after| ==> InfluenceOf(nodes, after[i].id) == Some(after[i].influence)
    ensures |after| == 3
    ensures after[1].id == nodes[2].id
    ensures after[0].influence == 3 && after[1].influence == 9 && after[2].influence == 5
  {
    InfluencesAt(nodes);
    var before := [0, 2, 3];
    SurvivorIds(nodes, after);
    forall i | 0 <= i < 3 ensures after[i].influence == nodes[before[i]].influence {
      SurvivorInfluence(nodes, after[i], before[i]);
    }
  }

  lemma SurvivorIds(nodes: seq<Node>, after: seq<Node>)
    requires UniqueIds(nodes) && |nodes| == 4
    requires Ids(after) == Without(Ids(nodes), nodes[1].id)
    ensures |after| == 3
    ensures after[0].id == nodes[0].id && after[1].id == nodes[2].id && after[2].id == nodes[3].id
  {
    var ids := Ids(nodes);
    assert ids == [ids[0]] + ([ids[1]] + ([ids[2]] + [ids[3]]));
    WithoutFour(ids[0], ids[1], ids[2], ids[3]);
    assert |after| == |Ids(after)| == 3;
    assert Ids(after)[0] == after[0].id && Ids(after)[1] == after[1].id && Ids(after)[2] == after[2].id;
  }

  lemma SurvivorInfluence(nodes: seq<Node>, n: Node, k: nat)
    requires UniqueIds(nodes) && k < |nodes| && n.id == nodes[k].id
    requires InfluenceOf(nodes, n.id) == Some(n.influence)
    ensures n.influence == nodes[k].influence
  {
    LookupFinds(nodes, nodes[k]);
  }

  /** Filtering the second of four distinct ids out of a list leaves the other three. */
  lemma WithoutFour(a: nat, b: nat, c: nat, d: nat)
    requires a != b && c != b && d != b
    ensures Without([a] + ([b] + ([c] + [d])), b) == [a, c, d]
  {
    WithoutCons(d, [], b);
    assert [d] + [] == [d];
    WithoutCons(c, [d], b);
    WithoutCons(b, [c] + [d], b);
    WithoutCons(a, [b] + ([c] + [d]), b);
  }
}
