# GravMap in Dafny

GravMap draws people ("nodes") as an interactive force-directed graph on a
canvas. Each node has a name, an influence score from 1 to 10, and a list of
related node ids. The most influential node is the "central node": it is
pulled toward the middle of the canvas, and the other nodes arrange
themselves around it.

This project models the bookkeeping of the `Node` and `GravMap` classes of
`script.js` as pure functions on immutable records:

- **Nodes** (`node.dfy`, module `Nodes`). The constructor clamps influence
  into [1, 10] and derives mass and radius from it. `applyForce` and `update`
  are modelled with their drag guards, the central-node spring and the
  containment clamp. Also modelled: the influence colour ramp, the label font
  size, and the circular hit test.
- **The node list** (`gravmap.dfy`, module `GravMap`). This holds the
  `nextNodeId` counter and the central node, which is chosen as the first
  node of greatest influence. It covers the sample data, `addNode` with its
  form validation, and `removeNode` with its relationship scrubbing.
  Every operation keeps one invariant: ids are distinct and smaller than the
  next id, nodes are well formed, and the stored central id is the one
  `updateCentralNode` would choose.
- **Form input** (`text.dfy`, module `Text`). This covers
  `String.prototype.trim` and `parseInt(value, 10)` as `addNode` applies them.
- **Pointer handlers** (`pointer.dfy`, module `Pointer`). These are mouse
  down, move and up. The topmost-hit search walks the list from the end.
- **Animation** (`animation.dfy`, module `Animation`). This covers one frame
  of `animate` (`applyForce` then `update` on every node), any number of
  frames, and `randomizePositions`.
- **Connections** (`edges.dfy`, module `Edges`). This covers which
  relationship lines `drawConnections` draws, their width and highlight, and
  `influenceToColor`.
- **A worked example** (`scenarios.dfy`, module `Scenarios`). It shows the
  central-node tie-break, and what happens when the chosen node is removed.

`Math.random()` becomes an explicit `Draw(u, v)` parameter holding the two
values drawn, and `Draw.Valid()` says both lie in [0, 1). The floating-point
force and velocity terms, which need `Math.sqrt`, become parameters too.
Positions are exact reals. `Math.round` is `floor(v + 0.5)`.

## Model

| member | source | states |
|---|---|---|
| Numeric.Clamp | script.js:171-172 | `Math.max(lo, Math.min(hi, v))`: inside [lo, hi] when lo ≤ hi; v itself when v is in range; lo when v < lo or when the interval is empty (hi < lo); hi when v > hi |
| Numeric.RoundHalfUp | script.js:195-197 | `Math.round` gives the integer nearest to v, with halves rounded up: r − 0.5 ≤ v < r + 0.5 |
| Text.PrefixLength | script.js:464-465 | the leading run that trim and parseInt skip: every character before n satisfies p, and the character at n does not |
| Text.PrefixLengthOfAppend | script.js:464-465 | a run of matching characters followed by a non-matching one is read exactly up to the boundary |
| Text.Trim | script.js:464 | the trimmed name is empty exactly when the input is all white space; otherwise it starts and ends with a non-space character; it is the slice that follows the leading white space, with only white space after it |
| Text.Decimal | script.js:465 | every natural number has a non-empty decimal numeral whose digit value is that number, with no leading zero unless the number is 0 |
| Text.ParseIntOfDecimal | script.js:465 | `parseInt(s, 10)` reads back a numeral after any leading white space and stops at the first non-digit (so "7.5" reads as 7) |
| Text.ParseIntOfNegativeDecimal | script.js:465 | the same round trip through a leading minus sign gives the negated number |
| Nodes.NewNode | script.js:28-62 | influence is clamped into [1, 10] (kept when in range, 1 below, 10 above); mass = 3·influence and radius = 5·influence; the other fields are copied; the node starts still and not dragged; a random start position lies on the canvas |
| Nodes.RandomPoint | script.js:46-47 | `Math.random() * width`, `Math.random() * height` lies within the canvas |
| Nodes.ApplyForce | script.js:66-79 | a dragged node is untouched; only the acceleration changes; the central node's acceleration is 0.01 × (centre − position), whatever the other nodes do; any other node's is the interaction term plus 0.005 × (centre − position) |
| Nodes.Update | script.js:147-173 | a dragged node is untouched; otherwise the node takes the new velocity, and its position is `Math.max(padding, Math.min(extent − padding, position + velocity))` on each axis with padding = radius + 10, so it ends at least radius + 10 from every edge (pinned to the padding when the canvas is too small); an overshoot lands exactly on the far margin, an undershoot on the near one |
| Nodes.InfluenceColorRange | script.js:176-200 | influence 1 gives (144, 224, 239) and influence 10 gives (136, 13, 30); every channel lies between those endpoints and is the nearest integer to the linear interpolation at t = (influence − 1) / 9 |
| Nodes.InfluenceColorMonotonic | script.js:176-200 | as influence rises, each channel moves monotonically from the light-blue endpoint toward the dark-red one |
| Nodes.FontSize | script.js:250 | the label font size lies in [12, 16], equals influence + 6 from 6 to 10, and saturates outside that range |
| Nodes.PointInsideIsDistanceTest | script.js:271-276 | the squared-distance test agrees with `Math.sqrt(...) <= radius`: the point is inside exactly when its Euclidean distance is at most the radius |
| GravMap.FirstArgmaxUnique | script.js:331-340 | at most one position is the first node of greatest influence |
| GravMap.ScanCentral | script.js:334-340 | the `forEach` with strict `>` and a running maximum that starts at 0 finds no node exactly when every influence is ≤ 0; otherwise it finds the first node of greatest influence |
| GravMap.CentralIndex | script.js:331-340 | the central position is the first maximum of influence; it is absent exactly when the list is empty (for well-formed nodes) |
| GravMap.CentralIdFollowsRanking | script.js:331-340 | only the ids and influences in list order decide the central node |
| GravMap.MovedKeepsInvariants | script.js:147-173 | changing only positions, velocities, accelerations and drag flags keeps the ids, the central node, the list invariant and relationship closure |
| GravMap.Jitter | script.js:343-344 | `centre + (Math.random() − 0.5) × spread` lies within spread / 2 of the canvas centre on each axis |
| GravMap.UpdateCentralNode | script.js:331-346 | the stored central id becomes the first maximum's id; only that node's position changes, to within 25 of the canvas centre, and every other node and every other field stays as it was; the list invariant is restored |
| GravMap.Push | script.js:493-509 | `nextNodeId++` appends the fresh id, which exceeds every id already present; the list invariant is kept |
| GravMap.Create | script.js:281-327 | the state before the first animation frame: the sample data is three valid nodes with ids 1, 2, 3, next id 4, relationships that name existing nodes, and the CEO (id 1) as the central node |
| GravMap.AddNode | script.js:457-518 | a blank name is rejected first, then an influence that does not parse or lies outside [1, 10]; a rejection changes nothing; on success the new node is a fresh node with the next id, the trimmed name, the parsed influence, the given relationships and canvas, at rest, placed within 50 of the canvas centre; it is appended; earlier nodes stay exactly as they were except the new central node, whose position alone changes, to within 25 of the centre; validity is kept, as is relationship closure when the chosen ids exist |
| GravMap.Without | script.js:532 | filtering removes every occurrence of the id and keeps every other element |
| GravMap.WithoutConcat | script.js:532 | filtering keeps order: filtering a concatenation filters each part |
| GravMap.RemoveById | script.js:528 | the remaining ids are the old ids with this id filtered out; every remaining node was in the list |
| GravMap.RemoveByIdUnique | script.js:528 | with distinct ids, filtering keeps them distinct and removes exactly one node when the id is present |
| GravMap.RemoveByIdAbsent | script.js:528 | filtering out an id that is absent leaves the list unchanged |
| GravMap.Lookup | script.js:639 | `find` returns nothing exactly when the id is absent, and otherwise a node of the list with that id |
| GravMap.LookupFinds | script.js:639 | with distinct ids, looking a node up by its id returns that node |
| GravMap.RemoveNode | script.js:526-537 | the node leaves the list; the id disappears from every relationship list; each survivor is its old self with only that id filtered out, except that the new central node's position is re-jittered to within 25 of the centre; the central node is recomputed on the survivors; validity and relationship closure are kept |
| Pointer.TopmostHit | script.js:372-379 | the search from the end returns the last node whose disc contains the point, or none exactly when no disc does |
| Pointer.MouseDown | script.js:367-380 | the topmost node under the pointer becomes the dragged node and alone gets its drag flag set; a press on empty canvas changes nothing; validity is kept |
| Pointer.MoveToMovesOne | script.js:388-392 | with distinct ids, the drag moves exactly the node carrying the dragged id to the pointer and changes nothing else; an id that names no node moves nothing; the ids stay as they were |
| Pointer.MouseMove | script.js:383-412 | while dragging, the dragged node follows the pointer and the hover state stays; otherwise no node moves and the hovered node becomes the topmost node under the pointer, or none exactly when no disc contains it |
| Pointer.MouseUp | script.js:449-454 | the dragged node's flag is cleared and the drag ends; with no drag nothing changes |
| Animation.AnimateFrame | script.js:613-624 | dragged nodes stay exactly as they are; every other node ends inside its canvas margin, with the given velocity and with the acceleration `applyForce` assigns; ids, central node and validity are kept |
| Animation.AnimateKeepsInvariants | script.js:613-631 | over any number of frames only positions, velocities, accelerations and drag flags change, and a valid state stays valid |
| Animation.RandomizePositions | script.js:544-557 | the central node lands within 25 of the canvas centre and every other node on the canvas; all velocities become zero; nothing else changes and validity is kept |
| Edges.InfluenceToColor | script.js:714-720 | every channel is capped at 255 |
| Edges.InfluenceToColorExact | script.js:714-720 | for influences 1 to 10 the cap never binds and the rounding is exact: (25i, 100 + 10i, 250 − 20i), all within [0, 255] |
| Edges.LineWidth | script.js:685 | the width lies in [1, 5]: it is 2 × strength between those bounds and saturates outside them |
| Edges.SegmentWidth | script.js:649-706 | between well-formed nodes the width is max(1, (ia + ib) / 10), at most 2, or at most 3 when highlighted; the upper bound of 5 never applies |
| Edges.SegmentsFrom | script.js:637-640 | the lines of one node: a line for every related id that names an existing node, and only such lines |
| Edges.SegmentsFromConcat | script.js:637-640 | the lines follow the relationship list in order: the lines of a concatenated list are the lines of each part, one after the other |
| Edges.SegmentsFromSingle | script.js:637-640 | one related id gives exactly one line when it names an existing node and none when it does not; with `SegmentsFromConcat` this fixes the whole sequence of lines, one per entry |
| Edges.Connections | script.js:636-661 | a line is drawn exactly when some node lists the id of a node that exists |
| Edges.ConnectionsConcat | script.js:637-640 | lines are drawn node by node in list order: the lines of a concatenated list are the lines of each part, one after the other |
| Edges.ConnectionsSingle | script.js:637-640 | one node's lines are exactly the lines of its relationship list; with `ConnectionsConcat` this fixes the whole sequence |
| Edges.ConnectionEndsExist | script.js:636-640 | both ends of every drawn line are nodes of the list |
| Edges.RemovedNodeHasNoLines | script.js:526-536 | after `removeNode`, no drawn line touches the removed id |
| Scenarios.TieThenRemove | script.js:526-536 | for four nodes with distinct ids and influences 3, 9, 9, 5, the first 9 is central; after it is removed, the second 9 is central |
| Scenarios.TieBreakExample | script.js:526-536 | the same for sample nodes with ids 1 to 4: central id 2, then id 3 |

## Left out

- The pairwise repulsion and attraction in `applyForce` (script.js:83-119) and the fixed-size push along the perpendicular to the central node (script.js:126-143) use `Math.sqrt`, division and floating point. `ApplyForce` takes their sum as the `interaction` input.
- The velocity update in `update` (script.js:150-162) is not computed: adding the acceleration and damping by 0.92 are exact, but the speed limit of 2.0 rescales by a factor that needs `Math.sqrt`. `Update` takes the resulting velocity as input.
- Orbital fields `angle`, `orbitRadius` and `orbitSpeed` (script.js:56-58) are written and never read.
- `isHovered` (script.js:62) is never read for behaviour.
- Drawing, the tooltip, the node list UI, the relationship picker and the star background are canvas and DOM work with no state of their own. This covers `draw`, `updateTooltip`, `getRelationshipNames`, `updateUINodeList`, `updateRelationshipOptions` and `createStars`.
- Colour strings (`rgb(...)`) and their re-parsing in `draw` (script.js:211-217) are formatting only.
- Relationship ids in `addNode` come from `parseInt` of DOM data attributes (script.js:484-490). They are an input list of naturals here.
- The window resize handler (script.js:736-743) is left out as an event. It resizes the canvas and calls `randomizePositions`, which is modelled as `Animation.RandomizePositions` with the new canvas as input. The handler never updates the canvas dimensions a node stores at creation, so `update` keeps clamping against the old size. The model keeps each node's creation canvas, as the code does.
- Numbers are exact: JavaScript's 2^53 integer limit and floating-point rounding of positions are not modelled.
- Nodes.ApplyForce: the interaction term is not computed, so the non-central branch is stated up to that input.
- Nodes.Update: the damping and the speed limit are not computed, so the velocity is stated as given.
- Nodes.Update: containment is claimed for finite velocities only. The perpendicular push divides by the distance to the central node with no lower bound (script.js:131-135), so a node exactly on the central node gets a NaN acceleration. `Math.max(padding, Math.min(extent − padding, NaN))` (script.js:171-172) is NaN, and the NaN then spreads to other nodes through `Math.max(20, NaN)` (script.js:91). Positions and velocities here are reals, which have no NaN. This also applies to `Animation.AnimateFrame`.
- GravMap.Create: the constructor runs one `animate()` frame (script.js:301) before returning; `Create` is the state just before that frame, which `Animation.AnimateFrame` then models.
- Animation.AnimateFrame: each node's force is an input. In the code, node i's `applyForce` sees nodes 0..i−1 already updated; the per-node inputs stand for whatever those terms evaluate to.
