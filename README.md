# ConnectFlow routing core in Dafny

ConnectFlow is a small network-routing simulator. It builds a random
topology of routers, lets the user pick a source router and a destination
router by name, and highlights the path between them, either all at once or
one step per animation frame. This project models the logic underneath:

- `generate_connected_graph` (module `Generator`, with the graph class and
  graph facts in `Topology`). The graph gets nodes `0..n-1`. A random
  spanning tree over a shuffled node order then links each node to an
  earlier one. Finally a loop samples pairs of distinct nodes and adds an
  edge for each free pair until `extra_edges` new edges are in. The random
  choices are parameters:
  - the shuffled order is a permutation `perm`;
  - one `TreeDraw` per tree step gives the chosen earlier index and the
    weight;
  - a finite stream of `PairDraw`s stands for the pairs `random.sample`
    returns.
- The edge lists `draw_graph` highlights (module `Presenter`): the whole
  path, and the prefix shown in each animation frame.
- The router display names `Router<i>` and the name-to-id dictionary built
  from them (module `Routers`).
- Python's `zip` (module `Sequences`), which both of the above use.

The graph is a class whose methods update it in place, mirroring `nx.Graph`:
- `nodes`: a sequence in insertion order;
- `edges`: a map from unordered pairs (`Link`, smaller id first) to weights.

The generator's three phases are methods with loop invariants. Each is proved
against a specification:
- the tree phase against the function `TreeEdges`;
- the extra-edge phase against the function `ExtraEdges`, which walks the
  draws in order; the lemmas about it establish the predicate `Grown` (old
  edges kept, only sampled pairs added, graph still simple).

The result is proved to be a connected simple graph on `0..n-1`, with weights
in 1..10 and exactly `TreeSize(n) + added` edges (n-1 tree edges, none for
no nodes). The extra edges are exactly those `ExtraEdges` picks from the
draws: the free sampled pairs, in sampling order, each with its own drawn
weight.

The extra-edge loop at `network_routing_app.py:30-35` has no guard against a
request it cannot satisfy: with more extra edges than free pairs it never
ends, and the sidebar sliders at lines 75-76 allow such a request (see
Findings).

## Model

| member | source | states |
|---|---|---|
| Sequences.Zip | network_routing_app.py:51 | the zipped list is as long as the shorter input and its k-th entry pairs the k-th elements |
| Topology.Key | network_routing_app.py:32 | the key of an undirected edge is the pair ordered smaller first, whichever order u and v come in |
| Topology.KeyIdentifiesPair | network_routing_app.py:32-34 | two keys are equal exactly when they name the same unordered pair, so the edge map holds at most one edge per pair |
| Topology.Ids | network_routing_app.py:16-17 | the node list after the first loop is 0..n-1 in order |
| Topology.Graph.constructor | network_routing_app.py:13 | a new graph has no nodes and no edges |
| Topology.Graph.AddNode | network_routing_app.py:17 | adding a node appends it unless present and leaves the edges alone |
| Topology.Graph.AddEdge | network_routing_app.py:26 | adding an edge registers both end points and sets the weight of that one unordered pair, overwriting an existing weight |
| Topology.Graph.HasEdge | network_routing_app.py:32 | the edge test answers the same whichever order the two end points are given in |
| Topology.WalkReverse | network_routing_app.py:26 | edges are undirected: a walk read backwards is a walk |
| Topology.WalkConcat | network_routing_app.py:20-26 | a walk from a to m followed by one from m to b is a walk from a to b |
| Topology.ConnectedGrow | network_routing_app.py:29-35 | adding edges keeps a connected graph connected, so the extra-edge phase preserves the tree's connectivity |
| Topology.PairCountIsBinomial | network_routing_app.py:29-35 | the number of unordered pairs of n nodes is n(n-1)/2 |
| Topology.Capacity | network_routing_app.py:29-35 | the number of extra edges possible plus the n-1 tree edges (none for no nodes) make up all pairs of nodes |
| Topology.CapacityFormula | network_routing_app.py:29-35 | for at least one node, the extra edges possible number n(n-1)/2 - (n-1) |
| Topology.AllPairsSize | network_routing_app.py:29-35 | the set of all unordered pairs of 0..n-1 has n(n-1)/2 elements |
| Topology.LinksWithinBound | network_routing_app.py:29-35 | a simple graph on n nodes has at most n(n-1)/2 edges, and exactly that many only when every pair is linked |
| Generator.TreeEdges | network_routing_app.py:22-26 | the edges after k steps of the tree loop: at most k of them, all weighing 1..10 |
| Generator.TreeEdgesEndpoints | network_routing_app.py:20-26 | after k tree steps every edge joins two of the first k+1 shuffled nodes |
| Generator.TreeStepIsFresh | network_routing_app.py:22-26 | each tree step links a pair that has no edge yet, because the new node has no edge before its own step |
| Generator.TreeEdgesShape | network_routing_app.py:22-26 | after k tree steps there are exactly k edges, none a self-loop, all within 0..n-1, all weighing 1..10 |
| Generator.TreeEdgesLink | network_routing_app.py:22-26 | step m links nodes[m] to the earlier nodes[j] drawn for it, and that edge is still present later |
| Generator.WalkToRootJoins | network_routing_app.py:20-26 | following tree parents from any shuffled node is a walk to the first shuffled node |
| Generator.TreeConnected | network_routing_app.py:19-26 | the finished spanning tree connects every pair of nodes |
| Generator.FreeAfterTree | network_routing_app.py:20-35 | once the tree is in place, exactly Capacity(n) pairs of nodes are still without an edge, so the extra-edge loop can add at most that many |
| Generator.InsertFreshLink | network_routing_app.py:32-35 | adding a free pair of distinct nodes with a weight in 1..10 keeps the graph simple, keeps weights in range and adds exactly one edge |
| Generator.AddNodes | network_routing_app.py:16-17 | the first loop leaves nodes 0..n-1 in order and no edges |
| Generator.LinkSpanningTree | network_routing_app.py:20-26 | the tree loop leaves exactly the edges of the tree specification, n-1 of them (none for no nodes), forming a connected simple graph with weights 1..10 |
| Generator.AddIfAbsent | network_routing_app.py:31-35 | a sampled pair gets an edge with its drawn weight, counted as new, exactly when it had none; otherwise the graph is unchanged |
| Generator.ExtraEdges | network_routing_app.py:29-35 | the extra-edge loop as a function of the draws: it adds at most the wanted number of edges, and the edge count grows by exactly the number it reports added |
| Generator.GrownPrepend | network_routing_app.py:31-35 | one more sample in front of a run, free or taken, keeps every old edge, adds at most its own pair and counts it exactly when it was free |
| Generator.ExtraEdgesGrown | network_routing_app.py:29-35 | on a simple graph with weights 1..10 the loop keeps every edge and its weight, adds only sampled pairs, keeps the graph simple and weighted 1..10, and adds exactly the number of edges it counts |
| Generator.ExtraEdgesKeep | network_routing_app.py:32-35 | the loop never removes an edge |
| Generator.ExtraEdgesCover | network_routing_app.py:30-35 | when the loop stops short of the wanted count, every pair it drew already has an edge |
| Generator.SamplesNeedTwoNodes | network_routing_app.py:31 | two distinct nodes can only be drawn when there are at least two nodes |
| Generator.AddExtraEdges | network_routing_app.py:29-35 | the loop leaves exactly the edges and count that ExtraEdges gives for the draws; it finishes exactly when the count reaches extra_edges, and sampling fails exactly when fewer than two nodes are asked for a positive number of edges |
| Generator.GenerateConnectedGraph | network_routing_app.py:12-37 | the graph has nodes 0..n-1 and is connected, simple and weighted 1..10; its edges are exactly the tree edges extended by ExtraEdges over the draws, so it keeps every tree edge and its weight, holds only tree and sampled edges, and has TreeSize(n)+added edges; added never exceeds extra_edges or the free pairs; when the stream runs out, every sampled pair is linked; it never finishes when extra_edges exceeds the free pairs, and always finishes when it does not and the samples cover every pair |
| Generator.GenerateTopology | network_routing_app.py:12-37 | the guarded generator refuses a request exactly when it exceeds the free pairs; otherwise it builds exactly the graph of the unguarded one (same edges, same count, tree edges kept, only tree and sampled edges, finished exactly when the count is reached), never fails to sample, and finishes with TreeSize(n)+extra_edges edges once the samples cover every pair |
| Generator.SliderMaximumHangs | network_routing_app.py:75-76 | with the sliders at 5 routers and 10 extra connections the extra-edge loop never completes, whatever is sampled |
| Presenter.PathEdges | network_routing_app.py:51 | the whole-path highlight has len(path)-1 pairs (none for an empty path), and pair k is (path[k], path[k+1]) |
| Presenter.Frame | network_routing_app.py:61 | animation frame i is exactly the first i pairs of the whole-path highlight |
| Presenter.Frames | network_routing_app.py:57-61 | there are len(path)-1 frames (none for a path of at most one node), and frame k is the first k+1 pairs of the path |
| Presenter.FramesGrow | network_routing_app.py:57-61 | each frame is the previous frame plus the next step of the path |
| Presenter.LastFrameIsPath | network_routing_app.py:57-61 | the last frame highlights the whole path |
| Presenter.Figures | network_routing_app.py:49-62 | one base figure, highlighting the whole path only when a path is given without animation, followed by one figure per frame when animating |
| Presenter.HighlightOnEdges | network_routing_app.py:50-52 | when the path is a walk in the graph, every highlighted pair is an edge of the graph |
| Routers.Decimal | network_routing_app.py:83 | a node id's text is a non-empty string of decimal digits without a leading zero |
| Routers.DecimalRoundTrip | network_routing_app.py:83 | reading back the decimal text of an id gives the id |
| Routers.Label | network_routing_app.py:83 | a router name is the word Router followed by the id's digits |
| Routers.LabelInjective | network_routing_app.py:83 | two router names are equal exactly when their ids are |
| Routers.RouterNames | network_routing_app.py:83 | one name per router, in the routers' order, each the router's label |
| Routers.RouterNamesDistinct | network_routing_app.py:83 | two positions carry the same name exactly when they hold the same router |
| Routers.DictOf | network_routing_app.py:84 | the dictionary built from a list of pairs has exactly the pairs' first components as keys |
| Routers.DictOfLookup | network_routing_app.py:84 | a key whose pairs all carry the same value maps to that value |
| Routers.RouterMapping | network_routing_app.py:84 | the mapping has a key for a name exactly when some router carries that name |
| Routers.MappingRoundTrip | network_routing_app.py:82-84 | the mapping sends the name of every router back to that router's id |
| Routers.MappingKeys | network_routing_app.py:84 | the mapping's keys are exactly the router names |
| Routers.SameSelectionIsSameRouter | network_routing_app.py:90 | the selected names are equal exactly when the routers are the same, and exactly when the mapping gives the same id for both |

## Left out

- Streamlit page setup, sidebar widgets, session state, buttons, warnings and messages (lines 8-9, 72-105): user-interface plumbing with no logic of its own.
- Layout, matplotlib figures, `nx.draw*` and `st.pyplot` (lines 41-47, 52-54, 58-62): rendering through libraries that are not part of this model. A figure is represented only by the list of pairs it highlights.
- `time.sleep(0.5)` between animation frames (line 63): a wall-clock delay.
- `run_dijkstra` (lines 66-69): a direct call into networkx's shortest-path routines, whose code is not part of this model. The path it returns enters the model only as an input to the highlight lists.
- The readable path text joined with arrows (line 101): display text only.
- The probability distributions of `random.shuffle`, `random.randint` and `random.sample`: every choice is a parameter constrained to the range the call can return.
- Generator.AddExtraEdges: the unbounded resampling of the `while` loop is modelled over a finite sample stream. A run that would keep sampling ends with the status OutOfSamples, and the model does not state whether an unbounded random stream eventually covers every pair.
- Generator.GenerateConnectedGraph: where `random.sample` raises because there are fewer than two nodes, the model returns the graph built so far with the status SampleError instead of an exception.
- Generator.GenerateConnectedGraph: node and edge counts are natural numbers, so the negative arguments Python's `range` would treat as zero are not modelled.
- networkx's internal storage (adjacency dictionaries, edge attribute dictionaries) is reduced to a node sequence and a weight map keyed by unordered pairs.

## Findings

| source | as written | input that shows it | evidently intended | confidence | as-written member | corrected member |
|---|---|---|---|---|---|---|
| network_routing_app.py:29-35 (sliders at 75-76) | the extra-edge loop only stops after `extra_edges` new edges, but after the tree only n(n-1)/2-(n-1) pairs are free, so a larger request loops for ever | num_routers = 5, extra_edges = 10, both allowed by the sliders: 5 nodes leave 6 free pairs | refuse (or cap) a request for more extra edges than free pairs | high; not executed | Generator.SliderMaximumHangs | Generator.GenerateTopology |
