/** The shortest-path visualizer's trace generator: a scripted run of
    Dijkstra's algorithm over six nodes. The script is a fixed list of updates,
    each naming a node, its new tentative distance and whether it is now
    selected (visited); applying an update changes that node and the distance
    map, and a snapshot step is recorded after every update. */
module Greedy {
  import opened Optional
  import opened Text

  /** A tentative distance: `Inf` is the page's `Infinity` sentinel and `Null`
      the `null` a JSON round trip writes in its place. */
  datatype Dist = Inf | Fin(n: nat) | Null

  /** `a <= b` on tentative distances: `Inf` and `Null`, which both stand for
      an unreached node, are above every finite value. */
  predicate AtMost(a: Dist, b: Dist) {
    b.Inf? || b.Null? || (a.Fin? && b.Fin? && a.n <= b.n)
  }

  datatype Node = Node(id: string, x: int, y: int, distance: Dist, visited: bool)

  /** One entry of the script: the node it names, the distance it writes (the
      page guards the write with `!== undefined`), its text and whether it
      marks the node visited. */
  datatype Update = Update(node: string, distance: Option<nat>, desc: string, visit: bool)

  /** A snapshot: the nodes, the highlighted node, the text, the distance map
      and the pseudo-code line to highlight. */
  datatype Step = Step(nodes: seq<Node>, currentNode: Option<string>, description: string,
                       distanceMatrix: map<string, Dist>, currentLine: Option<nat>)

  /** The evolving state of the generator: `currentNodes` and `distanceMatrix`. */
  datatype State = State(nodes: seq<Node>, dm: map<string, Dist>)

  /** The six nodes of the page: A at distance 0, the rest unreached. */
  const SampleNodes: seq<Node> := [
    Node("A", 100, 150, Fin(0), false),
    Node("B", 250, 80, Inf, false),
    Node("C", 250, 220, Inf, false),
    Node("D", 400, 80, Inf, false),
    Node("E", 400, 220, Inf, false),
    Node("F", 550, 150, Inf, false)
  ]

  /** The page's script of thirteen updates. */
  const SampleUpdates: seq<Update> := [
    Update("A", Some(0), "Start at A (distance: 0)", false),
    Update("B", Some(4), "Update B: distance 0 + 4 = 4", false),
    Update("C", Some(2), "Update C: distance 0 + 2 = 2", false),
    Update("C", Some(2), "Select C (smallest distance: 2)", true),
    Update("B", Some(3), "Update B via C: 2 + 1 = 3 (better!)", false),
    Update("E", Some(7), "Update E via C: 2 + 5 = 7", false),
    Update("B", Some(3), "Select B (smallest unvisited: 3)", true),
    Update("D", Some(5), "Update D via B: 3 + 2 = 5", false),
    Update("D", Some(5), "Select D (smallest unvisited: 5)", true),
    Update("F", Some(7), "Update F via D: 5 + 2 = 7", false),
    Update("E", Some(6), "Update E via D: 5 + 1 = 6 (better!)", false),
    Update("E", Some(6), "Select E (smallest unvisited: 6)", true),
    Update("F", Some(7), "Select F (final node)", true)
  ]

  const InitialDescription := "Starting at node A with distance 0"
  const FinalDescription := "Shortest paths found! All nodes visited."

  ghost predicate UniqueIds(nodes: seq<Node>) {
    forall i, j :: 0 <= i < j < |nodes| ==> nodes[i].id != nodes[j].id
  }

  /** What a JSON round trip makes of a distance: `Infinity` has no JSON form
      and comes back as `null`; any other distance comes back unchanged. */
  function JsonDist(d: Dist): (r: Dist)
    ensures r != Inf
    ensures d.Inf? ==> r == Null
    ensures d != Inf ==> r == d
  {
    if d.Inf? then Null else d
  }

  /** No node holds `Infinity`. */
  ghost predicate NoInfinity(nodes: seq<Node>) {
    forall k :: 0 <= k < |nodes| ==> nodes[k].distance != Inf
  }

  /** `JSON.parse(JSON.stringify(nodes))`: a copy in which every field
      survives except an `Infinity` distance, which becomes `null`. */
  function JsonCopy(nodes: seq<Node>): (r: seq<Node>)
    ensures |r| == |nodes| && NoInfinity(r)
    ensures forall k :: 0 <= k < |nodes| ==>
      && r[k].id == nodes[k].id && r[k].x == nodes[k].x && r[k].y == nodes[k].y
      && r[k].visited == nodes[k].visited && r[k].distance == JsonDist(nodes[k].distance)
  {
    seq(|nodes|, k requires 0 <= k < |nodes| => nodes[k].(distance := JsonDist(nodes[k].distance)))
  }

  /** Nodes that hold no `Infinity` survive the round trip unchanged. */
  lemma JsonCopyKeeps(nodes: seq<Node>)
    requires NoInfinity(nodes)
    ensures JsonCopy(nodes) == nodes
  {
    assert forall k :: 0 <= k < |nodes| ==> JsonCopy(nodes)[k] == nodes[k];
  }

  /** The snapshot the generator takes of the nodes: the JSON round trip the
      page uses or, with `keepInfinity`, an exact copy. */
  function Copy(nodes: seq<Node>, keepInfinity: bool): seq<Node> {
    if keepInfinity then nodes else JsonCopy(nodes)
  }

  /** A node agrees with the distance map when the map holds its id and the
      node shows the map's distance for it: exactly, or, for a JSON copy,
      with `null` where the map holds `Infinity`. */
  ghost predicate Agrees(n: Node, dm: map<string, Dist>, keepInfinity: bool) {
    n.id in dm && n.distance == (if keepInfinity then dm[n.id] else JsonDist(dm[n.id]))
  }

  /** The distance map agrees with every node. */
  ghost predicate Consistent(nodes: seq<Node>, dm: map<string, Dist>, keepInfinity: bool) {
    forall k :: 0 <= k < |nodes| ==> Agrees(nodes[k], dm, keepInfinity)
  }

  /** `Array.prototype.findIndex` on the node id: the first position holding
      `id`, or -1 when there is none. */
  function FindIndex(nodes: seq<Node>, id: string): (i: int)
    ensures -1 <= i < |nodes|
    ensures 0 <= i ==> nodes[i].id == id && forall k :: 0 <= k < i ==> nodes[k].id != id
    ensures i == -1 ==> forall k :: 0 <= k < |nodes| ==> nodes[k].id != id
  {
    if nodes == [] then -1
    else if nodes[0].id == id then 0
    else
      var i := FindIndex(nodes[1..], id);
      if i == -1 then -1 else i + 1
  }

  /** The map filled by `nodes.forEach(n => distanceMatrix[n.id] = n.distance)`:
      a later node overwrites an earlier one with the same id. */
  function InitialMap(nodes: seq<Node>): (dm: map<string, Dist>)
    ensures forall k :: 0 <= k < |nodes| ==> nodes[k].id in dm
    decreases |nodes|
  {
    if nodes == [] then map[]
    else InitialMap(nodes[..|nodes| - 1])[nodes[|nodes| - 1].id := nodes[|nodes| - 1].distance]
  }

  /** With distinct ids the initial map holds exactly every node's distance. */
  lemma {:induction false} InitialConsistent(nodes: seq<Node>)
    requires UniqueIds(nodes)
    ensures Consistent(nodes, InitialMap(nodes), true)
    decreases |nodes|
  {
    if nodes != [] {
      var prefix := nodes[..|nodes| - 1];
      var last := nodes[|nodes| - 1];
      InitialConsistent(prefix);
      forall k | 0 <= k < |nodes|
        ensures nodes[k].id in InitialMap(nodes) && InitialMap(nodes)[nodes[k].id] == nodes[k].distance
      {
        if k < |prefix| {
          assert prefix[k] == nodes[k];
          assert nodes[k].id != last.id;
        }
      }
    }
  }

  /** The state the generator starts from: its copy of the nodes, and the map
      filled from the nodes themselves. */
  function Start(nodes: seq<Node>, keepInfinity: bool): State {
    State(Copy(nodes, keepInfinity), InitialMap(nodes))
  }

  /** With distinct ids the start keeps them distinct and agrees with its map;
      the page's JSON copy holds no `Infinity`. */
  lemma StartConsistent(nodes: seq<Node>, keepInfinity: bool)
    requires UniqueIds(nodes)
    ensures var s := Start(nodes, keepInfinity);
      UniqueIds(s.nodes) && Consistent(s.nodes, s.dm, keepInfinity) && (keepInfinity || NoInfinity(s.nodes))
  {
    InitialConsistent(nodes);
  }

  /** One pass of the `updates.forEach` body on the state. The node the update
      names (its first occurrence) gets the new distance and, when the update
      says so, is marked visited; the map entry of that id gets the new
      distance. Every other node, every other map entry, every id and every
      position is left alone, and an id that names no node changes nothing. */
  function ApplyUpdate(s: State, u: Update): (r: State)
    ensures |r.nodes| == |s.nodes|
    ensures forall k :: 0 <= k < |s.nodes| ==>
      && r.nodes[k].id == s.nodes[k].id && r.nodes[k].x == s.nodes[k].x && r.nodes[k].y == s.nodes[k].y
      && (k != FindIndex(s.nodes, u.node) ==> r.nodes[k] == s.nodes[k])
    ensures var i := FindIndex(s.nodes, u.node);
      0 <= i ==>
        && r.nodes[i].distance == (if u.distance.Some? then Fin(u.distance.value) else s.nodes[i].distance)
        && r.nodes[i].visited == (s.nodes[i].visited || u.visit)
    ensures forall id :: id != u.node ==> (id in r.dm <==> id in s.dm) && (id in s.dm ==> r.dm[id] == s.dm[id])
    ensures 0 <= FindIndex(s.nodes, u.node) && u.distance.Some? ==>
      u.node in r.dm && r.dm[u.node] == Fin(u.distance.value)
    ensures FindIndex(s.nodes, u.node) == -1 || u.distance.None? ==> r.dm == s.dm
    ensures FindIndex(s.nodes, u.node) == -1 ==> r == s
  {
    var i := FindIndex(s.nodes, u.node);
    if i == -1 then s
    else
      var node := s.nodes[i];
      var written := if u.distance.Some? then node.(distance := Fin(u.distance.value)) else node;
      var marked := if u.visit then written.(visited := true) else written;
      var dm := if u.distance.Some? then s.dm[u.node := Fin(u.distance.value)] else s.dm;
      State(s.nodes[i := marked], dm)
  }

  /** The state after the first `|us|` updates of the script. */
  function Run(s: State, us: seq<Update>): (r: State)
    ensures |r.nodes| == |s.nodes|
    decreases |us|
  {
    if us == [] then s else ApplyUpdate(Run(s, us[..|us| - 1]), us[|us| - 1])
  }

  /** A run keeps the same nodes in the same places: only distances and
      visited flags change. */
  lemma {:induction false} RunKeepsNodes(s: State, us: seq<Update>)
    ensures forall k :: 0 <= k < |s.nodes| ==>
      Run(s, us).nodes[k].id == s.nodes[k].id && Run(s, us).nodes[k].x == s.nodes[k].x && Run(s, us).nodes[k].y == s.nodes[k].y
    decreases |us|
  {
    if us != [] {
      RunKeepsNodes(s, us[..|us| - 1]);
    }
  }

  /** Running one more update of the script applies it to the state so far. */
  lemma RunGrow(init: State, us: seq<Update>, j: nat)
    requires j < |us|
    ensures Run(init, us[..j + 1]) == ApplyUpdate(Run(init, us[..j]), us[j])
  {
    assert us[..j + 1][..j] == us[..j];
  }

  /** An update never clears a visited flag. */
  lemma UpdateKeepsVisited(s: State, u: Update, k: nat)
    requires k < |s.nodes| && s.nodes[k].visited
    ensures ApplyUpdate(s, u).nodes[k].visited
  {
  }

  /** Updates only write finite distances, so a run that starts without
      `Infinity` never shows it. */
  lemma {:induction false} RunNoInfinity(s: State, us: seq<Update>)
    requires NoInfinity(s.nodes)
    ensures NoInfinity(Run(s, us).nodes)
    decreases |us|
  {
    if us != [] {
      RunNoInfinity(s, us[..|us| - 1]);
    }
  }

  /** The pseudo-code line chosen from the description: 1 for "Start", else 2
      for "Select", else 3 for "Update", else none. */
  function LineFor(desc: string): (line: Option<nat>)
    ensures line == Some(1) <==> exists i :: MatchAt(desc, "Start", i)
    ensures line == Some(2) <==> (!exists i :: MatchAt(desc, "Start", i)) && exists i :: MatchAt(desc, "Select", i)
    ensures line == Some(3) <==>
      (!exists i :: MatchAt(desc, "Start", i)) && (!exists i :: MatchAt(desc, "Select", i)) && exists i :: MatchAt(desc, "Update", i)
    ensures line == None <==>
      (!exists i :: MatchAt(desc, "Start", i)) && (!exists i :: MatchAt(desc, "Select", i)) && !exists i :: MatchAt(desc, "Update", i)
  {
    ContainsAt(desc, "Start");
    ContainsAt(desc, "Select");
    ContainsAt(desc, "Update");
    if Contains(desc, "Start") then Some(1)
    else if Contains(desc, "Select") then Some(2)
    else if Contains(desc, "Update") then Some(3)
    else None
  }

  /** The step pushed after an update, showing the state it left. The
      generator pushes a JSON copy of its nodes, which is the same nodes:
      they are a JSON copy already, and updates write only finite distances
      (see `ReplayScript`). */
  function StepAfter(s: State, u: Update): Step {
    Step(s.nodes, Some(u.node), u.desc, s.dm, LineFor(u.desc))
  }

  /** The steps pushed by the `updates.forEach` loop, one per update: each
      shows the state its update left. */
  function UpdateSteps(init: State, us: seq<Update>): (r: seq<Step>)
    ensures |r| == |us|
    ensures forall k :: 0 <= k < |r| ==> |r[k].nodes| == |init.nodes|
    decreases |us|
  {
    if us == [] then []
    else UpdateSteps(init, us[..|us| - 1]) + [StepAfter(Run(init, us), us[|us| - 1])]
  }

  /** One more update adds one step, showing the state that update left. */
  lemma UpdateStepsGrow(init: State, us: seq<Update>, j: nat)
    requires j < |us|
    ensures Run(init, us[..j + 1]) == ApplyUpdate(Run(init, us[..j]), us[j])
    ensures UpdateSteps(init, us[..j + 1]) == UpdateSteps(init, us[..j]) + [StepAfter(Run(init, us[..j + 1]), us[j])]
  {
    RunGrow(init, us, j);
    assert us[..j + 1][..j] == us[..j];
    assert us[..j + 1][j] == us[j];
  }

  /** Step `k` of the loop's steps shows the state after the first `k + 1`
      updates, with the node and the text of update `k`. */
  lemma {:induction false} UpdateStepAt(init: State, us: seq<Update>, k: nat)
    requires k < |us|
    ensures UpdateSteps(init, us)[k] == StepAfter(Run(init, us[..k + 1]), us[k])
    decreases |us|
  {
    var prefix := us[..|us| - 1];
    if k < |prefix| {
      UpdateStepAt(init, prefix, k);
      assert prefix[..k + 1] == us[..k + 1];
    } else {
      assert us[..k + 1] == us;
    }
  }

  /** The whole trace: the initial step, one step per update, the final step;
      every step shows all the nodes. The final step shows the generator's
      own nodes; the others show copies. */
  function TraceOf(nodes: seq<Node>, updates: seq<Update>, keepInfinity: bool): (t: seq<Step>)
    ensures |t| == |updates| + 2
    ensures forall k :: 0 <= k < |t| ==> |t[k].nodes| == |nodes|
  {
    var init := Start(nodes, keepInfinity);
    var last := Run(init, updates);
    [Step(init.nodes, None, InitialDescription, init.dm, None)]
      + UpdateSteps(init, updates)
      + [Step(last.nodes, None, FinalDescription, last.dm, None)]
  }

  /** The trace the page builds, whose copies are JSON round trips. */
  function Trace(nodes: seq<Node>, updates: seq<Update>): seq<Step> {
    TraceOf(nodes, updates, false)
  }

  /** The trace with copies that keep `Infinity`. */
  function IntendedTrace(nodes: seq<Node>, updates: seq<Update>): seq<Step> {
    TraceOf(nodes, updates, true)
  }

  /** The state shown by step `k` of the trace is the one after the first
      `min(k, |updates|)` updates. */
  function Shown(k: nat, updates: seq<Update>): (m: nat)
    ensures m <= |updates|
  {
    if k <= |updates| then k else |updates|
  }

  /** Step `k` of the trace shows the state after the first
      `min(k, |updates|)` updates. */
  lemma TraceStateAt(nodes: seq<Node>, updates: seq<Update>, keepInfinity: bool, k: nat)
    requires k < |updates| + 2
    ensures var s := Run(Start(nodes, keepInfinity), updates[..Shown(k, updates)]);
      TraceOf(nodes, updates, keepInfinity)[k].nodes == s.nodes
        && TraceOf(nodes, updates, keepInfinity)[k].distanceMatrix == s.dm
  {
    var t := TraceOf(nodes, updates, keepInfinity);
    var init := Start(nodes, keepInfinity);
    if k == 0 {
      assert updates[..0] == [];
    } else if k <= |updates| {
      assert t[k] == UpdateSteps(init, updates)[k - 1];
      UpdateStepAt(init, updates, k - 1);
    } else {
      assert updates[..|updates|] == updates;
    }
  }

  lemma TraceStates(nodes: seq<Node>, updates: seq<Update>, keepInfinity: bool)
    ensures |TraceOf(nodes, updates, keepInfinity)| == |updates| + 2
    ensures forall k :: 0 <= k < |TraceOf(nodes, updates, keepInfinity)| ==>
      var s := Run(Start(nodes, keepInfinity), updates[..Shown(k, updates)]);
      TraceOf(nodes, updates, keepInfinity)[k].nodes == s.nodes
        && TraceOf(nodes, updates, keepInfinity)[k].distanceMatrix == s.dm
  {
    forall k | 0 <= k < |updates| + 2
      ensures var s := Run(Start(nodes, keepInfinity), updates[..Shown(k, updates)]);
        TraceOf(nodes, updates, keepInfinity)[k].nodes == s.nodes
          && TraceOf(nodes, updates, keepInfinity)[k].distanceMatrix == s.dm
    {
      TraceStateAt(nodes, updates, keepInfinity, k);
    }
  }

  /** No step of the page's trace shows `Infinity` on a node: an unreached
      node shows `null`. */
  lemma TraceHidesInfinity(nodes: seq<Node>, updates: seq<Update>)
    ensures forall k :: 0 <= k < |Trace(nodes, updates)| ==> NoInfinity(Trace(nodes, updates)[k].nodes)
  {
    var t := Trace(nodes, updates);
    TraceStates(nodes, updates, false);
    forall k | 0 <= k < |t|
      ensures NoInfinity(t[k].nodes)
    {
      RunNoInfinity(Start(nodes, false), updates[..Shown(k, updates)]);
    }
  }

  /** Step 0 shows the generator's copy of the nodes, with the highlight and
      the pseudo-code line cleared; step `k` for `1 <= k <= |updates|`
      highlights the node of update `k - 1`, shows its text and the line its
      text selects; the last step clears the highlight and the line again. */
  lemma TraceLabels(nodes: seq<Node>, updates: seq<Update>, keepInfinity: bool)
    ensures var t := TraceOf(nodes, updates, keepInfinity);
      && t[0].nodes == Copy(nodes, keepInfinity) && t[0].currentNode == None && t[0].currentLine == None
      && t[|t| - 1].currentNode == None && t[|t| - 1].currentLine == None
      && t[|t| - 1].description == FinalDescription
      && forall k :: 1 <= k <= |updates| ==>
           && t[k].currentNode == Some(updates[k - 1].node)
           && t[k].description == updates[k - 1].desc
           && t[k].currentLine == LineFor(updates[k - 1].desc)
  {
    var t := TraceOf(nodes, updates, keepInfinity);
    forall k | 1 <= k <= |updates|
      ensures t[k].currentNode == Some(updates[k - 1].node) && t[k].description == updates[k - 1].desc
      ensures t[k].currentLine == LineFor(updates[k - 1].desc)
    {
      assert t[k] == UpdateSteps(Start(nodes, keepInfinity), updates)[k - 1];
      UpdateStepAt(Start(nodes, keepInfinity), updates, k - 1);
    }
  }

  /** With distinct ids, an update keeps the distance map in agreement with
      the nodes. */
  lemma UpdateConsistent(s: State, u: Update, keepInfinity: bool)
    requires UniqueIds(s.nodes) && Consistent(s.nodes, s.dm, keepInfinity)
    ensures Consistent(ApplyUpdate(s, u).nodes, ApplyUpdate(s, u).dm, keepInfinity)
  {
    var r := ApplyUpdate(s, u);
    var i := FindIndex(s.nodes, u.node);
    forall k | 0 <= k < |r.nodes|
      ensures Agrees(r.nodes[k], r.dm, keepInfinity)
    {
      assert Agrees(s.nodes[k], s.dm, keepInfinity);
      if 0 <= i && k != i {
        assert s.nodes[k].id != s.nodes[i].id;
      }
    }
  }

  lemma {:induction false} RunConsistent(init: State, us: seq<Update>, keepInfinity: bool)
    requires UniqueIds(init.nodes) && Consistent(init.nodes, init.dm, keepInfinity)
    ensures Consistent(Run(init, us).nodes, Run(init, us).dm, keepInfinity)
    decreases |us|
  {
    if us != [] {
      var s := Run(init, us[..|us| - 1]);
      RunConsistent(init, us[..|us| - 1], keepInfinity);
      RunKeepsNodes(init, us[..|us| - 1]);
      assert UniqueIds(s.nodes);
      UpdateConsistent(s, us[|us| - 1], keepInfinity);
    }
  }

  /** With distinct node ids, every step's distance map agrees with its
      nodes: in the page's trace each node shows its map entry, with `null`
      where the entry is `Infinity`; with copies that keep `Infinity` each
      node shows exactly its map entry. */
  lemma TraceConsistent(nodes: seq<Node>, updates: seq<Update>, keepInfinity: bool)
    requires UniqueIds(nodes)
    ensures forall k :: 0 <= k < |TraceOf(nodes, updates, keepInfinity)| ==>
      Consistent(TraceOf(nodes, updates, keepInfinity)[k].nodes, TraceOf(nodes, updates, keepInfinity)[k].distanceMatrix, keepInfinity)
  {
    var t := TraceOf(nodes, updates, keepInfinity);
    TraceStates(nodes, updates, keepInfinity);
    StartConsistent(nodes, keepInfinity);
    forall k | 0 <= k < |t|
      ensures Consistent(t[k].nodes, t[k].distanceMatrix, keepInfinity)
    {
      RunConsistent(Start(nodes, keepInfinity), updates[..Shown(k, updates)], keepInfinity);
    }
  }

  /** The text the page renders for a distance, on a node and in the map
      panel alike: "∞" for `Infinity`, the digits of a finite distance, and
      nothing for `null`, which React renders as empty. */
  function Label(d: Dist): (s: string)
    ensures s == "" <==> d.Null?
    ensures s == "∞" <==> d.Inf?
  {
    match d
    case Inf => "∞"
    case Fin(n) => NatToString(n)
    case Null => ""
  }

  /** With copies that keep `Infinity`, every node in every step renders the
      same label as its entry in the map panel. */
  lemma IntendedLabelsAgree(nodes: seq<Node>, updates: seq<Update>)
    requires UniqueIds(nodes)
    ensures var t := IntendedTrace(nodes, updates);
      forall k, j :: 0 <= k < |t| && 0 <= j < |t[k].nodes| ==>
        t[k].nodes[j].id in t[k].distanceMatrix
          && Label(t[k].nodes[j].distance) == Label(t[k].distanceMatrix[t[k].nodes[j].id])
  {
    var t := IntendedTrace(nodes, updates);
    TraceConsistent(nodes, updates, true);
    forall k, j | 0 <= k < |t| && 0 <= j < |t[k].nodes|
      ensures t[k].nodes[j].id in t[k].distanceMatrix
      ensures Label(t[k].nodes[j].distance) == Label(t[k].distanceMatrix[t[k].nodes[j].id])
    {
      assert Agrees(t[k].nodes[j], t[k].distanceMatrix, true);
    }
  }

  /** An update that writes a distance to `id`. */
  predicate Writes(u: Update, id: string) {
    u.node == id && u.distance.Some?
  }

  /** An update that marks `id` visited. */
  predicate Marks(u: Update, id: string) {
    u.node == id && u.visit
  }

  /** The position of the last update writing a distance to `id`, or -1. */
  function LastWriteAt(us: seq<Update>, id: string): (p: int)
    ensures -1 <= p < |us|
    ensures 0 <= p ==> Writes(us[p], id) && forall q :: p < q < |us| ==> !Writes(us[q], id)
    ensures p == -1 ==> forall q :: 0 <= q < |us| ==> !Writes(us[q], id)
    decreases |us|
  {
    if us == [] then -1
    else if Writes(us[|us| - 1], id) then |us| - 1
    else LastWriteAt(us[..|us| - 1], id)
  }

  /** The last write is the one no later update overrides. */
  lemma LastWriteAtIs(us: seq<Update>, id: string, p: nat)
    requires p < |us| && Writes(us[p], id)
    requires forall q :: p < q < |us| ==> !Writes(us[q], id)
    ensures LastWriteAt(us, id) == p
  {
  }

  /** The distance the last write to node `k` in `us` leaves, or the node's
      own distance when no update writes to it. */
  function Written(nodes: seq<Node>, us: seq<Update>, k: nat): Dist
    requires k < |nodes|
  {
    var p := LastWriteAt(us, nodes[k].id);
    if p == -1 then nodes[k].distance else Fin(us[p].distance.value)
  }

  /** A copy keeps the ids, so the writes land on the same nodes; a node no
      update writes keeps its copied distance. */
  lemma WrittenCopy(nodes: seq<Node>, us: seq<Update>, k: nat, keepInfinity: bool)
    requires k < |nodes|
    ensures Written(Copy(nodes, keepInfinity), us, k) ==
      if keepInfinity then Written(nodes, us, k) else JsonDist(Written(nodes, us, k))
  {
  }

  /** With distinct ids, a node's distance after a run is the one the last
      update naming it wrote, or its initial distance when none did. */
  lemma {:induction false} RunDistance(init: State, us: seq<Update>, k: nat)
    requires UniqueIds(init.nodes) && k < |init.nodes|
    ensures Run(init, us).nodes[k].distance == Written(init.nodes, us, k)
    decreases |us|
  {
    if us != [] {
      var prefix := us[..|us| - 1];
      var u := us[|us| - 1];
      var s := Run(init, prefix);
      RunDistance(init, prefix, k);
      RunKeepsNodes(init, prefix);
      assert UniqueIds(s.nodes);
      var p := LastWriteAt(us, init.nodes[k].id);
      if !Writes(u, init.nodes[k].id) {
        assert p == LastWriteAt(prefix, init.nodes[k].id);
        if 0 <= p {
          assert us[p] == prefix[p];
        }
      }
    }
  }

  /** With distinct ids, a node is visited after a run exactly when it was
      visited before or some update in the run marked it. */
  lemma {:induction false} RunVisited(init: State, us: seq<Update>, k: nat)
    requires UniqueIds(init.nodes) && k < |init.nodes|
    ensures Run(init, us).nodes[k].visited <==>
      init.nodes[k].visited || exists q :: 0 <= q < |us| && Marks(us[q], init.nodes[k].id)
    decreases |us|
  {
    if us != [] {
      var prefix := us[..|us| - 1];
      var u := us[|us| - 1];
      var s := Run(init, prefix);
      var id := init.nodes[k].id;
      RunVisited(init, prefix, k);
      RunKeepsNodes(init, prefix);
      assert UniqueIds(s.nodes);
      if exists q :: 0 <= q < |prefix| && Marks(prefix[q], id) {
        var q :| 0 <= q < |prefix| && Marks(prefix[q], id);
        assert us[q] == prefix[q];
      }
      if exists q :: 0 <= q < |us| && Marks(us[q], id) {
        var q :| 0 <= q < |us| && Marks(us[q], id);
        if q < |prefix| {
          assert prefix[q] == us[q];
        }
      }
    }
  }

  /** Later writes to a node never exceed earlier writes to it. */
  ghost predicate WritesDescend(us: seq<Update>) {
    forall p, q :: 0 <= p < q < |us| && us[p].node == us[q].node && us[p].distance.Some? && us[q].distance.Some? ==>
      us[q].distance.value <= us[p].distance.value
  }

  /** No write exceeds the initial distance of the node it names. */
  ghost predicate WritesBelowStart(nodes: seq<Node>, us: seq<Update>) {
    forall p, k :: 0 <= p < |us| && 0 <= k < |nodes| && Writes(us[p], nodes[k].id) ==>
      AtMost(Fin(us[p].distance.value), nodes[k].distance)
  }

  /** A script whose writes never raise a distance. */
  ghost predicate Descends(nodes: seq<Node>, us: seq<Update>) {
    WritesDescend(us) && WritesBelowStart(nodes, us)
  }

  /** Under a descending script the distance left by the writes never grows
      from a shorter prefix of the script to a longer one. */
  lemma WrittenShrinks(nodes: seq<Node>, us: seq<Update>, i: nat, j: nat, k: nat)
    requires Descends(nodes, us)
    requires i <= j <= |us| && k < |nodes|
    ensures AtMost(Written(nodes, us[..j], k), Written(nodes, us[..i], k))
  {
    var id := nodes[k].id;
    var pi := LastWriteAt(us[..i], id);
    var pj := LastWriteAt(us[..j], id);
    var di := Written(nodes, us[..i], k);
    var dj := Written(nodes, us[..j], k);
    assert WritesDescend(us) && WritesBelowStart(nodes, us);
    if 0 <= pi {
      assert Writes(us[..j][pi], id) by {
        assert us[..j][pi] == us[..i][pi];
      }
      assert 0 <= pj && pi <= pj;
      assert di == Fin(us[pi].distance.value) by {
        assert us[..i][pi] == us[pi];
      }
      assert dj == Fin(us[pj].distance.value) by {
        assert us[..j][pj] == us[pj];
      }
      if pi < pj {
        assert us[pi].node == us[pj].node;
        assert us[pj].distance.value <= us[pi].distance.value;
      }
      assert AtMost(dj, di);
    } else if 0 <= pj {
      assert Writes(us[pj], id) && dj == Fin(us[pj].distance.value) by {
        assert us[..j][pj] == us[pj];
      }
      assert di == nodes[k].distance;
      assert AtMost(dj, di);
    }
  }

  /** Under a descending script a node's distance never grows from a shorter
      prefix of the run to a longer one. */
  lemma DistanceShrinks(init: State, us: seq<Update>, i: nat, j: nat, k: nat)
    requires UniqueIds(init.nodes) && Descends(init.nodes, us)
    requires i <= j <= |us| && k < |init.nodes|
    ensures AtMost(Run(init, us[..j]).nodes[k].distance, Run(init, us[..i]).nodes[k].distance)
  {
    RunDistance(init, us[..i], k);
    RunDistance(init, us[..j], k);
    WrittenShrinks(init.nodes, us, i, j, k);
  }

  /** Copying keeps ids distinct, and a script that descends from the nodes
      descends from their copy. */
  lemma CopyKeeps(nodes: seq<Node>, us: seq<Update>, keepInfinity: bool)
    requires UniqueIds(nodes) && Descends(nodes, us)
    ensures UniqueIds(Copy(nodes, keepInfinity)) && Descends(Copy(nodes, keepInfinity), us)
  {
    var c := Copy(nodes, keepInfinity);
    assert WritesDescend(us);
    forall p, k | 0 <= p < |us| && 0 <= k < |c| && Writes(us[p], c[k].id)
      ensures AtMost(Fin(us[p].distance.value), c[k].distance)
    {
      assert WritesBelowStart(nodes, us);
      assert AtMost(Fin(us[p].distance.value), nodes[k].distance);
    }
  }

  /** Under a descending script, each node's distance never increases from
      one step of the trace to a later one. */
  lemma TraceDistancesShrink(nodes: seq<Node>, updates: seq<Update>, keepInfinity: bool)
    requires UniqueIds(nodes) && Descends(nodes, updates)
    ensures var t := TraceOf(nodes, updates, keepInfinity);
      forall i, j, k :: 0 <= i <= j < |t| && 0 <= k < |nodes| ==>
        k < |t[i].nodes| && k < |t[j].nodes| && AtMost(t[j].nodes[k].distance, t[i].nodes[k].distance)
  {
    var t := TraceOf(nodes, updates, keepInfinity);
    TraceStates(nodes, updates, keepInfinity);
    CopyKeeps(nodes, updates, keepInfinity);
    forall i, j, k | 0 <= i <= j < |t| && 0 <= k < |nodes|
      ensures k < |t[i].nodes| && k < |t[j].nodes| && AtMost(t[j].nodes[k].distance, t[i].nodes[k].distance)
    {
      DistanceShrinks(Start(nodes, keepInfinity), updates, Shown(i, updates), Shown(j, updates), k);
    }
  }

  /** A visited flag, once set, stays set for the rest of the run. */
  lemma {:induction false} VisitedPersists(init: State, us: seq<Update>, i: nat, j: nat, k: nat)
    requires i <= j <= |us| && k < |init.nodes|
    requires Run(init, us[..i]).nodes[k].visited
    ensures Run(init, us[..j]).nodes[k].visited
    decreases j
  {
    if i < j {
      VisitedPersists(init, us, i, j - 1, k);
      RunGrow(init, us, j - 1);
      UpdateKeepsVisited(Run(init, us[..j - 1]), us[j - 1], k);
    }
  }

  /** Across the trace no visited flag goes back from true to false. */
  lemma TraceVisitedPersists(nodes: seq<Node>, updates: seq<Update>, keepInfinity: bool)
    ensures var t := TraceOf(nodes, updates, keepInfinity);
      forall i, j, k :: 0 <= i <= j < |t| && 0 <= k < |nodes| ==>
        k < |t[i].nodes| && k < |t[j].nodes| && (t[i].nodes[k].visited ==> t[j].nodes[k].visited)
  {
    var t := TraceOf(nodes, updates, keepInfinity);
    TraceStates(nodes, updates, keepInfinity);
    forall i, j, k | 0 <= i <= j < |t| && 0 <= k < |nodes| && t[i].nodes[k].visited
      ensures t[j].nodes[k].visited
    {
      VisitedPersists(Start(nodes, keepInfinity), updates, Shown(i, updates), Shown(j, updates), k);
    }
  }

  /** The generator itself: fills the distance map from the nodes, then
      applies the script to a JSON copy of the nodes and to the map, pushing
      a JSON snapshot after each update and the copy itself at the end. */
  method GenerateTrace(nodes: seq<Node>, updates: seq<Update>) returns (steps: seq<Step>)
    ensures steps == Trace(nodes, updates)
  {
    var dm := FillDistanceMap(nodes);
    var first := Step(JsonCopy(nodes), None, InitialDescription, dm, None);
    var current := new Node[|nodes|](k requires 0 <= k < |nodes| => nodes[k].(distance := JsonDist(nodes[k].distance)));
    assert current[..] == JsonCopy(nodes);
    var updateSteps;
    dm, updateSteps := ReplayScript(current, dm, updates);
    steps := [first] + updateSteps + [Step(current[..], None, FinalDescription, dm, None)];
  }

  /** The `updates.forEach` loop: each update is applied in place to the node
      array and the map, and a step with a JSON copy of the nodes and the
      map is pushed after it. */
  method ReplayScript(current: array<Node>, dm: map<string, Dist>, updates: seq<Update>)
    returns (dm': map<string, Dist>, steps: seq<Step>)
    requires NoInfinity(current[..])
    modifies current
    ensures State(current[..], dm') == Run(State(old(current[..]), dm), updates)
    ensures steps == UpdateSteps(State(old(current[..]), dm), updates)
  {
    ghost var init := State(current[..], dm);
    dm' := dm;
    steps := [];
    var j := 0;
    while j < |updates|
      invariant 0 <= j <= |updates|
      invariant State(current[..], dm') == Run(init, updates[..j])
      invariant steps == UpdateSteps(init, updates[..j])
      invariant NoInfinity(current[..])
    {
      var u := updates[j];
      UpdateStepsGrow(init, updates, j);
      dm' := ApplyInPlace(current, dm', u);
      RunNoInfinity(init, updates[..j + 1]);
      JsonCopyKeeps(current[..]);
      steps := steps + [Step(JsonCopy(current[..]), Some(u.node), u.desc, dm', LineFor(u.desc))];
      j := j + 1;
    }
    assert updates[..|updates|] == updates;
  }

  /** `nodes.forEach(n => distanceMatrix[n.id] = n.distance)`. */
  method FillDistanceMap(nodes: seq<Node>) returns (dm: map<string, Dist>)
    ensures dm == InitialMap(nodes)
  {
    dm := map[];
    var i := 0;
    while i < |nodes|
      invariant 0 <= i <= |nodes|
      invariant dm == InitialMap(nodes[..i])
    {
      assert nodes[..i + 1][..i] == nodes[..i];
      dm := dm[nodes[i].id := nodes[i].distance];
      i := i + 1;
    }
    assert nodes[..|nodes|] == nodes;
  }

  /** The body of `updates.forEach`: writes the update into the node array in
      place and into the distance map. */
  method ApplyInPlace(current: array<Node>, dm: map<string, Dist>, u: Update) returns (dm': map<string, Dist>)
    modifies current
    ensures State(current[..], dm') == ApplyUpdate(State(old(current[..]), dm), u)
  {
    dm' := dm;
    var index := FindIndex(current[..], u.node);
    if index != -1 {
      if u.distance.Some? {
        current[index] := current[index].(distance := Fin(u.distance.value));
        dm' := dm'[u.node := Fin(u.distance.value)];
      }
      if u.visit {
        current[index] := current[index].(visited := true);
      }
    }
  }

  /** The sample's ids are distinct. */
  lemma SampleUnique(nodes: seq<Node>)
    requires nodes == SampleNodes
    ensures UniqueIds(nodes)
  {
  }

  /** The first step shows a JSON copy of the nodes beside the map filled
      from the nodes themselves. */
  lemma FirstStep(nodes: seq<Node>, updates: seq<Update>)
    ensures Trace(nodes, updates)[0] == Step(JsonCopy(nodes), None, InitialDescription, InitialMap(nodes), None)
  {
  }

  /** On the page's nodes, whatever the script, the first step shows A at
      distance 0 and every other node at `null` while the map holds
      `Infinity` for it, no node visited, and neither a highlighted node nor
      a pseudo-code line. */
  lemma SampleStart(nodes: seq<Node>, updates: seq<Update>)
    requires nodes == SampleNodes
    ensures var s := Trace(nodes, updates)[0];
      && s.currentNode == None && s.currentLine == None && s.description == InitialDescription
      && |s.nodes| == 6 && s.nodes[0].id == "A" && s.nodes[0].distance == Fin(0)
      && (forall k :: 0 <= k < 6 ==> !s.nodes[k].visited && s.nodes[k].id in s.distanceMatrix)
      && s.distanceMatrix["A"] == Fin(0)
      && (forall k :: 1 <= k < 6 ==> s.nodes[k].distance == Null && s.distanceMatrix[s.nodes[k].id] == Inf)
  {
    FirstStep(nodes, updates);
    SampleUnique(nodes);
    InitialConsistent(nodes);
    assert nodes[0].distance == Fin(0);
    assert forall k :: 1 <= k < 6 ==> nodes[k].distance == Inf;
  }

  /** On the page's nodes the first step renders nodes B to F with an empty
      label while the map panel renders "∞" for them; with copies that keep
      `Infinity` the nodes render "∞" too. */
  lemma SampleLabels(nodes: seq<Node>, updates: seq<Update>)
    requires nodes == SampleNodes
    ensures forall k :: 1 <= k < 6 ==>
      var s := Trace(nodes, updates)[0];
      var i := IntendedTrace(nodes, updates)[0];
      && k < |s.nodes| && k < |i.nodes| && s.nodes[k].id in s.distanceMatrix
      && Label(s.nodes[k].distance) == "" && Label(s.distanceMatrix[s.nodes[k].id]) == "∞"
      && Label(i.nodes[k].distance) == "∞"
  {
    SampleStart(nodes, updates);
    TraceLabels(nodes, updates, true);
    assert forall k :: 1 <= k < 6 ==> nodes[k].distance == Inf;
  }

  /** The node, distance and select columns of the page's script; C, B, D, E
      and F are each selected once. They restate `SampleUpdates` column by
      column (`SampleColumns` ties the two) so that the lemmas below need not
      unfold the literal script. */
  const SampleTargets: seq<string> := ["A", "B", "C", "C", "B", "E", "B", "D", "D", "F", "E", "E", "F"]
  const SampleWrites: seq<nat> := [0, 4, 2, 2, 3, 7, 3, 5, 5, 7, 6, 6, 7]
  const SampleSelects: seq<bool> := [false, false, false, true, false, false, true, false, true, false, false, true, true]

  /** A script with the page's columns: thirteen entries that name, write and
      select what the page's entries do, whatever their texts. */
  ghost predicate SampleShaped(updates: seq<Update>) {
    && |updates| == 13
    && forall q :: 0 <= q < 13 ==>
         && updates[q].node == SampleTargets[q] && updates[q].distance == Some(SampleWrites[q])
         && updates[q].visit == SampleSelects[q]
  }

  /** The page's script has those columns. */
  lemma SampleColumns(updates: seq<Update>)
    requires updates == SampleUpdates
    ensures SampleShaped(updates)
  {
  }

  /** On the page's nodes a script with the page's columns never raises a
      distance. */
  lemma SampleDescends(nodes: seq<Node>, updates: seq<Update>)
    requires nodes == SampleNodes && SampleShaped(updates)
    ensures Descends(nodes, updates)
  {
    forall p, q | 0 <= p < q < |updates| && updates[p].node == updates[q].node
      ensures SampleWrites[q] <= SampleWrites[p]
    {
      assert SampleTargets[p] == SampleTargets[q];
    }
    forall p, k | 0 <= p < |updates| && 0 <= k < |nodes| && Writes(updates[p], nodes[k].id)
      ensures AtMost(Fin(updates[p].distance.value), nodes[k].distance)
    {
      if k == 0 {
        assert SampleTargets[p] == "A";
        assert p == 0;
      }
    }
  }

  /** In a script with the page's columns, a node's distance is the one the
      last entry naming it writes. */
  lemma ColumnWritten(nodes: seq<Node>, updates: seq<Update>, k: nat, p: nat)
    requires SampleShaped(updates) && k < |nodes| && p < 13
    requires SampleTargets[p] == nodes[k].id && forall q :: p < q < 13 ==> SampleTargets[q] != nodes[k].id
    ensures Written(nodes, updates, k) == Fin(SampleWrites[p])
  {
    LastWriteAtIs(updates, nodes[k].id, p);
  }

  /** In a script with the page's columns the last write to each node is: A
      at entry 0, B at 6, C at 3, D at 8, E at 11, F at 12, leaving A 0, B 3,
      C 2, D 5, E 6, F 7. */
  lemma SampleWritten(nodes: seq<Node>, updates: seq<Update>, k: nat)
    requires nodes == SampleNodes && SampleShaped(updates) && k < 6
    ensures Written(nodes, updates, k) == [Fin(0), Fin(3), Fin(2), Fin(5), Fin(6), Fin(7)][k]
  {
    if k == 0 {
      ColumnWritten(nodes, updates, 0, 0);
    } else if k == 1 {
      ColumnWritten(nodes, updates, 1, 6);
    } else if k == 2 {
      ColumnWritten(nodes, updates, 2, 3);
    } else if k == 3 {
      ColumnWritten(nodes, updates, 3, 8);
    } else if k == 4 {
      ColumnWritten(nodes, updates, 4, 11);
    } else {
      ColumnWritten(nodes, updates, 5, 12);
    }
  }

  /** The distance such a script leaves on node `k`. */
  lemma SampleFinalDistance(nodes: seq<Node>, updates: seq<Update>, k: nat)
    requires nodes == SampleNodes && SampleShaped(updates) && k < 6
    ensures Run(Start(nodes, false), updates).nodes[k].distance == [Fin(0), Fin(3), Fin(2), Fin(5), Fin(6), Fin(7)][k]
  {
    SampleUnique(nodes);
    StartConsistent(nodes, false);
    RunDistance(Start(nodes, false), updates, k);
    WrittenCopy(nodes, updates, k, false);
    SampleWritten(nodes, updates, k);
  }

  /** On the page's data the trace has fifteen steps and ends with the
      distances A 0, B 3, C 2, D 5, E 6, F 7. */
  lemma SampleTrace(nodes: seq<Node>, updates: seq<Update>)
    requires nodes == SampleNodes && SampleShaped(updates)
    ensures |Trace(nodes, updates)| == 15
    ensures forall k :: 0 <= k < 6 ==>
      Trace(nodes, updates)[14].nodes[k].distance == [Fin(0), Fin(3), Fin(2), Fin(5), Fin(6), Fin(7)][k]
  {
    var t := Trace(nodes, updates);
    TraceStateAt(nodes, updates, false, 14);
    assert updates[..13] == updates;
    forall k | 0 <= k < 6
      ensures t[14].nodes[k].distance == [Fin(0), Fin(3), Fin(2), Fin(5), Fin(6), Fin(7)][k]
    {
      SampleFinalDistance(nodes, updates, k);
    }
  }

  /** No entry of such a script selects node A. */
  lemma SampleNeverSelectsA(nodes: seq<Node>, updates: seq<Update>, m: nat)
    requires nodes == SampleNodes && SampleShaped(updates) && m <= 13
    ensures forall q :: 0 <= q < m ==> !Marks(updates[..m][q], nodes[0].id)
  {
    forall q | 0 <= q < m
      ensures !Marks(updates[..m][q], nodes[0].id)
    {
      assert updates[..m][q] == updates[q];
    }
  }

  /** On the page's data node A is unvisited in every step, although the last
      step's text says that all nodes were visited. */
  lemma SampleNeverVisitsA(nodes: seq<Node>, updates: seq<Update>)
    requires nodes == SampleNodes && SampleShaped(updates)
    ensures forall k :: 0 <= k < |Trace(nodes, updates)| ==> !Trace(nodes, updates)[k].nodes[0].visited
  {
    var t := Trace(nodes, updates);
    var init := Start(nodes, false);
    SampleUnique(nodes);
    StartConsistent(nodes, false);
    forall k | 0 <= k < |t|
      ensures !t[k].nodes[0].visited
    {
      var m := Shown(k, updates);
      TraceStateAt(nodes, updates, false, k);
      RunVisited(init, updates[..m], 0);
      SampleNeverSelectsA(nodes, updates, m);
    }
  }

  /** In such a script node `k` (B to F) is selected by some entry. */
  lemma SampleSelectsNode(nodes: seq<Node>, updates: seq<Update>, k: nat)
    requires nodes == SampleNodes && SampleShaped(updates) && 1 <= k < 6
    ensures exists q :: 0 <= q < 13 && Marks(updates[q], nodes[k].id)
  {
    var q := if k == 1 then 6 else if k == 2 then 3 else if k == 3 then 8 else if k == 4 then 11 else 12;
    assert Marks(updates[q], nodes[k].id);
  }

  /** On the page's data nodes B to F are visited in the last step. */
  lemma SampleFinalVisits(nodes: seq<Node>, updates: seq<Update>)
    requires nodes == SampleNodes && SampleShaped(updates)
    ensures forall k :: 1 <= k < 6 ==> Trace(nodes, updates)[14].nodes[k].visited
  {
    var t := Trace(nodes, updates);
    var init := Start(nodes, false);
    TraceStateAt(nodes, updates, false, 14);
    SampleUnique(nodes);
    StartConsistent(nodes, false);
    assert updates[..13] == updates;
    forall k | 1 <= k < 6
      ensures t[14].nodes[k].visited
    {
      RunVisited(init, updates, k);
      SampleSelectsNode(nodes, updates, k);
    }
  }
}
