/** With a cooperative backend, the nested resolvers compute a plain recursion over the chain of start nodes. */
module PathRefinement {
  import opened Wrappers
  import opened Bytes
  import opened NodeText
  import opened NodeIdentity
  import opened TargetSelection
  import opened PathSteps

  // ---------------------------------------------------------------- the plain recursion

  /** A resolved node: nothing but an index and an identifier. */
  datatype Place = Place(index: u16, id: string)

  datatype Answer = Found(place: Place) | Failed(error: Error)

  type Backend = (string, seq<string>) -> Reply

  /** One browse from a place. */
  function Hop(backend: Backend, from: Place, path: seq<string>): Answer {
    var reply := backend(CreateNodeString(from.index, from.id), path);
    if !reply.good then Failed(BadStatus)
    else
      match Select(reply.results)
      case Refused(error) => Failed(error)
      case Chosen(node) => Found(Place(node.index, node.id))
  }

  /** The paths of the chain are followed from its far end, where the absolute start node is. */
  function Walk(g: Graph, chain: seq<nat>, backend: Backend, start: Place): Answer
    requires chain != [] && forall i | 0 <= i < |chain| :: chain[i] < |g|
  {
    var from := if |chain| == 1 then Found(start) else Walk(g, chain[1..], backend, start);
    match from
    case Failed(error) => Failed(error)
    case Found(place) => Hop(backend, place, g[chain[0]].path)
  }

  // ---------------------------------------------------------------- assumptions

  /** Each relative id starts at the next, the last one at an absolute node, and no path is empty. */
  ghost predicate IsChain(g: Graph, chain: seq<nat>, absolute: Node) {
    && 0 < |chain| <= 51
    && (forall i | 0 <= i < |chain| :: chain[i] < |g| && g[chain[i]].path != [])
    && (forall i | 0 <= i < |chain| - 1 :: g[chain[i]].start == Relative(chain[i + 1]))
    && g[chain[|chain| - 1]].start == Absolute(absolute)
  }

  /** Nothing is deleted, every node id names a node, and every browse can be started. */
  ghost predicate Benign(w: World) {
    && (forall l :: !w.goneAtStart(l) && !w.goneAtResume(l) && w.startsBrowse(l))
    && (forall l, id :: id != "" ==> w.makesNode(l, id))
  }

  /** The table gives the index a name. */
  predicate NamedIndex(index: u16, table: seq<string>) {
    index < |table| && table[index] != ""
  }

  /** No URI, a node id that splits, and an index the table has a name for. */
  predicate Clean(t: Target, table: seq<string>) {
    t.uri == "" && Named(t) && NamedIndex(Low16(SplitNodeId(t.nodeId).value.0), table)
  }

  /** The targets that can be used are clean: a single one on this server, or the local ones among several. */
  predicate CleanReply(reply: Reply, table: seq<string>) {
    if |reply.results| == 1 then reply.results[0].serverIndex == 0 ==> Clean(reply.results[0], table)
    else forall i | 0 <= i < |Locals(reply.results)| :: Clean(Locals(reply.results)[i], table)
  }

  ghost predicate CleanBackend(backend: Backend, table: seq<string>) {
    forall id, path :: CleanReply(backend(id, path), table)
  }

  /** Where an absolute start node is: at its index, if that is valid, and otherwise at the first index of its name. */
  function StartPlace(absolute: Node, table: seq<string>): Option<Place> {
    if absolute.id == "" then None
    else if absolute.valid then Some(Place(absolute.index, absolute.id))
    else if absolute.name == "" || absolute.name !in table then None
    else Some(Place(Position(absolute.name, table).value % 0x1_0000, absolute.id))
  }

  /** The node a start node is resolved to before the first browse. */
  function StartNodeOf(absolute: Node, table: seq<string>): Node {
    Apply(Apply(FRESH, FromNodeIdType(absolute), []), ResolveNamespace, table)
  }

  lemma StartIsResolved(absolute: Node, table: seq<string>)
    ensures
      var n := StartNodeOf(absolute, table);
      StartPlace(absolute, table) == if n.valid && n.id != "" then Some(Place(n.index, n.id)) else None
  {
    hide Position;
  }

  // ---------------------------------------------------------------- the run

  /** The backend answers every browse, until none is outstanding. */
  function Drive(g: Graph, s: State, backend: Backend, w: World): State
    requires InGraph(g, s)
    decreases |s.stack|
  {
    if s.stack == [] || s.browsing.None? then s
    else
      var reply := backend(s.browsing.value, g[s.stack[|s.stack| - 1]].path);
      Drive(g, BrowsePathFinished(g, s, reply, w), backend, w)
  }

  /** The node object a place is passed on as. */
  function AsNode(p: Place, table: seq<string>): Node
    requires p.index < |table|
  {
    Node(table[p.index], p.id, p.index, true)
  }

  /** Such a node survives being copied, and resolving it changes nothing. */
  lemma NamedNodesSurvive(p: Place, table: seq<string>)
    requires NamedIndex(p.index, table) && p.id != ""
    ensures
      var n := AsNode(p, table);
      Copy(n) == n && Apply(n, ResolveNamespace, table) == n && FullNodeId(n) == CreateNodeString(p.index, p.id) != ""
  {
  }

  lemma CleanTargetTaken(t: Target, table: seq<string>)
    requires Clean(t, table)
    ensures
      var p := Place(Low16(SplitNodeId(t.nodeId).value.0), SplitNodeId(t.nodeId).value.1);
      && Taken(FRESH, t) == Node("", p.id, p.index, true) && p.id != ""
      && Apply(Taken(FRESH, t), ResolveNamespace, table) == AsNode(p, table)
  {
  }

  /** Among named targets, one can only be the last and alone in being named if there are no others. */
  lemma CleanLocals(locals: seq<Target>, table: seq<string>)
    requires OnlyLastNamed(locals) && forall i | 0 <= i < |locals| :: Clean(locals[i], table)
    ensures |locals| == 1
  {
  }

  /** What is selected from a clean reply is a place the table names. */
  lemma CleanSelectionResolved(reply: Reply, table: seq<string>)
    requires CleanReply(reply, table) && Select(reply.results).Chosen?
    ensures
      var n := Select(reply.results).node;
      && NamedIndex(n.index, table) && n.id != ""
      && Apply(n, ResolveNamespace, table) == AsNode(Place(n.index, n.id), table)
  {
    hide Taken, Named, Apply;
    var results := reply.results;
    if |results| == 1 {
      CleanTargetTaken(results[0], table);
    } else {
      ChosenIff(results);
      CleanLocals(Locals(results), table);
      CleanScan(results, NoneResolved);
      SeveralResults(results);
      CleanTargetTaken(Locals(results)[0], table);
    }
  }

  lemma SelectionErrors(results: seq<Target>)
    ensures Select(results).Refused? ==> Select(results).error != NoError
  {
    hide Taken, Named;
    if |results| >= 2 {
      SelectIsJudged(results);
    }
  }

  /** The state in which level `k` waits for the browse from `from`. */
  predicate WaitsAt(s: State, chain: seq<nat>, k: nat, from: Place) {
    k < |chain| && s.stack == chain[..k + 1] && s.browsing == Some(CreateNodeString(from.index, from.id))
  }

  /** What the outermost resolver has to emit for an answer. */
  predicate Emits(s: State, answer: Answer, table: seq<string>) {
    && s.stack == [] && s.emitted != []
    && var last := s.emitted[|s.emitted| - 1];
       && last.level == 0
       && match answer
          case Failed(error) => last.error == error != NoError
          case Found(place) => last.error == NoError && place.index < |table| && last.node == AsNode(place, table)
  }

  /** A resolved node is taken over by the level below, which browses from it. */
  lemma NodeIsPassedOn(g: Graph, s: State, p: Place, w: World)
    requires Benign(w) && NamedIndex(p.index, w.table) && p.id != "" && s.stack != [] && InGraph(g, s)
    ensures
      var level := |s.stack| - 1;
      var n := AsNode(p, w.table);
      Emit(g, s, n, NoError, w) ==
      State(s.stack[..level], if level == 0 then None else Some(CreateNodeString(p.index, p.id)), s.created,
            s.emitted + [Emission(level, n, NoError)])
  {
    NamedNodesSurvive(p, w.table);
    var level := |s.stack| - 1;
    var n := AsNode(p, w.table);
    hide Copy, Apply, CreateNodeString, FullNodeId;
    if level > 0 {
      var below := State(s.stack[..level], None, s.created, s.emitted + [Emission(level, n, NoError)]);
      assert StartNodeResolved(g, below, n, NoError, w) == below.(browsing := Some(FullNodeId(n)));
    }
  }

  lemma UnnamedIsNotPassedOn(g: Graph, s: State, p: Place, w: World)
    requires Benign(w) && (forall l :: !w.makesNode(l, "")) && p.id != "" && |s.stack| >= 2 && InGraph(g, s)
    ensures
      var t := Emit(g, s, Node("", p.id, p.index, true), NoError, w);
      t.stack == [] && t.browsing.None? && t.emitted[|t.emitted| - 1].error == NodeNotCreated("")
  {
    UnfaithfulCopies(Node("", p.id, p.index, true));
    var level := |s.stack| - 1;
    var received := Node("", p.id, 0, false);
    assert Apply(received, ResolveNamespace, w.table) == received && FullNodeId(received) == "";
    hide Copy, Apply, CreateNodeString, FullNodeId;
    var below := State(s.stack[..level], None, s.created, s.emitted + [Emission(level, received, NoError)]);
    assert StartNodeResolved(g, below, received, NoError, w) == Emit(g, below, received, NodeNotCreated(""), w);
    ErrorsReachTheTop(g, below, received, NodeNotCreated(""), w);
  }

  /**
   Why the table has to name every index: the copy made for the level below keeps an index only together with a name,
   so that level can go on from a target without a URI exactly if the table names its index.
   */
  lemma PassedOnIff(g: Graph, s: State, p: Place, w: World)
    requires Benign(w) && (forall l :: !w.makesNode(l, "")) && p.id != "" && |s.stack| >= 2 && InGraph(g, s)
    ensures
      var n := Apply(Node("", p.id, p.index, true), ResolveNamespace, w.table);
      var t := Emit(g, s, n, NoError, w);
      && (t.browsing == Some(CreateNodeString(p.index, p.id)) <==> NamedIndex(p.index, w.table))
      && (!NamedIndex(p.index, w.table) ==> t.stack == [] && t.emitted[|t.emitted| - 1].error == NodeNotCreated(""))
  {
    var n := Apply(Node("", p.id, p.index, true), ResolveNamespace, w.table);
    if NamedIndex(p.index, w.table) {
      assert n == AsNode(p, w.table);
      NodeIsPassedOn(g, s, p, w);
    } else {
      assert n == Node("", p.id, p.index, true);
      UnnamedIsNotPassedOn(g, s, p, w);
    }
  }

  lemma FailureIsEmitted(g: Graph, s: State, error: Error, w: World)
    requires Benign(w) && s.stack != [] && InGraph(g, s) && error != NoError
    ensures Emits(Emit(g, s, FRESH, error, w), Failed(error), w.table)
  {
    ErrorsReachTheTop(g, s, FRESH, error, w);
  }

  lemma PlaceIsPassedOn(g: Graph, chain: seq<nat>, k: nat, s: State, p: Place, w: World)
    requires Benign(w) && NamedIndex(p.index, w.table) && p.id != "" && InGraph(g, s)
    requires k < |chain| && s.stack == chain[..k + 1]
    ensures
      var t := Emit(g, s, AsNode(p, w.table), NoError, w);
      if k == 0 then Emits(t, Found(p), w.table) else WaitsAt(t, chain, k - 1, p)
  {
    hide Emit, CreateNodeString;
    NodeIsPassedOn(g, s, p, w);
    assert chain[..k + 1][..k] == chain[..k];
  }

  /** One reply: the level below starts its browse at the place just found, or the outermost one is done. */
  lemma OneReply(g: Graph, chain: seq<nat>, k: nat, from: Place, s: State, backend: Backend, w: World)
    requires Benign(w) && CleanBackend(backend, w.table) && InGraph(g, s) && k < |chain| && chain[k] < |g|
    requires WaitsAt(s, chain, k, from)
    ensures
      var t := BrowsePathFinished(g, s, backend(s.browsing.value, g[chain[k]].path), w);
      match Hop(backend, from, g[chain[k]].path)
      case Failed(error) => Emits(t, Failed(error), w.table)
      case Found(place) => if k == 0 then Emits(t, Found(place), w.table) else WaitsAt(t, chain, k - 1, place)
  {
    var reply := backend(s.browsing.value, g[chain[k]].path);
    assert CleanReply(reply, w.table);
    hide Benign, Select, CleanReply, CleanBackend, Apply, CreateNodeString, Emit, Emits;
    if !reply.good {
      FailureIsEmitted(g, s, BadStatus, w);
    } else if Select(reply.results).Refused? {
      SelectionErrors(reply.results);
      FailureIsEmitted(g, s, Select(reply.results).error, w);
    } else {
      CleanSelectionResolved(reply, w.table);
      var n := Select(reply.results).node;
      PlaceIsPassedOn(g, chain, k, s, Place(n.index, n.id), w);
    }
  }

  /** From any level on, driving the resolvers yields what the recursion yields. */
  lemma {:induction false} DriveFollowsWalk(g: Graph, chain: seq<nat>, k: nat, start: Place, from: Place, s: State,
                                            backend: Backend, w: World)
    requires Benign(w) && CleanBackend(backend, w.table) && InGraph(g, s)
    requires k < |chain| && forall i | 0 <= i < |chain| :: chain[i] < |g|
    requires WaitsAt(s, chain, k, from)
    requires (if k == |chain| - 1 then Found(start) else Walk(g, chain[k + 1..], backend, start)) == Found(from)
    ensures Emits(Drive(g, s, backend, w), Walk(g, chain, backend, start), w.table)
    decreases k
  {
    hide BrowsePathFinished, Hop, CleanBackend;
    var t := BrowsePathFinished(g, s, backend(s.browsing.value, g[chain[k]].path), w);
    OneReply(g, chain, k, from, s, backend, w);
    assert chain[k..][0] == chain[k] && chain[k..][1..] == chain[k + 1..];
    var answer := Hop(backend, from, g[chain[k]].path);
    assert Walk(g, chain[k..], backend, start) == answer;
    assert Drive(g, s, backend, w) == Drive(g, t, backend, w) by {
      StillInGraph(g, s, backend(s.browsing.value, g[chain[k]].path), w);
    }
    if answer.Failed? {
      WalkFails(g, chain, k, backend, start);
    } else if k == 0 {
      assert chain[0..] == chain;
    } else {
      StillInGraph(g, s, backend(s.browsing.value, g[chain[k]].path), w);
      DriveFollowsWalk(g, chain, k - 1, start, answer.place, t, backend, w);
    }
  }

  lemma StillInGraph(g: Graph, s: State, reply: Reply, w: World)
    requires s.stack != [] && InGraph(g, s)
    ensures InGraph(g, BrowsePathFinished(g, s, reply, w))
  {
  }

  /** A failure further out along the chain is the failure of the whole walk. */
  lemma {:induction false} WalkFails(g: Graph, chain: seq<nat>, k: nat, backend: Backend, start: Place)
    requires k < |chain| && forall i | 0 <= i < |chain| :: chain[i] < |g|
    requires Walk(g, chain[k..], backend, start).Failed?
    ensures Walk(g, chain, backend, start) == Walk(g, chain[k..], backend, start)
    decreases k
  {
    if k == 0 {
      assert chain[0..] == chain;
    } else {
      assert chain[k - 1..][1..] == chain[k..];
      WalkFails(g, chain, k - 1, backend, start);
    }
  }

  /** The last resolver of a chain starts from the absolute node. */
  lemma LastStarts(g: Graph, chain: seq<nat>, absolute: Node, s: State, w: World)
    requires IsChain(g, chain, absolute) && Benign(w) && InGraph(g, s)
    requires s.stack == chain && s.browsing.None? && s.created == |chain|
    ensures StartResolving(g, s, w) ==
            StartNodeResolved(g, s, Apply(FRESH, FromNodeIdType(absolute), []), NoError, w)
  {
    hide Apply, StartNodeResolved, Emit;
    assert s.stack[|chain| - 1] == chain[|chain| - 1];
  }

  /** Any other one creates the next. */
  lemma OthersDescend(g: Graph, chain: seq<nat>, absolute: Node, k: nat, s: State, w: World)
    requires IsChain(g, chain, absolute) && Benign(w) && InGraph(g, s)
    requires k + 1 < |chain| && s.stack == chain[..k + 1] && s.browsing.None? && s.created == k + 1
    ensures
      var t := s.(stack := chain[..k + 2], created := k + 2);
      InGraph(g, t) && StartResolving(g, s, w) == StartResolving(g, t, w)
  {
    hide Apply, StartNodeResolved, Emit;
    assert s.stack[k] == chain[k];
    assert chain[..k + 1] + [chain[k + 1]] == chain[..k + 2];
  }

  /** Descending the chain creates one resolver per relative id and browses from the absolute start node. */
  lemma {:induction false} DescentReachesStart(g: Graph, chain: seq<nat>, absolute: Node, k: nat, s: State, w: World)
    requires IsChain(g, chain, absolute) && Benign(w) && InGraph(g, s)
    requires k < |chain| && s.stack == chain[..k + 1] && s.browsing.None? && s.created == k + 1
    requires StartPlace(absolute, w.table).Some?
    ensures
      var t := StartResolving(g, s, w);
      t.created == |chain| && WaitsAt(t, chain, |chain| - 1, StartPlace(absolute, w.table).value)
    decreases |chain| - k
  {
    hide Apply, StartResolving, StartNodeResolved;
    if k == |chain| - 1 {
      assert chain[..k + 1] == chain;
      LastStarts(g, chain, absolute, s, w);
      StartIsResolved(absolute, w.table);
      var n := StartNodeOf(absolute, w.table);
      assert CreateNodeString(n.index, n.id) != "";
      hide StartPlace, CreateNodeString;
      StartNodeFailures(g, s, Apply(FRESH, FromNodeIdType(absolute), []), NoError, w);
    } else {
      OthersDescend(g, chain, absolute, k, s, w);
      DescentReachesStart(g, chain, absolute, k + 1, s.(stack := chain[..k + 2], created := k + 2), w);
    }
  }

  /**
   The refinement: for a chain of at most 51 relative ids that ends at an absolute node with an identifier and an index, or
   a listed name, the outermost resolver emits the node, or the error, of the plain recursion from there.
   */
  lemma ResolversRefineWalk(g: Graph, chain: seq<nat>, absolute: Node, backend: Backend, w: World)
    requires IsChain(g, chain, absolute) && Benign(w) && CleanBackend(backend, w.table)
    requires StartPlace(absolute, w.table).Some?
    ensures
      var begun := Begin(g, chain[0], w);
      && begun.created == |chain|
      && Emits(Drive(g, begun, backend, w), Walk(g, chain, backend, StartPlace(absolute, w.table).value), w.table)
  {
    assert [chain[0]] == chain[..1];
    var s := State([chain[0]], None, 1, []);
    DescentReachesStart(g, chain, absolute, 0, s, w);
    var start, begun := StartPlace(absolute, w.table).value, Begin(g, chain[0], w);
    assert begun == StartResolving(g, s, w) && InGraph(g, begun);
    hide StartResolving, Drive, Walk, Apply, Benign, CleanBackend, Emits, StartPlace;
    DriveFollowsWalk(g, chain, |chain| - 1, start, start, begun, backend, w);
  }

  /** A chain that ends at an absolute node without a place fails before any browse, at the node it cannot create. */
  lemma {:induction false} PlacelessChainFails(g: Graph, chain: seq<nat>, absolute: Node, k: nat, s: State, w: World)
    requires IsChain(g, chain, absolute) && Benign(w) && (forall l :: !w.makesNode(l, "")) && InGraph(g, s)
    requires k < |chain| && s.stack == chain[..k + 1] && s.browsing.None? && s.created == k + 1
    requires StartPlace(absolute, w.table).None?
    ensures
      var t := StartResolving(g, s, w);
      FailedAtTheTop(t) && t.emitted[|t.emitted| - 1].error == NodeNotCreated("")
    decreases |chain| - k
  {
    hide Apply, StartResolving, FailedAtTheTop, Emit;
    if k == |chain| - 1 {
      assert chain[..k + 1] == chain;
      LastStarts(g, chain, absolute, s, w);
      StartIsResolved(absolute, w.table);
      hide StartPlace;
      ErrorsReachTheTop(g, s, StartNodeOf(absolute, w.table), NodeNotCreated(""), w);
    } else {
      OthersDescend(g, chain, absolute, k, s, w);
      PlacelessChainFails(g, chain, absolute, k + 1, s.(stack := chain[..k + 2], created := k + 2), w);
    }
  }
}
