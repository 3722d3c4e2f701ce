/** The resolvers of one request as an object whose methods are the slots of the source. */
module PathResolver {
  import opened Wrappers
  import opened NodeIdentity
  import opened TargetSelection
  import opened PathSteps

  class PathResolver {
    const graph: Graph
    var stack: seq<nat>
    var browsing: Option<string>
    var created: nat
    var emitted: seq<Emission>

    function Now(): State
      reads this
    {
      State(stack, browsing, created, emitted)
    }

    constructor (graph: Graph, relativeNode: nat)
      requires relativeNode < |graph|
      ensures this.graph == graph && Now() == State([relativeNode], None, 1, [])
    {
      this.graph := graph;
      stack, browsing, created, emitted := [relativeNode], None, 1, [];
    }

    /** emit resolvedNode and deleteLater of the topmost resolver. */
    method Emit(node: Node, error: Error, w: World)
      requires stack != [] && InGraph(graph, Now())
      modifies this
      ensures Now() == PathSteps.Emit(graph, old(Now()), node, error, w)
      decreases |stack|, 0
    {
      var level := |stack| - 1;
      var received := Copy(node);
      stack, browsing := stack[..level], None;
      emitted := emitted + [Emission(level, received, error)];
      if stack != [] {
        StartNodeResolved(received, error, w);
      }
    }

    method StartNodeResolved(startNode: Node, error: Error, w: World)
      requires stack != [] && browsing.None? && InGraph(graph, Now())
      modifies this
      ensures Now() == PathSteps.StartNodeResolved(graph, old(Now()), startNode, error, w)
      decreases |stack|, 1
    {
      var level := |stack| - 1;
      if w.goneAtResume(level) {
        Emit(FRESH, MemberDeleted, w);
        return;
      }
      if error != NoError {
        Emit(startNode, error, w);
        return;
      }
      var start := Apply(startNode, ResolveNamespace, w.table);
      if !w.makesNode(level, FullNodeId(start)) {
        Emit(start, NodeNotCreated(FullNodeId(start)), w);
        return;
      }
      if !w.startsBrowse(level) {
        Emit(FRESH, BrowseNotStarted, w);
        return;
      }
      browsing := Some(FullNodeId(start));
    }

    method StartResolving(w: World)
      requires stack != [] && browsing.None? && InGraph(graph, Now()) && |stack| == created <= MAX_RECURSION_DEPTH + 1
      modifies this
      ensures Now() == PathSteps.StartResolving(graph, old(Now()), w)
      decreases MAX_RECURSION_DEPTH + 1 - |stack|
    {
      var level := |stack| - 1;
      var relativeNode := graph[stack[level]];
      if w.goneAtStart(level) {
        Emit(FRESH, MemberDeleted, w);
        return;
      }
      if relativeNode.start.NoStart? {
        Emit(FRESH, StartNodeMissing, w);
        return;
      }
      if relativeNode.path == [] {
        Emit(FRESH, PathEmpty, w);
        return;
      }
      match relativeNode.start {
        case Relative(id) =>
          if level >= MAX_RECURSION_DEPTH {
            Emit(FRESH, DepthReached, w);
            return;
          }
          stack, created := stack + [id], created + 1;
          StartResolving(w);
        case Absolute(node) =>
          StartNodeResolved(Apply(FRESH, FromNodeIdType(node), []), NoError, w);
      }
    }

    method BrowsePathFinished(reply: Reply, w: World)
      requires stack != [] && InGraph(graph, Now())
      modifies this
      ensures Now() == PathSteps.BrowsePathFinished(graph, old(Now()), reply, w)
    {
      if !reply.good {
        Emit(FRESH, BadStatus, w);
        return;
      }
      var selection := SelectTarget(reply.results);
      match selection {
        case Refused(error) => Emit(FRESH, error, w);
        case Chosen(node) => Emit(Apply(node, ResolveNamespace, w.table), NoError, w);
      }
    }
  }
}
