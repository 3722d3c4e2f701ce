/**
 Nested path resolvers as a stack: the resolver at position i has level i and waits for the one above it.
 Signals are delivered synchronously, so each event runs until a browse is outstanding or nobody is left.
 */
module PathSteps {
  import opened Wrappers
  import opened NodeText
  import opened NodeIdentity
  import opened TargetSelection

  const MAX_RECURSION_DEPTH: nat := 50

  datatype StartNode = NoStart | Absolute(node: Node) | Relative(id: nat)

  datatype RelativeId = RelativeId(start: StartNode, path: seq<string>)

  /** Relative node ids refer to each other by position; cycles are possible. */
  predicate WellFormed(g: seq<RelativeId>) {
    forall r | 0 <= r < |g| :: g[r].start.Relative? ==> g[r].start.id < |g|
  }

  type Graph = g: seq<RelativeId> | WellFormed(g) witness []

  /** What the surroundings answer, level by level, while one event is handled. */
  datatype World = World(goneAtStart: nat -> bool, goneAtResume: nat -> bool, makesNode: (nat, string) -> bool,
                         startsBrowse: nat -> bool, table: seq<string>)

  datatype Reply = Reply(good: bool, results: seq<Target>)

  datatype Emission = Emission(level: nat, node: Node, error: Error)

  /** `browsing` is the node id of the outstanding browse, started by the topmost resolver. */
  datatype State = State(stack: seq<nat>, browsing: Option<string>, created: nat, emitted: seq<Emission>)

  predicate InGraph(g: Graph, s: State) {
    forall i | 0 <= i < |s.stack| :: s.stack[i] < |g|
  }

  // ---------------------------------------------------------------- steps

  /** From `s`, the topmost resolvers down to those left in `t` have emitted, once each and in this order. */
  predicate Unwound(s: State, t: State) {
    && t.created == s.created
    && |t.stack| < |s.stack| && t.stack == s.stack[..|t.stack|]
    && s.emitted <= t.emitted && |t.emitted| == |s.emitted| + |s.stack| - |t.stack|
    && (forall i | |s.emitted| <= i < |t.emitted| :: t.emitted[i].level == |s.stack| - 1 - (i - |s.emitted|))
  }

  /** Either nobody is left or the topmost resolver waits for a reply. */
  predicate Settled(s: State) {
    s.stack == [] || s.browsing.Some?
  }

  /** The topmost resolver emits and is deleted; the one below receives a copy of the node. */
  function Emit(g: Graph, s: State, node: Node, error: Error, w: World): (t: State)
    requires s.stack != [] && InGraph(g, s)
    ensures Unwound(s, t) && Settled(t)
    decreases |s.stack|, 0
  {
    var level := |s.stack| - 1;
    var received := Copy(node);
    var below := State(s.stack[..level], None, s.created, s.emitted + [Emission(level, received, error)]);
    if below.stack == [] then below else StartNodeResolved(g, below, received, error, w)
  }

  function StartNodeResolved(g: Graph, s: State, startNode: Node, error: Error, w: World): (t: State)
    requires s.stack != [] && s.browsing.None? && InGraph(g, s)
    ensures t == s.(browsing := t.browsing) || Unwound(s, t)
    ensures Settled(t)
    decreases |s.stack|, 1
  {
    var level := |s.stack| - 1;
    if w.goneAtResume(level) then Emit(g, s, FRESH, MemberDeleted, w)
    else if error != NoError then Emit(g, s, startNode, error, w)
    else
      var start := Apply(startNode, ResolveNamespace, w.table);
      if !w.makesNode(level, FullNodeId(start)) then Emit(g, s, start, NodeNotCreated(FullNodeId(start)), w)
      else if !w.startsBrowse(level) then Emit(g, s, FRESH, BrowseNotStarted, w)
      else s.(browsing := Some(FullNodeId(start)))
  }

  function StartResolving(g: Graph, s: State, w: World): (t: State)
    requires s.stack != [] && s.browsing.None? && InGraph(g, s) && |s.stack| == s.created <= MAX_RECURSION_DEPTH + 1
    ensures s.created <= t.created <= MAX_RECURSION_DEPTH + 1 && Settled(t)
    ensures |t.stack| <= t.created && InGraph(g, t)
    ensures s.emitted <= t.emitted && |t.emitted| == |s.emitted| + t.created - |t.stack|
    ensures forall i | |s.emitted| <= i < |t.emitted| :: t.emitted[i].level == t.created - 1 - (i - |s.emitted|)
    decreases MAX_RECURSION_DEPTH + 1 - |s.stack|
  {
    var level := |s.stack| - 1;
    var relativeNode := g[s.stack[level]];
    if w.goneAtStart(level) then Emit(g, s, FRESH, MemberDeleted, w)
    else if relativeNode.start.NoStart? then Emit(g, s, FRESH, StartNodeMissing, w)
    else if relativeNode.path == [] then Emit(g, s, FRESH, PathEmpty, w)
    else
      match relativeNode.start
      case Relative(id) =>
        if level >= MAX_RECURSION_DEPTH then Emit(g, s, FRESH, DepthReached, w)
        else StartResolving(g, s.(stack := s.stack + [id], created := s.created + 1), w)
      case Absolute(node) => StartNodeResolved(g, s, Apply(FRESH, FromNodeIdType(node), []), NoError, w)
  }

  function BrowsePathFinished(g: Graph, s: State, reply: Reply, w: World): (t: State)
    requires s.stack != [] && InGraph(g, s)
    ensures Unwound(s, t) && Settled(t)
  {
    if !reply.good then Emit(g, s, FRESH, BadStatus, w)
    else
      match Select(reply.results)
      case Refused(error) => Emit(g, s, FRESH, error, w)
      case Chosen(node) => Emit(g, s, Apply(node, ResolveNamespace, w.table), NoError, w)
  }

  function Begin(g: Graph, r: nat, w: World): (t: State)
    requires r < |g|
  {
    StartResolving(g, State([r], None, 1, []), w)
  }

  // ---------------------------------------------------------------- runs

  /** Replies arrive while a browse is outstanding; what comes later is not received by anybody. */
  function Continue(g: Graph, s: State, replies: seq<(Reply, World)>): State
    requires InGraph(g, s)
    decreases |replies|
  {
    if replies == [] || s.stack == [] then s
    else Continue(g, BrowsePathFinished(g, s, replies[0].0, replies[0].1), replies[1..])
  }

  /** The resolvers that are gone emitted once each, innermost first; those on the stack have not emitted yet. */
  predicate OnceEach(s: State) {
    && |s.stack| <= s.created <= MAX_RECURSION_DEPTH + 1
    && |s.emitted| == s.created - |s.stack|
    && forall i | 0 <= i < |s.emitted| :: s.emitted[i].level == s.created - 1 - i
  }

  lemma {:induction false} ContinueKeepsOnceEach(g: Graph, s: State, replies: seq<(Reply, World)>)
    requires InGraph(g, s) && OnceEach(s) && Settled(s)
    ensures
      var t := Continue(g, s, replies);
      && OnceEach(t) && Settled(t) && t.created == s.created && s.emitted <= t.emitted
      && (|t.stack| == 0 || |t.stack| + |replies| <= |s.stack|)
    decreases |replies|
  {
    if replies == [] || s.stack == [] {
    } else {
      hide BrowsePathFinished;
      var next := BrowseFinishedUnwinds(g, s, replies[0].0, replies[0].1);
      ContinueKeepsOnceEach(g, next, replies[1..]);
    }
  }

  lemma BrowseFinishedUnwinds(g: Graph, s: State, reply: Reply, w: World) returns (t: State)
    requires s.stack != [] && InGraph(g, s) && OnceEach(s)
    ensures t == BrowsePathFinished(g, s, reply, w) && Unwound(s, t) && Settled(t) && InGraph(g, t) && OnceEach(t)
  {
    t := BrowsePathFinished(g, s, reply, w);
  }

  /**
   Whatever the start node graph, the surroundings and the replies: at most 51 resolvers are created, none emits twice,
   and after at most 51 replies each of them has emitted exactly once, the outermost last.
   */
  lemma ExactlyOnce(g: Graph, r: nat, w: World, replies: seq<(Reply, World)>)
    requires r < |g|
    ensures
      var t := Continue(g, Begin(g, r, w), replies);
      && 1 <= t.created <= 51
      && OnceEach(t) && Settled(t)
      && (|replies| > 50 || t.stack == [] ==>
            t.stack == [] && |t.emitted| == t.created && t.emitted[t.created - 1].level == 0)
  {
    ContinueKeepsOnceEach(g, Begin(g, r, w), replies);
  }

  // ---------------------------------------------------------------- errors

  /** Nobody is left and no browse is outstanding; the outermost resolver has emitted an error. */
  predicate FailedAtTheTop(s: State) {
    && s.stack == [] && s.browsing.None? && s.emitted != []
    && s.emitted[|s.emitted| - 1].level == 0 && s.emitted[|s.emitted| - 1].error != NoError
  }

  /** An error is passed on to the outermost resolver at once, whatever happens to the levels between. */
  lemma {:induction false} ErrorsReachTheTop(g: Graph, s: State, node: Node, error: Error, w: World)
    requires s.stack != [] && InGraph(g, s) && error != NoError
    ensures
      var t := Emit(g, s, node, error, w);
      && FailedAtTheTop(t)
      && ((forall l :: !w.goneAtResume(l)) ==> t.emitted[|t.emitted| - 1].error == error)
    decreases |s.stack|
  {
    var level := |s.stack| - 1;
    hide Copy;
    var below := State(s.stack[..level], None, s.created, s.emitted + [Emission(level, Copy(node), error)]);
    if below.stack != [] {
      if w.goneAtResume(level - 1) {
        ErrorsReachTheTop(g, below, FRESH, MemberDeleted, w);
      } else {
        ErrorsReachTheTop(g, below, Copy(node), error, w);
      }
    }
  }

  /** The relative node id `k` start nodes further on. */
  function Follow(g: Graph, r: nat, k: nat): (f: Option<nat>)
    requires r < |g|
    ensures f.Some? ==> f.value < |g|
    decreases k
  {
    if k == 0 then Some(r)
    else if g[r].start.Relative? then Follow(g, g[r].start.id, k - 1)
    else None
  }

  /** More than 51 relative ids in a row end in an error before any browse is started. */
  lemma {:induction false} LongChainsFail(g: Graph, s: State, w: World)
    requires s.stack != [] && s.browsing.None? && InGraph(g, s) && |s.stack| == s.created <= MAX_RECURSION_DEPTH + 1
    requires Follow(g, s.stack[|s.stack| - 1], 52 - |s.stack|).Some?
    ensures FailedAtTheTop(StartResolving(g, s, w))
    decreases MAX_RECURSION_DEPTH + 1 - |s.stack|
  {
    var level := |s.stack| - 1;
    var rel := g[s.stack[level]];
    assert rel.start.Relative?;
    hide Emit, FailedAtTheTop;
    if w.goneAtStart(level) {
      ErrorsReachTheTop(g, s, FRESH, MemberDeleted, w);
    } else if rel.path == [] {
      ErrorsReachTheTop(g, s, FRESH, PathEmpty, w);
    } else if level >= MAX_RECURSION_DEPTH {
      ErrorsReachTheTop(g, s, FRESH, DepthReached, w);
    } else {
      LongChainsFail(g, s.(stack := s.stack + [rel.start.id], created := s.created + 1), w);
    }
  }

  lemma {:induction false} FollowAgain(g: Graph, r: nat, j: nat, k: nat)
    requires r < |g|
    ensures Follow(g, r, j + k) == if Follow(g, r, j).Some? then Follow(g, Follow(g, r, j).value, k) else None
    decreases j
  {
    if j == 0 {
    } else if g[r].start.Relative? {
      FollowAgain(g, g[r].start.id, j - 1, k);
    }
  }

  /** A cycle never ends. */
  lemma {:induction false} CyclesAreLong(g: Graph, r: nat, period: nat, k: nat)
    requires r < |g| && period >= 1 && Follow(g, r, period) == Some(r)
    ensures Follow(g, r, k).Some?
    decreases k
  {
    if k <= period {
      FollowAgain(g, r, k, period - k);
    } else {
      FollowAgain(g, r, period, k - period);
      CyclesAreLong(g, r, period, k - period);
    }
  }

  /** A chain that runs into a cycle ends in an error of the outermost resolver, before any browse is started. */
  lemma CyclesFail(g: Graph, r: nat, tail: nat, period: nat, w: World)
    requires r < |g| && period >= 1 && Follow(g, r, tail).Some?
    requires Follow(g, Follow(g, r, tail).value, period) == Follow(g, r, tail)
    ensures FailedAtTheTop(Begin(g, r, w))
  {
    hide FailedAtTheTop, StartResolving;
    var length := MAX_RECURSION_DEPTH + 1;
    if tail < length {
      CyclesAreLong(g, Follow(g, r, tail).value, period, length - tail);
      FollowAgain(g, r, tail, length - tail);
    } else {
      FollowAgain(g, r, length, tail - length);
    }
    LongChainsFail(g, State([r], None, 1, []), w);
  }

  // ---------------------------------------------------------------- successes

  /** A good reply with a single local result names a node, however far the path was followed. */
  predicate Informative(reply: Reply) {
    reply.good && |reply.results| == 1 && reply.results[0].serverIndex == 0 ==> Named(reply.results[0])
  }

  /**
   The documentation promises an empty node with every error and a resolved one otherwise. The code passes the node that
   could not be created along with its error, and checks for an identifier only among several results.
   */
  predicate Told(e: Emission, informative: bool) {
    if e.error == NoError then informative ==> e.node.id != ""
    else e.error.NodeNotCreated? || e.node == FRESH
  }

  predicate AllTold(emitted: seq<Emission>, informative: bool) {
    forall e | e in emitted :: Told(e, informative)
  }

  lemma {:induction false} ScanOutcome(results: seq<Target>, tmp: Node, message: Error)
    requires message != NoError
    ensures
      match Scan(results, tmp, message)
      case Chosen(node) => node.id != ""
      case Refused(error) => error != NoError
  {
    if results != [] {
      hide Taken;
      var r, rest := results[0], results[1..];
      ScanOutcome(rest, tmp, if Remote(r) then RemoteServer else message);
      ScanOutcome(rest, Taken(tmp, r), message);
    }
  }

  /** Every refusal comes with a message; a choice has an identifier unless it is a single result whose id has none. */
  lemma SelectOutcome(results: seq<Target>)
    ensures
      match Select(results)
      case Chosen(node) =>
        && results != [] && (|results| == 1 ==> results[0].serverIndex == 0)
        && (node.id != "" <==> |results| >= 2 || Named(results[0]))
      case Refused(error) => error != NoError
  {
    ScanOutcome(results, FRESH, NoneResolved);
    hide Scan;
  }

  lemma ResolvingKeepsIdentifier(n: Node, table: seq<string>)
    ensures Copy(Apply(n, ResolveNamespace, table)).id == Apply(n, ResolveNamespace, table).id == n.id
  {
  }

  /** The outermost resolver emits success exactly for a selected target, and then a node that may still be empty. */
  lemma OutermostSuccessIff(g: Graph, s: State, reply: Reply, w: World)
    requires |s.stack| == 1 && InGraph(g, s)
    ensures
      var t := BrowsePathFinished(g, s, reply, w);
      && |t.emitted| == |s.emitted| + 1 && s.emitted <= t.emitted
      && var e := t.emitted[|s.emitted|];
         && e.level == 0
         && (e.error == NoError <==> reply.good && Select(reply.results).Chosen?)
         && (e.error == NoError ==> (e.node.id != "" <==> |reply.results| >= 2 || Named(reply.results[0])))
  {
    hide Select, Named, Copy, Apply;
    SelectOutcome(reply.results);
    if reply.good && Select(reply.results).Chosen? {
      ResolvingKeepsIdentifier(Select(reply.results).node, w.table);
    }
  }

  lemma EmitsFirst(g: Graph, s: State, node: Node, error: Error, w: World)
    requires s.stack != [] && InGraph(g, s)
    ensures
      var t := Emit(g, s, node, error, w);
      |t.emitted| > |s.emitted| && t.emitted[|s.emitted|] == Emission(|s.stack| - 1, Copy(node), error)
  {
    hide Copy, Apply;
  }

  /** The topmost resolver of `s` is the first to emit, and this is what it emits. */
  predicate EmitsOf(s: State, t: State, node: Node, error: Error) {
    s.stack != [] && |t.emitted| > |s.emitted| && t.emitted[|s.emitted|] == Emission(|s.stack| - 1, node, error)
  }

  /** Why a resolver that starts gives up, in the order in which the causes are looked for. */
  lemma StartFailures(g: Graph, s: State, w: World)
    requires s.stack != [] && s.browsing.None? && InGraph(g, s) && |s.stack| == s.created <= MAX_RECURSION_DEPTH + 1
    ensures
      var level := |s.stack| - 1;
      var (t, rel) := (StartResolving(g, s, w), g[s.stack[level]]);
      if w.goneAtStart(level) then EmitsOf(s, t, FRESH, MemberDeleted)
      else if rel.start.NoStart? then EmitsOf(s, t, FRESH, StartNodeMissing)
      else if rel.path == [] then EmitsOf(s, t, FRESH, PathEmpty)
      else rel.start.Relative? && |s.stack| > 50 ==> EmitsOf(s, t, FRESH, DepthReached)
  {
    hide Emit, StartNodeResolved;
    EmitsFirst(g, s, FRESH, MemberDeleted, w);
    EmitsFirst(g, s, FRESH, StartNodeMissing, w);
    EmitsFirst(g, s, FRESH, PathEmpty, w);
    EmitsFirst(g, s, FRESH, DepthReached, w);
  }

  /** Why a resolver with a start node gives up, and what it browses from if it does not. */
  lemma StartNodeFailures(g: Graph, s: State, startNode: Node, error: Error, w: World)
    requires s.stack != [] && s.browsing.None? && InGraph(g, s)
    ensures
      var level := |s.stack| - 1;
      var (t, start) := (StartNodeResolved(g, s, startNode, error, w), Apply(startNode, ResolveNamespace, w.table));
      if w.goneAtResume(level) then EmitsOf(s, t, FRESH, MemberDeleted)
      else if error != NoError then EmitsOf(s, t, Copy(startNode), error)
      else if !w.makesNode(level, FullNodeId(start)) then EmitsOf(s, t, Copy(start), NodeNotCreated(FullNodeId(start)))
      else if !w.startsBrowse(level) then EmitsOf(s, t, FRESH, BrowseNotStarted)
      else t.emitted == s.emitted && t.stack == s.stack && t.browsing == Some(FullNodeId(start))
  {
    var start := Apply(startNode, ResolveNamespace, w.table);
    assert Copy(FRESH) == FRESH;
    hide Emit, Apply, Copy, FullNodeId;
    EmitsFirst(g, s, FRESH, MemberDeleted, w);
    EmitsFirst(g, s, startNode, error, w);
    EmitsFirst(g, s, start, NodeNotCreated(FullNodeId(start)), w);
    EmitsFirst(g, s, FRESH, BrowseNotStarted, w);
  }

  /** What a reply makes the waiting resolver emit. */
  lemma ReplyOutcomes(g: Graph, s: State, reply: Reply, w: World)
    requires s.stack != [] && InGraph(g, s)
    ensures
      var (t, selection) := (BrowsePathFinished(g, s, reply, w), Select(reply.results));
      if !reply.good then EmitsOf(s, t, FRESH, BadStatus)
      else if selection.Refused? then EmitsOf(s, t, FRESH, selection.error)
      else EmitsOf(s, t, Copy(Apply(selection.node, ResolveNamespace, w.table)), NoError)
  {
    assert Copy(FRESH) == FRESH;
    hide Emit, Apply, Copy, Select;
    EmitsFirst(g, s, FRESH, BadStatus, w);
    if Select(reply.results).Refused? {
      EmitsFirst(g, s, FRESH, Select(reply.results).error, w);
    } else {
      EmitsFirst(g, s, Apply(Select(reply.results).node, ResolveNamespace, w.table), NoError, w);
    }
  }

  /** From position `k` on there are only errors. */
  predicate FailsFrom(emitted: seq<Emission>, k: nat) {
    forall i | k <= i < |emitted| :: emitted[i].error != NoError
  }

  /** Only the first emission of a cascade can be a success; every further one passes on an error or reports one. */
  lemma {:induction false} CascadesFail(g: Graph, s: State, node: Node, error: Error, w: World)
    requires s.stack != [] && InGraph(g, s)
    ensures FailsFrom(Emit(g, s, node, error, w).emitted, |s.emitted| + 1)
    decreases |s.stack|, 0
  {
    var level := |s.stack| - 1;
    hide Apply, Copy;
    var below := State(s.stack[..level], None, s.created, s.emitted + [Emission(level, Copy(node), error)]);
    if below.stack != [] {
      StartNodeFails(g, below, Copy(node), error, w);
    }
  }

  lemma {:induction false} StartNodeFails(g: Graph, s: State, startNode: Node, error: Error, w: World)
    requires s.stack != [] && s.browsing.None? && InGraph(g, s)
    ensures FailsFrom(StartNodeResolved(g, s, startNode, error, w).emitted, |s.emitted|)
    decreases |s.stack|, 2
  {
    assert FailsFrom(s.emitted, |s.emitted|);
    hide Apply, Emit, Copy, FailsFrom;
    if w.goneAtResume(|s.stack| - 1) {
      AllFail(g, s, FRESH, MemberDeleted, w);
    } else if error != NoError {
      AllFail(g, s, startNode, error, w);
    } else {
      var start := Apply(startNode, ResolveNamespace, w.table);
      AllFail(g, s, start, NodeNotCreated(FullNodeId(start)), w);
      AllFail(g, s, FRESH, BrowseNotStarted, w);
    }
  }

  lemma {:induction false} AllFail(g: Graph, s: State, node: Node, error: Error, w: World)
    requires s.stack != [] && InGraph(g, s) && error != NoError
    ensures FailsFrom(Emit(g, s, node, error, w).emitted, |s.emitted|)
    decreases |s.stack|, 1
  {
    hide Emit;
    CascadesFail(g, s, node, error, w);
    EmitsFirst(g, s, node, error, w);
  }

  lemma {:induction false} ResolvingFails(g: Graph, s: State, w: World)
    requires s.stack != [] && s.browsing.None? && InGraph(g, s) && |s.stack| == s.created <= MAX_RECURSION_DEPTH + 1
    ensures FailsFrom(StartResolving(g, s, w).emitted, |s.emitted|)
    decreases MAX_RECURSION_DEPTH + 1 - |s.stack|
  {
    var level := |s.stack| - 1;
    var rel := g[s.stack[level]];
    hide Emit, StartNodeResolved, Apply, FailsFrom;
    if w.goneAtStart(level) {
      AllFail(g, s, FRESH, MemberDeleted, w);
    } else if rel.start.NoStart? {
      AllFail(g, s, FRESH, StartNodeMissing, w);
    } else if rel.path == [] {
      AllFail(g, s, FRESH, PathEmpty, w);
    } else if rel.start.Absolute? {
      StartNodeFails(g, s, Apply(FRESH, FromNodeIdType(rel.start.node), []), NoError, w);
    } else if level >= MAX_RECURSION_DEPTH {
      AllFail(g, s, FRESH, DepthReached, w);
    } else {
      ResolvingFails(g, s.(stack := s.stack + [rel.start.id], created := s.created + 1), w);
    }
  }

  /** The outermost resolver has emitted a node without an error. */
  predicate Succeeded(emitted: seq<Emission>) {
    exists e | e in emitted :: e.level == 0 && e.error == NoError
  }

  predicate Selects(reply: Reply) {
    reply.good && Select(reply.results).Chosen?
  }

  lemma FinishedSucceedsIff(g: Graph, s: State, reply: Reply, w: World)
    requires s.stack != [] && InGraph(g, s) && !Succeeded(s.emitted)
    ensures Succeeded(BrowsePathFinished(g, s, reply, w).emitted) <==> |s.stack| == 1 && Selects(reply)
  {
    var t := BrowsePathFinished(g, s, reply, w);
    hide Select, Apply, Emit;
    SelectOutcome(reply.results);
    var (node, error) :=
      if !reply.good then (FRESH, BadStatus)
      else
        match Select(reply.results)
        case Refused(error) => (FRESH, error)
        case Chosen(node) => (Apply(node, ResolveNamespace, w.table), NoError);
    assert t == Emit(g, s, node, error, w);
    CascadesFail(g, s, node, error, w);
    EmitsFirst(g, s, node, error, w);
    assert Unwound(s, t);
    assert forall i | 0 <= i < |s.emitted| :: t.emitted[i] == s.emitted[i] && s.emitted[i] in s.emitted;
    if |s.stack| == 1 && Selects(reply) {
      assert t.emitted[|s.emitted|] in t.emitted;
    }
  }

  /** The reply at `i` finds only the outermost resolver left and selects a target for it. */
  predicate AnswersTheTop(g: Graph, s: State, replies: seq<(Reply, World)>, i: nat)
    requires InGraph(g, s) && i < |replies|
  {
    |Continue(g, s, replies[..i]).stack| == 1 && Selects(replies[i].0)
  }

  lemma {:induction false} ContinueSucceedsIff(g: Graph, s: State, replies: seq<(Reply, World)>)
    requires InGraph(g, s) && !Succeeded(s.emitted)
    ensures Succeeded(Continue(g, s, replies).emitted) <==> exists i | 0 <= i < |replies| :: AnswersTheTop(g, s, replies, i)
    decreases |replies|
  {
    if replies == [] || s.stack == [] {
    } else {
      var (next, rest) := (BrowsePathFinished(g, s, replies[0].0, replies[0].1), replies[1..]);
      hide BrowsePathFinished, Succeeded, Selects;
      FinishedSucceedsIff(g, s, replies[0].0, replies[0].1);
      assert replies[..0] == [];
      assert AnswersTheTop(g, s, replies, 0) <==> Succeeded(next.emitted);
      forall i | 0 <= i < |rest|
        ensures AnswersTheTop(g, s, replies, i + 1) <==> AnswersTheTop(g, next, rest, i)
      {
        assert replies[..i + 1][1..] == rest[..i];
      }
      if !Succeeded(next.emitted) {
        ContinueSucceedsIff(g, next, rest);
        if i :| 0 <= i < |replies| && AnswersTheTop(g, s, replies, i) {
          assert AnswersTheTop(g, next, rest, i - 1);
        }
      }
    }
  }

  /** Over a whole run, success of the outermost resolver is a selection by a reply that finds no other one left. */
  lemma RunSucceedsIff(g: Graph, r: nat, w: World, replies: seq<(Reply, World)>)
    requires r < |g|
    ensures
      var s := Begin(g, r, w);
      Succeeded(Continue(g, s, replies).emitted) <==> exists i | 0 <= i < |replies| :: AnswersTheTop(g, s, replies, i)
  {
    ResolvingFails(g, State([r], None, 1, []), w);
    ContinueSucceedsIff(g, Begin(g, r, w), replies);
  }

  /** A single result with a semicolon in its identifier ends in success without a node. */
  lemma AnEmptySuccess(g: Graph, s: State, w: World)
    requires |s.stack| == 1 && InGraph(g, s)
    ensures
      var t := BrowsePathFinished(g, s, Reply(true, [Target("", "ns=1;s=a;b", 0, 0xFFFF_FFFF)]), w);
      t.emitted == s.emitted + [Emission(0, FRESH, NoError)]
  {
    hide SplitNodeId;
    SplitTexts();
  }

  /** Documented as empty, the node with the error about a start node that cannot be created is a copy of that start. */
  lemma ErrorIsEmptyIff(g: Graph, s: State, startNode: Node, w: World)
    requires s.stack != [] && s.browsing.None? && InGraph(g, s) && !w.goneAtResume(|s.stack| - 1)
    requires !w.makesNode(|s.stack| - 1, FullNodeId(Apply(startNode, ResolveNamespace, w.table)))
    ensures
      var start := Apply(startNode, ResolveNamespace, w.table);
      var t := StartNodeResolved(g, s, startNode, NoError, w);
      && |t.emitted| > |s.emitted|
      && t.emitted[|s.emitted|] == Emission(|s.stack| - 1, Copy(start), NodeNotCreated(FullNodeId(start)))
      && (t.emitted[|s.emitted|].node == FRESH <==> start.name == "" && start.id == "")
  {
    hide Apply, FullNodeId;
    EmitsFirst(g, s, Apply(startNode, ResolveNamespace, w.table),
               NodeNotCreated(FullNodeId(Apply(startNode, ResolveNamespace, w.table))), w);
  }

  /** A start node without a namespace ends in an error that carries it. */
  lemma AnErrorWithANode(g: Graph, r: nat, w: World)
    requires r < |g| && g[r] == RelativeId(Absolute(Node("", "i=85", 0, false)), ["x"])
    requires !w.goneAtStart(0) && !w.goneAtResume(0) && !w.makesNode(0, "")
    ensures Begin(g, r, w).emitted == [Emission(0, Node("", "i=85", 0, false), NodeNotCreated(""))]
  {
    var n := Node("", "i=85", 0, false);
    assert Apply(FRESH, FromNodeIdType(n), []) == n && Apply(n, ResolveNamespace, w.table) == n && Copy(n) == n;
    hide Apply, Copy;
    var s := State([r], None, 1, []);
    assert s.stack[..0] == [];
    assert StartNodeResolved(g, s, n, NoError, w) == Emit(g, s, n, NodeNotCreated(""), w);
  }

  lemma {:induction false} EmitTells(g: Graph, s: State, node: Node, error: Error, w: World, informative: bool)
    requires s.stack != [] && InGraph(g, s) && AllTold(s.emitted, informative) && Told(Emission(0, node, error), informative)
    ensures AllTold(Emit(g, s, node, error, w).emitted, informative)
    decreases |s.stack|, 0
  {
    var level := |s.stack| - 1;
    hide Apply;
    var below := State(s.stack[..level], None, s.created, s.emitted + [Emission(level, Copy(node), error)]);
    if below.stack != [] {
      StartNodeTells(g, below, Copy(node), error, w, informative);
    }
  }

  lemma {:induction false} StartNodeTells(g: Graph, s: State, startNode: Node, error: Error, w: World, informative: bool)
    requires s.stack != [] && s.browsing.None? && InGraph(g, s) && AllTold(s.emitted, informative)
    requires error != NoError ==> Told(Emission(0, startNode, error), informative)
    ensures AllTold(StartNodeResolved(g, s, startNode, error, w).emitted, informative)
    decreases |s.stack|, 1
  {
    var level := |s.stack| - 1;
    hide Apply, AllTold;
    if w.goneAtResume(level) {
      EmitTells(g, s, FRESH, MemberDeleted, w, informative);
    } else if error != NoError {
      EmitTells(g, s, startNode, error, w, informative);
    } else {
      var start := Apply(startNode, ResolveNamespace, w.table);
      EmitTells(g, s, start, NodeNotCreated(FullNodeId(start)), w, informative);
      EmitTells(g, s, FRESH, BrowseNotStarted, w, informative);
    }
  }

  lemma {:induction false} ResolvingTells(g: Graph, s: State, w: World, informative: bool)
    requires s.stack != [] && s.browsing.None? && InGraph(g, s) && |s.stack| == s.created <= MAX_RECURSION_DEPTH + 1
    requires AllTold(s.emitted, informative)
    ensures AllTold(StartResolving(g, s, w).emitted, informative)
    decreases MAX_RECURSION_DEPTH + 1 - |s.stack|
  {
    var level := |s.stack| - 1;
    var rel := g[s.stack[level]];
    assert forall e | e != NoError :: Told(Emission(0, FRESH, e), informative);
    hide Emit, StartNodeResolved, AllTold, Told, Apply;
    if w.goneAtStart(level) {
      EmitTells(g, s, FRESH, MemberDeleted, w, informative);
    } else if rel.start.NoStart? {
      EmitTells(g, s, FRESH, StartNodeMissing, w, informative);
    } else if rel.path == [] {
      EmitTells(g, s, FRESH, PathEmpty, w, informative);
    } else if rel.start.Absolute? {
      StartNodeTells(g, s, Apply(FRESH, FromNodeIdType(rel.start.node), []), NoError, w, informative);
    } else if level >= MAX_RECURSION_DEPTH {
      EmitTells(g, s, FRESH, DepthReached, w, informative);
    } else {
      ResolvingTells(g, s.(stack := s.stack + [rel.start.id], created := s.created + 1), w, informative);
    }
  }

  lemma FinishedTells(g: Graph, s: State, reply: Reply, w: World, informative: bool)
    requires s.stack != [] && InGraph(g, s) && AllTold(s.emitted, informative) && (informative ==> Informative(reply))
    ensures AllTold(BrowsePathFinished(g, s, reply, w).emitted, informative)
  {
    hide Emit, Select, Apply, AllTold, Named, Unwound, Settled;
    SelectOutcome(reply.results);
    if !reply.good {
      EmitTells(g, s, FRESH, BadStatus, w, informative);
    } else {
      match Select(reply.results)
      case Refused(error) => EmitTells(g, s, FRESH, error, w, informative);
      case Chosen(node) =>
        ResolvingKeepsIdentifier(node, w.table);
        EmitTells(g, s, Apply(node, ResolveNamespace, w.table), NoError, w, informative);
    }
  }

  lemma {:induction false} ContinueTells(g: Graph, s: State, replies: seq<(Reply, World)>, informative: bool)
    requires InGraph(g, s) && AllTold(s.emitted, informative)
    requires informative ==> forall i | 0 <= i < |replies| :: Informative(replies[i].0)
    ensures AllTold(Continue(g, s, replies).emitted, informative)
    decreases |replies|
  {
    if replies != [] && s.stack != [] {
      hide BrowsePathFinished, AllTold, Informative;
      FinishedTells(g, s, replies[0].0, replies[0].1, informative);
      ContinueTells(g, BrowsePathFinished(g, s, replies[0].0, replies[0].1), replies[1..], informative);
    }
  }

  /**
   In every run an error carries the empty node, unless a start node could not be created; and if every single local
   result names a node, every success carries an identifier.
   */
  lemma RunsTell(g: Graph, r: nat, w: World, replies: seq<(Reply, World)>, informative: bool)
    requires r < |g| && (informative ==> forall i | 0 <= i < |replies| :: Informative(replies[i].0))
    ensures AllTold(Continue(g, Begin(g, r, w), replies).emitted, informative)
  {
    ResolvingTells(g, State([r], None, 1, []), w, informative);
    ContinueTells(g, Begin(g, r, w), replies, informative);
  }
}
