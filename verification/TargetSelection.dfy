/** Which of the targets of a browse path becomes the resolved node. */
module TargetSelection {
  import opened Wrappers
  import opened Bytes
  import opened NodeText
  import opened NodeIdentity
  import opened UniversalNode

  datatype Target = Target(uri: string, nodeId: string, serverIndex: u32, remainingPathIndex: u32)

  /** The error texts a resolver emits; an empty text is no error. */
  datatype Error =
    | NoError
    | MemberDeleted
    | StartNodeMissing
    | PathEmpty
    | DepthReached
    | NodeNotCreated(nodeId: string)
    | BrowseNotStarted
    | BadStatus
    | ResultsEmpty
    | RemoteServer
    | MultipleNodes
    | NoneResolved

  datatype Selection = Chosen(node: Node) | Refused(error: Error)

  predicate FullyResolved(t: Target) {
    t.remainingPathIndex == 0xFFFF_FFFF
  }

  predicate Remote(t: Target) {
    FullyResolved(t) && t.serverIndex > 0
  }

  predicate Local(t: Target) {
    FullyResolved(t) && t.serverIndex == 0
  }

  function Taken(n: Node, t: Target): Node {
    Apply(n, FromTarget(t.uri, t.nodeId), [])
  }

  /** The pass over two or more results: the node taken so far and the message to give if none is. */
  function Scan(results: seq<Target>, tmp: Node, message: Error): Selection {
    if results == [] then
      if tmp.id != "" then Chosen(tmp) else Refused(message)
    else
      var r, rest := results[0], results[1..];
      if Remote(r) then Scan(rest, tmp, RemoteServer)
      else if !Local(r) then Scan(rest, tmp, message)
      else if tmp.id != "" then Refused(MultipleNodes)
      else Scan(rest, Taken(tmp, r), message)
  }

  /** A single result is taken whether or not the path was followed to its end. */
  function Select(results: seq<Target>): Selection {
    if |results| == 0 then Refused(ResultsEmpty)
    else if |results| == 1 then
      if results[0].serverIndex > 0 then Refused(RemoteServer) else Chosen(Taken(FRESH, results[0]))
    else Scan(results, FRESH, NoneResolved)
  }

  method SelectTarget(results: seq<Target>) returns (s: Selection)
    ensures s == Select(results)
  {
    if |results| == 0 { return Refused(ResultsEmpty); }
    var tmp := new UniversalNode();
    if |results| == 1 {
      if results[0].serverIndex > 0 { return Refused(RemoteServer); }
      tmp.FromTarget(results[0].uri, results[0].nodeId);
      return Chosen(tmp.Value());
    }
    var message := NoneResolved;
    for i := 0 to |results|
      invariant Select(results) == Scan(results[i..], tmp.Value(), message)
    {
      var result := results[i];
      assert results[i..][0] == result && results[i..][1..] == results[i + 1..];
      if FullyResolved(result) {
        if result.serverIndex > 0 {
          message := RemoteServer;
          continue;
        }
        if tmp.nodeIdentifier != "" { return Refused(MultipleNodes); }
        tmp.FromTarget(result.uri, result.nodeId);
      }
    }
    s := if tmp.nodeIdentifier != "" then Chosen(tmp.Value()) else Refused(message);
  }

  // ---------------------------------------------------------------- the outcome without an order

  function Keep<T>(p: T -> bool, s: seq<T>): seq<T> {
    if s == [] then []
    else if p(s[0]) then [s[0]] + Keep(p, s[1..])
    else Keep(p, s[1..])
  }

  function Locals(results: seq<Target>): seq<Target> {
    Keep(Local, results)
  }

  predicate HasRemote(results: seq<Target>) {
    exists i | 0 <= i < |results| :: Remote(results[i])
  }

  /** The node id splits into an index and an identifier that is not empty. */
  predicate Named(t: Target) {
    SplitNodeId(t.nodeId).Some? && SplitNodeId(t.nodeId).value.1 != ""
  }

  datatype Verdict = Nobody | One(target: Target) | Many

  /** What decides: the first named local target, and whether another local target follows it. */
  function Judge(locals: seq<Target>): Verdict {
    if locals == [] then Nobody
    else if Named(locals[0]) then if |locals| == 1 then One(locals[0]) else Many
    else Judge(locals[1..])
  }

  /** The chosen node carries the index and the identifier of this target. */
  predicate Carries(n: Node, t: Target) {
    && SplitNodeId(t.nodeId).Some?
    && n.valid && n.id == SplitNodeId(t.nodeId).value.1 && n.index == Low16(SplitNodeId(t.nodeId).value.0)
  }

  predicate Matches(s: Selection, v: Verdict, remote: bool) {
    match v
    case Nobody => s == Refused(if remote then RemoteServer else NoneResolved)
    case One(t) => s.Chosen? && Carries(s.node, t)
    case Many => s == Refused(MultipleNodes)
  }

  lemma TakenCarries(n: Node, t: Target)
    requires n.id == ""
    ensures if Named(t) then Carries(Taken(n, t), t) else Taken(n, t).id == ""
  {
  }

  lemma {:induction false} ScanWithNode(results: seq<Target>, tmp: Node, message: Error)
    requires tmp.id != ""
    ensures Scan(results, tmp, message) == if Locals(results) == [] then Chosen(tmp) else Refused(MultipleNodes)
  {
    if results == [] {
    } else if !Local(results[0]) {
      ScanWithNode(results[1..], tmp, if Remote(results[0]) then RemoteServer else message);
    }
  }

  lemma {:induction false} ScanIsJudged(results: seq<Target>, tmp: Node, message: Error)
    requires tmp.id == "" && message in {NoneResolved, RemoteServer}
    ensures Matches(Scan(results, tmp, message), Judge(Locals(results)), message == RemoteServer || HasRemote(results))
  {
    if results == [] {
    } else {
      var r, rest := results[0], results[1..];
      hide Taken;
      assert HasRemote(results) <==> Remote(r) || HasRemote(rest) by {
        assert forall i | 0 <= i < |rest| :: rest[i] == results[i + 1];
        assert forall i | 0 < i < |results| :: results[i] == rest[i - 1];
      }
      if !Local(r) {
        ScanIsJudged(rest, tmp, if Remote(r) then RemoteServer else message);
      } else {
        TakenCarries(tmp, r);
        if Named(r) {
          ScanWithNode(rest, Taken(tmp, r), message);
        } else {
          ScanIsJudged(rest, Taken(tmp, r), message);
          assert ([r] + Locals(rest))[1..] == Locals(rest);
        }
      }
    }
  }

  /** Two or more results: the selection is decided by the fully resolved local targets alone, in their order. */
  lemma SelectIsJudged(results: seq<Target>)
    requires |results| >= 2
    ensures Matches(Select(results), Judge(Locals(results)), HasRemote(results))
  {
    ScanIsJudged(results, FRESH, NoneResolved);
  }

  // ---------------------------------------------------------------- clean results

  lemma {:induction false} AllNamed(locals: seq<Target>)
    requires forall i | 0 <= i < |locals| :: Named(locals[i])
    ensures Judge(locals) == if |locals| == 0 then Nobody else if |locals| == 1 then One(locals[0]) else Many
  {
  }

  lemma {:induction false} KeptCount<T>(p: T -> bool, s: seq<T>, t: T)
    ensures multiset(Keep(p, s))[t] == if p(t) then multiset(s)[t] else 0
  {
    if s == [] {
    } else {
      KeptCount(p, s[1..], t);
      assert s == [s[0]] + s[1..];
    }
  }

  lemma KeptOfPermutation<T(!new)>(p: T -> bool, a: seq<T>, b: seq<T>)
    requires multiset(a) == multiset(b)
    ensures multiset(Keep(p, a)) == multiset(Keep(p, b)) && |Keep(p, a)| == |Keep(p, b)|
  {
    forall t
      ensures multiset(Keep(p, a))[t] == multiset(Keep(p, b))[t]
    {
      KeptCount(p, a, t);
      KeptCount(p, b, t);
    }
    assert multiset(Keep(p, a)) == multiset(Keep(p, b));
    SameMembers(Keep(p, a), Keep(p, b));
  }

  lemma KeptAreMembers<T(!new)>(p: T -> bool, s: seq<T>)
    ensures forall t :: t in Keep(p, s) <==> t in s && p(t)
  {
    forall t
      ensures t in Keep(p, s) <==> t in s && p(t)
    {
      KeptCount(p, s, t);
      assert t in Keep(p, s) <==> t in multiset(Keep(p, s));
      assert t in s <==> t in multiset(s);
    }
  }

  lemma RemotesOfPermutation(a: seq<Target>, b: seq<Target>)
    requires multiset(a) == multiset(b)
    ensures HasRemote(a) == HasRemote(b)
  {
    SameMembers(a, b);
    RemoteMembers(a);
    RemoteMembers(b);
  }

  lemma SameMembers<T(!new)>(a: seq<T>, b: seq<T>)
    requires multiset(a) == multiset(b)
    ensures |a| == |b| && forall t :: t in a <==> t in b
  {
    assert |a| == |multiset(a)| == |multiset(b)| == |b|;
    forall t
      ensures t in a <==> t in b
    {
      assert t in a <==> t in multiset(a);
      assert t in b <==> t in multiset(b);
    }
  }

  lemma RemoteMembers(a: seq<Target>)
    ensures HasRemote(a) <==> exists t :: t in a && Remote(t)
  {
  }

  lemma NamedLocals(results: seq<Target>)
    requires forall i | 0 <= i < |results| :: Named(results[i])
    ensures forall i | 0 <= i < |Locals(results)| :: Named(Locals(results)[i])
  {
    KeptAreMembers(Local, results);
    assert forall i | 0 <= i < |Locals(results)| :: Locals(results)[i] in results;
  }

  /** The only local target of clean results is taken into a fresh node. */
  lemma {:induction false} CleanScan(results: seq<Target>, message: Error)
    requires |Locals(results)| == 1 && Named(Locals(results)[0])
    ensures Scan(results, FRESH, message) == Chosen(Taken(FRESH, Locals(results)[0]))
  {
    var r, rest := results[0], results[1..];
    hide Taken;
    if Local(r) {
      TakenCarries(FRESH, r);
      ScanWithNode(rest, Taken(FRESH, r), message);
    } else {
      CleanScan(rest, if Remote(r) then RemoteServer else message);
    }
  }

  /** What is selected from two or more clean results. */
  lemma CleanSelection(results: seq<Target>)
    requires |results| >= 2 && forall i | 0 <= i < |results| :: Named(results[i])
    ensures
      Select(results) ==
      match |Locals(results)|
      case 0 => Refused(if HasRemote(results) then RemoteServer else NoneResolved)
      case 1 => Chosen(Taken(FRESH, Locals(results)[0]))
      case _ => Refused(MultipleNodes)
  {
    NamedLocals(results);
    AllNamed(Locals(results));
    SelectIsJudged(results);
    hide Taken;
    if |Locals(results)| == 1 {
      CleanScan(results, NoneResolved);
    }
  }

  /** Clean results are selected alike in every order. */
  lemma CleanSelectionIgnoresOrder(a: seq<Target>, b: seq<Target>)
    requires multiset(a) == multiset(b) && forall i | 0 <= i < |a| :: Named(a[i])
    ensures Select(a) == Select(b)
  {
    hide Taken, Named, Scan, Keep;
    SameMembers(a, b);
    assert forall i | 0 <= i < |b| :: b[i] in a;
    if |a| == 1 {
      assert b[0] in a;
      assert a == b;
    } else if |a| >= 2 {
      CleanSelection(a);
      CleanSelection(b);
      KeptOfPermutation(Local, a, b);
      RemotesOfPermutation(a, b);
      SameMembers(Locals(a), Locals(b));
      assert |Locals(a)| == 1 ==> Locals(b)[0] in Locals(a);
    }
  }

  // ---------------------------------------------------------------- when the order matters

  /** Exactly one local target is named, but it is not the only local target. */
  predicate Ambiguous(results: seq<Target>) {
    |Locals(results)| >= 2 && |Keep(Named, Locals(results))| == 1
  }

  lemma {:induction false} JudgedByCount(locals: seq<Target>)
    ensures Keep(Named, locals) == [] ==> Judge(locals) == Nobody
    ensures |Keep(Named, locals)| >= 2 ==> Judge(locals) == Many
    ensures |Keep(Named, locals)| == 1 && |locals| == 1 ==> Judge(locals) == One(locals[0])
  {
    if locals == [] {
    } else {
      hide Named;
      JudgedByCount(locals[1..]);
      if locals[1..] == [] {
        assert Keep(Named, locals[1..]) == [];
      }
    }
  }

  lemma {:induction false} JudgedLast(others: seq<Target>, t: Target)
    requires Keep(Named, others) == [] && Named(t)
    ensures Judge(others + [t]) == One(t)
  {
    if others == [] {
      assert others + [t] == [t];
    } else {
      assert (others + [t])[1..] == others[1..] + [t];
      JudgedLast(others[1..], t);
    }
  }

  lemma {:induction false} KeepConcat<T>(p: T -> bool, a: seq<T>, b: seq<T>)
    ensures Keep(p, a + b) == Keep(p, a) + Keep(p, b)
  {
    if a == [] {
      assert a + b == b;
    } else {
      KeepConcat(p, a[1..], b);
      assert (a + b)[1..] == a[1..] + b;
    }
  }

  lemma KeepOne<T>(p: T -> bool, t: T)
    ensures Keep(p, [t]) == if p(t) then [t] else []
  {
    assert [t][1..] == [];
  }

  /** The same results, with one of them moved to either end, and the others. */
  lemma MovedToTheEnds(results: seq<Target>, k: nat) returns (others: seq<Target>)
    requires k < |results|
    ensures multiset(others + [results[k]]) == multiset(results) == multiset([results[k]] + others)
  {
    others := results[..k] + results[k + 1..];
    assert results == results[..k] + [results[k]] + results[k + 1..];
  }

  /** A named local target wins behind the unnamed ones and spoils the selection in front of them. */
  lemma NamedTargetDecides(others: seq<Target>, t: Target)
    requires Local(t) && Named(t) && Locals(others) != [] && Keep(Named, Locals(others)) == []
    ensures Select(others + [t]).Chosen? && Select([t] + others) == Refused(MultipleNodes)
  {
    hide Named, Carries, Select;
    KeepOne(Local, t);
    KeepConcat(Local, others, [t]);
    KeepConcat(Local, [t], others);
    JudgedLast(Locals(others), t);
    assert others != [];
    SelectIsJudged(others + [t]);
    assert Judge([t] + Locals(others)) == Many;
    SelectIsJudged([t] + others);
  }

  lemma AmbiguousDependsOnOrder(results: seq<Target>)
    requires Ambiguous(results)
    ensures exists a, b :: multiset(a) == multiset(results) && multiset(b) == multiset(results)
                           && Select(a).Chosen? && Select(b).Refused?
  {
    hide Named, Local, Select;
    var locals := Locals(results);
    var t := Keep(Named, locals)[0];
    KeptAreMembers(Named, locals);
    KeptAreMembers(Local, results);
    assert t in Keep(Named, locals);
    var k :| 0 <= k < |results| && results[k] == t;
    var others := MovedToTheEnds(results, k);
    var last := others + [t];
    KeepOne(Local, t);
    KeepOne(Named, t);
    KeepConcat(Local, others, [t]);
    KeptOfPermutation(Local, last, results);
    KeptOfPermutation(Named, Locals(last), locals);
    KeepConcat(Named, Locals(others), [t]);
    NamedTargetDecides(others, t);
  }

  /** Fewer than two local targets, or none that is named, or at least two that are. */
  lemma UnambiguousIgnoresOrder(results: seq<Target>, p: seq<Target>)
    requires |results| >= 2 && !Ambiguous(results) && multiset(p) == multiset(results)
    ensures Select(p) == Select(results)
  {
    hide Named, Scan, Keep, HasRemote, SplitNodeId, Taken;
    SameMembers(p, results);
    KeptOfPermutation(Local, p, results);
    KeptOfPermutation(Named, Locals(p), Locals(results));
    RemotesOfPermutation(p, results);
    JudgedByCount(Locals(p));
    JudgedByCount(Locals(results));
    SelectIsJudged(p);
    SelectIsJudged(results);
    var a, b := Locals(p), Locals(results);
    SameMembers(a, b);
    FewerThanTwoNamed(b);
    hide Locals, Judge;
    if |b| == 1 && |Keep(Named, b)| == 1 {
      assert a[0] in a;
      assert a[0] == b[0];
      OnlyNamed(b);
      CleanScan(p, NoneResolved);
      CleanScan(results, NoneResolved);
    }
  }

  lemma OnlyNamed(locals: seq<Target>)
    requires |locals| == 1 && |Keep(Named, locals)| == 1
    ensures Named(locals[0])
  {
  }

  /** Two or more results are selected alike in every order exactly if they are not ambiguous. */
  lemma OrderIsIgnoredIff(results: seq<Target>)
    requires |results| >= 2
    ensures (forall p | multiset(p) == multiset(results) :: Select(p) == Select(results)) <==> !Ambiguous(results)
  {
    hide Select, Ambiguous;
    if Ambiguous(results) {
      AmbiguousDependsOnOrder(results);
      var a, b :| multiset(a) == multiset(results) && multiset(b) == multiset(results)
                  && Select(a).Chosen? && Select(b).Refused?;
      assert !(Select(a) == Select(results) && Select(b) == Select(results));
    } else {
      forall p | multiset(p) == multiset(results)
        ensures Select(p) == Select(results)
      {
        UnambiguousIgnoresOrder(results, p);
      }
    }
  }

  lemma SplitTexts()
    ensures SplitNodeId("ns=1;s=a;b") == None
    ensures SplitNodeId("ns=1;i=1") == Some((1, "i=1"))
  {
    assert Decimal(1) == "1";
    assert CreateNodeString(1, "s=a;b") == "ns=1;s=a;b" && CreateNodeString(1, "i=1") == "ns=1;i=1";
    SplitUndoesCreateIff(1, "s=a;b");
    SplitUndoesCreateIff(1, "i=1");
    assert "s=a;b"[3] == ';';
  }

  /** Two local targets whose ids tell the orders apart: an identifier with a semicolon is not split. */
  lemma AnAmbiguousPair()
    ensures
      var unnamed := Target("", "ns=1;s=a;b", 0, 0xFFFF_FFFF);
      var named := Target("", "ns=1;i=1", 0, 0xFFFF_FFFF);
      && Ambiguous([unnamed, named])
      && Select([unnamed, named]) == Chosen(Node("", "i=1", 1, true))
      && Select([named, unnamed]) == Refused(MultipleNodes)
  {
    hide SplitNodeId;
    SplitTexts();
    var unnamed := Target("", "ns=1;s=a;b", 0, 0xFFFF_FFFF);
    var named := Target("", "ns=1;i=1", 0, 0xFFFF_FFFF);
    assert Locals([unnamed, named]) == [unnamed] + Locals([named]);
    KeepOne(Local, named);
    KeepOne(Named, named);
    assert [unnamed, named][1..] == [named] && [named, unnamed][1..] == [unnamed];
  }

  lemma {:induction false} FewerThanTwoNamed(locals: seq<Target>)
    ensures |Keep(Named, locals)| <= |locals|
    ensures |locals| == 1 ==> forall t :: t in locals <==> t == locals[0]
  {
    if locals == [] {
    } else {
      FewerThanTwoNamed(locals[1..]);
    }
  }

  // ---------------------------------------------------------------- the documented rule

  /** The path was followed to its end exactly once, and what it ends at is on this server. */
  predicate MatchesExactlyOne(results: seq<Target>) {
    |Keep(FullyResolved, results)| == 1 && |Locals(results)| == 1
  }

  predicate OnlyLastNamed(locals: seq<Target>) {
    && locals != [] && Named(locals[|locals| - 1])
    && Keep(Named, locals[..|locals| - 1]) == []
  }

  lemma {:induction false} KeptByServer(results: seq<Target>)
    ensures |Keep(FullyResolved, results)| == |Locals(results)| + |Keep(Remote, results)|
    ensures HasRemote(results) <==> Keep(Remote, results) != []
  {
    KeptAreMembers(Remote, results);
    RemoteMembers(results);
    if HasRemote(results) {
      var t :| t in results && Remote(t);
      assert t in Keep(Remote, results);
    }
    if Keep(Remote, results) != [] {
      assert Keep(Remote, results)[0] in Keep(Remote, results);
    }
    if results != [] {
      KeptByServer(results[1..]);
    }
  }

  lemma {:induction false} JudgedOneIff(locals: seq<Target>)
    ensures Judge(locals).One? <==> OnlyLastNamed(locals)
  {
    if |locals| >= 2 {
      hide Named;
      var rest := locals[1..];
      JudgedOneIff(rest);
      assert locals[..|locals| - 1][1..] == rest[..|rest| - 1];
    }
  }

  /** A single result is used unless it is remote; of several, the last local one is, if it alone is named. */
  lemma ChosenIff(results: seq<Target>)
    ensures Select(results).Chosen? <==>
              if |results| == 1 then results[0].serverIndex == 0 else OnlyLastNamed(Locals(results))
  {
    hide Taken, Named;
    if |results| >= 2 {
      SelectIsJudged(results);
      JudgedOneIff(Locals(results));
    }
  }

  /** When exactly a selected target is there because the path was followed to its end. */
  lemma ChosenIsMatchedIff(results: seq<Target>)
    ensures Select(results).Chosen? ==>
              ((exists t :: t in results && Local(t)) <==> |results| >= 2 || FullyResolved(results[0]))
  {
    hide Taken, Named;
    ChosenIff(results);
    KeptAreMembers(Local, results);
    if |results| == 1 {
      assert results[0] in results;
    } else if Locals(results) != [] {
      var t := Locals(results)[0];
      assert t in Locals(results);
      assert t in results && Local(t);
    }
  }

  /** What a caller can see of the results before the selection. */
  predicate FollowsDocumentation(results: seq<Target>) {
    if |results| == 1 then results[0].serverIndex > 0 || FullyResolved(results[0])
    else if |Locals(results)| == 1 then Named(Locals(results)[0]) <==> !HasRemote(results)
    else !OnlyLastNamed(Locals(results))
  }

  /** A target is used exactly if the path matches exactly one, as documented, on these results and no others. */
  lemma DocumentedRuleIff(results: seq<Target>)
    ensures (Select(results).Chosen? <==> MatchesExactlyOne(results)) <==> FollowsDocumentation(results)
    ensures FollowsDocumentation(results) && MatchesExactlyOne(results) ==>
              Select(results) == Chosen(Taken(FRESH, Locals(results)[0]))
  {
    hide Taken, Named, Select;
    ChosenIff(results);
    KeptByServer(results);
    if |results| == 1 {
      assert results == [results[0]];
      KeepOne(FullyResolved, results[0]);
      KeepOne(Local, results[0]);
      SingleResult(results[0]);
    } else if |Locals(results)| == 1 {
      assert Keep(Named, Locals(results)[..0]) == [];
      if results != [] && Named(Locals(results)[0]) {
        CleanScan(results, NoneResolved);
        SeveralResults(results);
      }
    }
  }

  lemma SingleResult(t: Target)
    ensures Select([t]) == if t.serverIndex > 0 then Refused(RemoteServer) else Chosen(Taken(FRESH, t))
  {
  }

  lemma SeveralResults(results: seq<Target>)
    requires |results| >= 2
    ensures Select(results) == Scan(results, FRESH, NoneResolved)
  {
  }

  /** The documentation calls a partial match an error; a single one is used. */
  lemma PartialMatchIsUsed(t: Target)
    requires t.serverIndex == 0 && !FullyResolved(t)
    ensures Select([t]).Chosen? && Locals([t]) == [] && !FollowsDocumentation([t])
  {
    hide Taken;
    KeepOne(Local, t);
  }

  /** The path stopped in front of its third element, and the node reached so far is used. */
  lemma APartialMatch()
    ensures Select([Target("", "ns=1;i=1", 0, 2)]) == Chosen(Node("", "i=1", 1, true))
  {
    hide SplitNodeId;
    SplitTexts();
  }

  /** The messages of refusals, on concrete results: none at all, a single remote one, none resolved, one resolved elsewhere. */
  lemma SampleRefusals()
    ensures
      var (partial, remote) := (Target("", "ns=1;i=1", 0, 0), Target("", "ns=1;i=1", 1, 0xFFFF_FFFF));
      && Select([]) == Refused(ResultsEmpty) && Select([remote]) == Refused(RemoteServer)
      && Select([partial, partial]) == Refused(NoneResolved) && Select([remote, partial]) == Refused(RemoteServer)
  {
    hide SplitNodeId;
    var (partial, remote) := (Target("", "ns=1;i=1", 0, 0), Target("", "ns=1;i=1", 1, 0xFFFF_FFFF));
    assert [partial, partial][1..] == [partial] && [remote, partial][1..] == [partial] && [partial][1..] == [];
    assert Scan([partial], FRESH, NoneResolved) == Scan([], FRESH, NoneResolved) == Refused(NoneResolved);
    assert Scan([partial], FRESH, RemoteServer) == Scan([], FRESH, RemoteServer) == Refused(RemoteServer);
  }
}
