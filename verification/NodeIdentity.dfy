/** The four members of a universal node as a value, and what each public operation makes of them. */
module NodeIdentity {
  import opened Wrappers
  import opened Bytes
  import opened NodeText

  datatype Node = Node(name: string, id: string, index: u16, valid: bool)

  const FRESH := Node("", "", 0, false)

  /** What setMembers is asked to set. */
  datatype Update = Update(index: Option<u16>, name: Option<string>, id: Option<string>)

  datatype Signal =
    | NamespaceIndexChanged(index: u16)
    | NamespaceNameChanged(name: string)
    | NodeIdentifierChanged(id: string)
    | NamespaceChanged
    | NodeChanged

  // ---------------------------------------------------------------- setMembers

  predicate IndexMoves(n: Node, u: Update) {
    u.index.Some? && (u.index.value != n.index || !n.valid)
  }

  /** A moved index without a name beside it invalidates the name. */
  function WithIndex(n: Node, u: Update): Node {
    if IndexMoves(n, u) then
      n.(index := u.index.value, valid := true, name := if u.name.None? then "" else n.name)
    else n
  }

  predicate NameMoves(n: Node, u: Update) {
    u.name.Some? && u.name.value != n.name
  }

  /** A changed name without an index beside it invalidates the index. */
  function WithName(n: Node, u: Update): Node {
    if NameMoves(n, u) then n.(name := u.name.value, valid := u.index.Some? && n.valid) else n
  }

  predicate IdMoves(n: Node, u: Update) {
    u.id.Some? && u.id.value != n.id
  }

  function Members(n: Node, u: Update): Node {
    var m := WithName(WithIndex(n, u), u);
    if IdMoves(n, u) then m.(id := u.id.value) else m
  }

  function Emitted(n: Node, u: Update): seq<Signal> {
    var (i, s, d) := (IndexMoves(n, u), NameMoves(WithIndex(n, u), u), IdMoves(n, u));
    var m := Members(n, u);
    (if i then [NamespaceIndexChanged(m.index)] else [])
    + (if s then [NamespaceNameChanged(m.name)] else [])
    + (if d then [NodeIdentifierChanged(m.id)] else [])
    + (if i || s then [NamespaceChanged] else [])
    + (if i || s || d then [NodeChanged] else [])
  }

  /** nodeChanged is emitted once, last, if any of the four members has a new value, and otherwise nothing is emitted. */
  lemma ChangeIsNotifiedExactly(n: Node, u: Update)
    ensures multiset(Emitted(n, u))[NodeChanged] == if Members(n, u) != n then 1 else 0
    ensures if Members(n, u) != n then Emitted(n, u)[|Emitted(n, u)| - 1] == NodeChanged else Emitted(n, u) == []
  {
  }

  /** The name and index signals miss exactly the changes that only invalidate the counterpart. */
  lemma NamespaceSignalsIff(n: Node, u: Update)
    ensures
      var m := Members(n, u);
      && (NamespaceNameChanged(m.name) in Emitted(n, u) <==> m.name != n.name && u.name.Some?)
      && (m.name != n.name && u.name.None? <==> IndexMoves(n, u) && u.name.None? && n.name != "")
      && (NamespaceIndexChanged(m.index) in Emitted(n, u) <==> (m.index, m.valid) != (n.index, n.valid) && u.index.Some?)
      && ((m.index, m.valid) != (n.index, n.valid) && u.index.None? <==> NameMoves(n, u) && u.index.None? && n.valid)
  {
  }

  /** A new index drops the name and a new name the index, and neither loss has a signal of its own. */
  lemma SilentInvalidations()
    ensures
      var (named, indexed) := (Node("urn:x", "i=85", 0, false), Node("", "i=85", 3, true));
      var (index, name) := (Update(Some(2), None, None), Update(None, Some("urn:x"), None));
      && Members(named, index) == Node("", "i=85", 2, true)
      && Emitted(named, index) == [NamespaceIndexChanged(2), NamespaceChanged, NodeChanged]
      && Members(indexed, name) == Node("urn:x", "i=85", 3, false)
      && Emitted(indexed, name) == [NamespaceNameChanged("urn:x"), NamespaceChanged, NodeChanged]
  {
    assert ['u'] <= "urn:x";
  }

  /** Every member after setMembers: what is set wins, and what contradicts it is invalidated. */
  lemma MembersAre(n: Node, u: Update)
    ensures
      var m := Members(n, u);
      && m.id == u.id.GetOr(n.id) && m.index == u.index.GetOr(n.index)
      && m.name == u.name.GetOr(if u.index.None? then n.name else NameBeside(n, u.index.value))
      && (m.valid <==> u.index.Some? || (n.valid && u.name.GetOr(n.name) == n.name))
  {
  }

  /** The name that is left when an index is set without one. */
  function NameBeside(n: Node, index: u16): string {
    if n.valid && n.index == index then n.name else ""
  }

  /** The identifier is announced exactly if it changed, and the namespace exactly if its name or its index is. */
  lemma OtherSignalsIff(n: Node, u: Update)
    ensures
      var (m, signals) := (Members(n, u), Emitted(n, u));
      && (NodeIdentifierChanged(m.id) in signals <==> m.id != n.id)
      && (NamespaceChanged in signals <==> NamespaceNameChanged(m.name) in signals || NamespaceIndexChanged(m.index) in signals)
  {
  }

  /** All signals at once, in their order. */
  lemma SignalOrder()
    ensures Emitted(Node("urn:a", "i=1", 1, true), Update(Some(2), Some("urn:b"), Some("i=2"))) ==
            [NamespaceIndexChanged(2), NamespaceNameChanged("urn:b"), NodeIdentifierChanged("i=2"), NamespaceChanged, NodeChanged]
  {
    assert "urn:a"[4] != "urn:b"[4] && "i=1"[2] != "i=2"[2];
  }

  // ---------------------------------------------------------------- operations

  /** A browse target: the URI, the node id text and the server it is on. */
  datatype Operation =
    | SetNamespace(text: string)
    | SetNamespaceIndex(index: u16)
    | SetNodeIdentifier(text: string)
    | ResolveIndexToName
    | ResolveNameToIndex
    | ResolveNamespace
    | FromQualifiedName(index: u16, name: string)
    | FromExpandedNodeId(uri: string, nodeId: string)
    | FromTarget(uri: string, nodeId: string)
    | FromNodeIdType(other: Node)
    | FromNode(other: Node)
    | Assign(other: Node)

  function Low16(i: u32): u16 {
    i % 0x1_0000
  }

  function NonEmpty(s: string): Option<string> {
    if s == "" then None else Some(s)
  }

  const UNCHANGED := Update(None, None, None)

  function IndexToName(n: Node, table: seq<string>): Update {
    if !n.valid || |table| == 0 || n.index >= |table| then UNCHANGED
    else Update(Some(n.index), Some(table[n.index]), None)
  }

  function NameToIndex(n: Node, table: seq<string>): Update {
    if n.valid then UNCHANGED
    else
      var index := ResolveNamespaceNameToIndex(n.name, table);
      if index.None? then UNCHANGED else Update(Some(index.value % 0x1_0000), Some(n.name), None)
  }

  /** The call of setMembers each operation ends in; assignment makes none. */
  function UpdateOf(n: Node, op: Operation, table: seq<string>): Update {
    match op
    case SetNamespace(text) =>
      var number := ToUInt(text);
      if number.Some? then Update(Some(Low16(number.value)), None, None) else Update(None, Some(text), None)
    case SetNamespaceIndex(index) => Update(Some(index), None, None)
    case SetNodeIdentifier(text) =>
      var parts := SplitNodeId(text);
      if parts.Some? then Update(Some(Low16(parts.value.0)), None, Some(parts.value.1)) else Update(None, None, Some(text))
    case ResolveIndexToName => IndexToName(n, table)
    case ResolveNameToIndex => NameToIndex(n, table)
    case ResolveNamespace =>
      if !n.valid then NameToIndex(n, table) else if n.name == "" then IndexToName(n, table) else UNCHANGED
    case FromQualifiedName(index, name) => Update(Some(index), None, Some(name))
    case FromExpandedNodeId(uri, nodeId) => Update(None, Some(uri), Some(nodeId))
    case FromTarget(uri, nodeId) =>
      var parts := SplitNodeId(nodeId);
      if parts.Some? then Update(Some(Low16(parts.value.0)), NonEmpty(uri), Some(parts.value.1))
      else Update(None, NonEmpty(uri), Some(""))
    case FromNodeIdType(o) => Update(if o.valid then Some(o.index) else None, NonEmpty(o.name), NonEmpty(o.id))
    case FromNode(o) => Update(if o.valid then Some(o.index) else None, Some(o.name), Some(o.id))
    case Assign(_) => UNCHANGED
  }

  function Apply(n: Node, op: Operation, table: seq<string>): Node {
    if op.Assign? then op.other else Members(n, UpdateOf(n, op, table))
  }

  function Notified(n: Node, op: Operation, table: seq<string>): seq<Signal> {
    if op.Assign? then [] else Emitted(n, UpdateOf(n, op, table))
  }

  function ApplyAll(n: Node, ops: seq<Operation>, table: seq<string>): Node
    decreases |ops|
  {
    if ops == [] then n else ApplyAll(Apply(n, ops[0], table), ops[1..], table)
  }

  function FullNodeId(n: Node): string {
    if !n.valid || n.id == "" then "" else CreateNodeString(n.index, n.id)
  }

  // ---------------------------------------------------------------- what each operation leaves

  /** A number sets the index, of which 16 bits are kept, and any other text the name. */
  lemma NamespaceIsSet(n: Node, i: u32, text: string, table: seq<string>)
    ensures Apply(n, SetNamespace(Decimal(i)), table) == Node(NameBeside(n, Low16(i)), n.id, i % 0x1_0000, true)
    ensures ToUInt(text) == None ==>
              Apply(n, SetNamespace(text), table) == Node(text, n.id, n.index, n.valid && n.name == text)
  {
    NumbersAreRead(i, "");
  }

  lemma NamespaceIndexIsSet(n: Node, index: u16, table: seq<string>)
    ensures Apply(n, SetNamespaceIndex(index), table) == Node(NameBeside(n, index), n.id, index, true)
  {
  }

  /** A printed node id sets index and identifier; a text that does not split is the identifier. */
  lemma NodeIdentifierIsSet(n: Node, i: u32, id: string, text: string, table: seq<string>)
    ensures ';' !in id ==>
              Apply(n, SetNodeIdentifier(CreateNodeString(i, id)), table) == Node(NameBeside(n, Low16(i)), id, i % 0x1_0000, true)
    ensures SplitNodeId(text) == None ==> Apply(n, SetNodeIdentifier(text), table) == n.(id := text)
  {
    SplitUndoesCreateIff(i, id);
    hide SplitNodeId, CreateNodeString;
  }

  /** A valid index in range gets its name. */
  lemma IndexIsResolved(n: Node, table: seq<string>)
    ensures Apply(n, ResolveIndexToName, table) == if n.valid && n.index < |table| then n.(name := table[n.index]) else n
  {
  }

  /** A listed name gets its first index. */
  lemma NameIsResolved(n: Node, table: seq<string>)
    ensures n.valid || n.name == "" || n.name !in table ==> Apply(n, ResolveNameToIndex, table) == n
    ensures !n.valid && n.name != "" && n.name in table ==>
              Apply(n, ResolveNameToIndex, table) == n.(index := Position(n.name, table).value % 0x1_0000, valid := true)
  {
    hide Position, Members;
    MembersAre(n, NameToIndex(n, table));
  }

  /** A missing index is looked up by the name, and a missing name by the index. */
  lemma NamespaceIsResolved(n: Node, table: seq<string>)
    ensures Apply(n, ResolveNamespace, table) ==
            if !n.valid then Apply(n, ResolveNameToIndex, table)
            else if n.name == "" then Apply(n, ResolveIndexToName, table)
            else n
  {
    hide NameToIndex, IndexToName;
  }

  lemma QualifiedNameIsTaken(n: Node, index: u16, name: string, table: seq<string>)
    ensures Apply(n, FromQualifiedName(index, name), table) == Node(NameBeside(n, index), name, index, true)
  {
  }

  lemma ExpandedNodeIdIsTaken(n: Node, uri: string, id: string, table: seq<string>)
    ensures Apply(n, FromExpandedNodeId(uri, id), table) == Node(uri, id, n.index, n.valid && n.name == uri)
  {
  }

  /** A browse target: its URI, if it has one, and the parts of its id; an id that does not split leaves no identifier. */
  lemma TargetIsTaken(n: Node, uri: string, i: u32, id: string, text: string, table: seq<string>)
    ensures ';' !in id ==>
              Apply(n, FromTarget(uri, CreateNodeString(i, id)), table) ==
              Node(if uri != "" then uri else NameBeside(n, Low16(i)), id, i % 0x1_0000, true)
    ensures SplitNodeId(text) == None ==>
              Apply(n, FromTarget(uri, text), table) ==
              Node(if uri != "" then uri else n.name, "", n.index, n.valid && (uri == "" || uri == n.name))
  {
    SplitUndoesCreateIff(i, id);
    hide SplitNodeId, CreateNodeString;
  }

  /** What another node id type has is taken, and what it has not is kept. */
  lemma NodeIdTypeIsTaken(n: Node, o: Node, table: seq<string>)
    ensures
      Apply(n, FromNodeIdType(o), table) ==
      Node(if o.name != "" then o.name else if o.valid then NameBeside(n, o.index) else n.name,
           if o.id != "" then o.id else n.id,
           if o.valid then o.index else n.index,
           o.valid || (n.valid && (o.name == "" || o.name == n.name)))
  {
  }

  lemma NodeIsTaken(n: Node, o: Node, table: seq<string>)
    ensures
      Apply(n, FromNode(o), table) ==
      Node(o.name, o.id, if o.valid then o.index else n.index, o.valid || (n.valid && o.name == n.name))
  {
  }

  // ---------------------------------------------------------------- coherence

  /** A valid index and a name never contradict the server's table. */
  predicate Coherent(n: Node, table: seq<string>) {
    n.valid && n.name != "" ==> n.index < |table| && table[n.index] == n.name
  }

  predicate Sound(u: Update, table: seq<string>) {
    u.index.Some? && u.name.Some? && u.name.value != "" ==>
      u.index.value < |table| && table[u.index.value] == u.name.value
  }

  /** A coherent node stays coherent exactly if index and name, where both are given, match the table. */
  lemma CoherenceIff(n: Node, u: Update, table: seq<string>)
    requires Coherent(n, table)
    ensures Coherent(Members(n, u), table) <==> Sound(u, table)
  {
  }

  /** Sources must be coherent themselves; a browse target must not bring a URI along. */
  predicate Admissible(op: Operation, table: seq<string>) {
    match op
    case FromTarget(uri, _) => uri == ""
    case FromNodeIdType(o) => Coherent(o, table)
    case FromNode(o) => Coherent(o, table)
    case Assign(o) => Coherent(o, table)
    case _ => true
  }

  lemma OperationKeepsCoherence(n: Node, op: Operation, table: seq<string>)
    requires |table| <= 0x1_0000 && Coherent(n, table) && Admissible(op, table)
    ensures Coherent(Apply(n, op, table), table)
  {
    if !op.Assign? {
      var u := UpdateOf(n, op, table);
      assert Sound(u, table);
      hide UpdateOf;
      CoherenceIff(n, u, table);
    }
  }

  lemma {:induction false} RunsKeepCoherence(n: Node, ops: seq<Operation>, table: seq<string>)
    requires |table| <= 0x1_0000 && Coherent(n, table)
    requires forall i | 0 <= i < |ops| :: Admissible(ops[i], table)
    ensures Coherent(ApplyAll(n, ops, table), table)
    decreases |ops|
  {
    if ops == [] {
    } else {
      hide Apply, Coherent, Admissible;
      OperationKeepsCoherence(n, ops[0], table);
      RunsKeepCoherence(Apply(n, ops[0], table), ops[1..], table);
    }
  }

  lemma ListedNameIsFound(n: Node, table: seq<string>)
    requires |table| <= 0x1_0000 && !n.valid && n.name in table && n.name != ""
    ensures
      var first := Position(n.name, table).value;
      first < |table| && UpdateOf(n, ResolveNamespace, table) == Update(Some(first), Some(n.name), None)
  {
    hide Position;
    assert ResolveNamespaceNameToIndex(n.name, table) == Position(n.name, table);
  }

  /** A node known by a listed name prints the first index of that name. */
  lemma ResolvedNodePrintsFirstIndex(n: Node, table: seq<string>)
    requires |table| <= 0x1_0000 && !n.valid && n.name in table && n.name != "" && n.id != ""
    ensures
      var r := Apply(n, ResolveNamespace, table);
      exists first: nat ::
        && first < |table| && table[first] == n.name && n.name !in table[..first]
        && r == n.(index := first, valid := true)
        && FullNodeId(r) == CreateNodeString(first, n.id)
  {
    ListedNameIsFound(n, table);
    var first := Position(n.name, table).value;
    hide CreateNodeString, UpdateOf, Position;
    assert FullNodeId(n.(index := first, valid := true)) == CreateNodeString(first, n.id);
  }

  /** A second resolution changes nothing. */
  lemma ResolutionIsIdempotent(n: Node, table: seq<string>)
    requires |table| <= 0x1_0000
    ensures
      var r := Apply(n, ResolveNamespace, table);
      Apply(r, ResolveNamespace, table) == r && Notified(r, ResolveNamespace, table) == []
  {
  }

  // ---------------------------------------------------------------- copies

  /** The copy constructor: the flag for the index is taken from the name. */
  function Copy(n: Node): Node {
    Members(FRESH, Update(if n.name != "" then Some(n.index) else None, NonEmpty(n.name), NonEmpty(n.id)))
  }

  /** A copy equals its original exactly if a name and a valid index go together, or both are missing. */
  lemma CopyIsFaithfulIff(n: Node)
    ensures Copy(n) == n <==> if n.name != "" then n.valid else !n.valid && n.index == 0
    ensures Copy(Copy(n)) == Copy(n)
  {
  }

  /** What copying does to the others: a nameless index is dropped, an unresolved name becomes index 0 or a stale one. */
  lemma UnfaithfulCopies(n: Node)
    ensures n.valid && n.name == "" ==> Copy(n) == Node("", n.id, 0, false) && FullNodeId(Copy(n)) == ""
    ensures !n.valid && n.name != "" ==> Copy(n) == n.(valid := true)
  {
  }

  /** A copy is coherent exactly if the table has the name at the index, valid or not. */
  lemma CopyIsCoherentIff(n: Node, table: seq<string>)
    ensures Coherent(Copy(n), table) <==> (n.name != "" ==> n.index < |table| && table[n.index] == n.name)
  {
  }

  /** Copying an unresolved name may contradict the table. */
  lemma CopyBreaksCoherence()
    ensures
      var table := ["http://opcfoundation.org/UA/", "urn:server"];
      var n := Node("urn:server", "i=1", 0, false);
      Coherent(n, table) && !Coherent(Copy(n), table)
  {
  }

  /** Taking over another node by `from` yields that node exactly in these cases. */
  lemma FromNodeIsFaithfulIff(n: Node, o: Node, table: seq<string>)
    ensures Apply(n, FromNode(o), table) == o <==> o.valid || (n.index == o.index && (n.name != o.name || !n.valid))
  {
  }
}
