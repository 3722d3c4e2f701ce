/** The universal node object: four fields that change together, and the signals it has emitted. */
module UniversalNode {
  import opened Wrappers
  import opened Bytes
  import opened NodeText
  import opened NodeIdentity

  class UniversalNode {
    var namespaceName: string
    var nodeIdentifier: string
    var namespaceIndex: u16
    var namespaceIndexValid: bool
    var signals: seq<Signal>

    function Value(): Node
      reads this
    {
      Node(namespaceName, nodeIdentifier, namespaceIndex, namespaceIndexValid)
    }

    constructor ()
      ensures Value() == FRESH && signals == []
    {
      namespaceName, nodeIdentifier := "", "";
      namespaceIndex, namespaceIndexValid := 0, false;
      signals := [];
    }

    constructor CopyOf(other: UniversalNode)
      ensures Value() == Copy(other.Value())
    {
      namespaceName, nodeIdentifier := "", "";
      namespaceIndex, namespaceIndexValid := 0, false;
      signals := [];
      new;
      SetMembers(other.namespaceName != "", other.namespaceIndex, other.namespaceName != "", other.namespaceName,
                 other.nodeIdentifier != "", other.nodeIdentifier);
    }

    /** All three flags with their values, as the source passes them. */
    method SetMembers(setIndex: bool, index: u16, setName: bool, name: string, setIdentifier: bool, identifier: string)
      modifies this
      ensures
        var u := Update(if setIndex then Some(index) else None, if setName then Some(name) else None,
                        if setIdentifier then Some(identifier) else None);
        Value() == Members(old(Value()), u) && signals == old(signals) + Emitted(old(Value()), u)
    {
      var indexChanged, nameChanged, identifierChanged := false, false, false;
      if setIndex && (index != namespaceIndex || !namespaceIndexValid) {
        namespaceIndex, namespaceIndexValid := index, true;
        indexChanged := true;
        if !setName {
          namespaceName := "";
        }
      }
      if setName && name != namespaceName {
        namespaceName := name;
        nameChanged := true;
        if !setIndex {
          namespaceIndexValid := false;
        }
      }
      if setIdentifier && identifier != nodeIdentifier {
        nodeIdentifier := identifier;
        identifierChanged := true;
      }
      var i := if indexChanged then [NamespaceIndexChanged(namespaceIndex)] else [];
      var n := if nameChanged then [NamespaceNameChanged(namespaceName)] else [];
      var d := if identifierChanged then [NodeIdentifierChanged(nodeIdentifier)] else [];
      var space := if indexChanged || nameChanged then [NamespaceChanged] else [];
      var node := if indexChanged || nameChanged || identifierChanged then [NodeChanged] else [];
      signals := signals + (i + n + d + space + node);
    }

    method SetNamespace(text: string)
      modifies this
      ensures Does(old(Value()), old(signals), Operation.SetNamespace(text), [])
    {
      var number := ToUInt(text);
      var ok := number.Some?;
      SetMembers(ok, Low16(number.GetOr(0)), !ok, text, false, "");
    }

    method SetNamespaceIndex(index: u16)
      modifies this
      ensures Does(old(Value()), old(signals), Operation.SetNamespaceIndex(index), [])
    {
      SetMembers(true, index, false, "", false, "");
    }

    method SetNodeIdentifier(text: string)
      modifies this
      ensures Does(old(Value()), old(signals), Operation.SetNodeIdentifier(text), [])
    {
      var parts := SplitNodeId(text);
      if parts.Some? {
        SetMembers(true, Low16(parts.value.0), false, "", true, parts.value.1);
      } else {
        SetMembers(false, 0, false, "", true, text);
      }
    }

    method ResolveNamespace(table: seq<string>)
      modifies this
      ensures Does(old(Value()), old(signals), Operation.ResolveNamespace, table)
    {
      if !namespaceIndexValid {
        ResolveNamespaceNameToIndex(table);
      } else if namespaceName == "" {
        ResolveNamespaceIndexToName(table);
      } else {
        NothingEmitted(Value());
      }
    }

    method ResolveNamespaceIndexToName(table: seq<string>)
      modifies this
      ensures Does(old(Value()), old(signals), ResolveIndexToName, table)
    {
      NothingEmitted(Value());
      if !namespaceIndexValid { return; }
      if |table| == 0 { return; }
      if namespaceIndex >= |table| { return; }
      SetMembers(true, namespaceIndex, true, table[namespaceIndex], false, "");
    }

    method ResolveNamespaceNameToIndex(table: seq<string>)
      modifies this
      ensures Does(old(Value()), old(signals), ResolveNameToIndex, table)
    {
      NothingEmitted(Value());
      if namespaceIndexValid { return; }
      var index := NodeText.ResolveNamespaceNameToIndex(namespaceName, table);
      if index.None? { return; }
      SetMembers(true, index.value % 0x1_0000, true, namespaceName, false, "");
    }

    method FromQualifiedName(index: u16, name: string)
      modifies this
      ensures Does(old(Value()), old(signals), Operation.FromQualifiedName(index, name), [])
    {
      SetMembers(true, index, false, "", true, name);
    }

    method FromExpandedNodeId(uri: string, nodeId: string)
      modifies this
      ensures Does(old(Value()), old(signals), Operation.FromExpandedNodeId(uri, nodeId), [])
    {
      SetMembers(false, 0, true, uri, true, nodeId);
    }

    method FromTarget(uri: string, nodeId: string)
      modifies this
      ensures Does(old(Value()), old(signals), Operation.FromTarget(uri, nodeId), [])
    {
      var index: u32, identifier := 0, "";
      var parts := SplitNodeId(nodeId);
      if parts.Some? {
        index, identifier := parts.value.0, parts.value.1;
      }
      SetMembers(parts.Some?, Low16(index), uri != "", uri, true, identifier);
    }

    method FromNodeIdType(other: UniversalNode)
      modifies this
      ensures Does(old(Value()), old(signals), Operation.FromNodeIdType(old(other.Value())), [])
    {
      SetMembers(other.namespaceIndexValid, other.namespaceIndex, other.namespaceName != "", other.namespaceName,
                 other.nodeIdentifier != "", other.nodeIdentifier);
    }

    method FromNode(other: UniversalNode)
      modifies this
      ensures Does(old(Value()), old(signals), Operation.FromNode(old(other.Value())), [])
    {
      SetMembers(other.namespaceIndexValid, other.namespaceIndex, true, other.namespaceName, true, other.nodeIdentifier);
    }

    /** Assignment copies the fields and stays silent. */
    method Assign(rhs: UniversalNode)
      modifies this
      ensures Does(old(Value()), old(signals), Operation.Assign(old(rhs.Value())), [])
    {
      assert signals + [] == signals;
      namespaceName, nodeIdentifier := rhs.namespaceName, rhs.nodeIdentifier;
      namespaceIndex, namespaceIndexValid := rhs.namespaceIndex, rhs.namespaceIndexValid;
    }

    method FullNodeId() returns (text: string)
      ensures text == NodeIdentity.FullNodeId(Value())
      ensures text == "" <==> !namespaceIndexValid || nodeIdentifier == ""
      ensures text != "" && ';' !in nodeIdentifier ==> SplitNodeId(text) == Some((namespaceIndex, nodeIdentifier))
    {
      SplitUndoesCreateIff(namespaceIndex, nodeIdentifier);
      if !namespaceIndexValid || nodeIdentifier == "" { return ""; }
      text := CreateNodeString(namespaceIndex, nodeIdentifier);
    }

    /** The object is now what the operation makes of `before`, and has emitted what the operation emits. */
    ghost predicate Does(before: Node, emitted: seq<Signal>, op: Operation, table: seq<string>)
      reads this
    {
      Value() == Apply(before, op, table) && signals == emitted + Notified(before, op, table)
    }

    lemma NothingEmitted(n: Node)
      ensures Members(n, UNCHANGED) == n && Emitted(n, UNCHANGED) == [] && signals + [] == signals
    {
    }
  }
}
