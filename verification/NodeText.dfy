/** Node ids as text, `ns=<index>;<identifier>`, and the two functions that put a resolved namespace in front. */
module NodeText {
  import opened Wrappers
  import opened Bytes

  // ---------------------------------------------------------------- numbers

  predicate IsDigit(c: char) {
    '0' <= c <= '9'
  }

  predicate AllDigits(s: string) {
    forall i | 0 <= i < |s| :: IsDigit(s[i])
  }

  function Decimal(n: nat): (s: string)
    ensures s != "" && AllDigits(s)
  {
    var last := [('0' as int + n % 10) as char];
    if n < 10 then last else Decimal(n / 10) + last
  }

  function DigitsValue(s: string): nat
    requires AllDigits(s)
  {
    if s == "" then 0 else 10 * DigitsValue(s[..|s| - 1]) + (s[|s| - 1] as int - '0' as int)
  }

  /** QString::toUInt on plain decimal digits. */
  function ToUInt(s: string): Option<u32> {
    if s != "" && AllDigits(s) && DigitsValue(s) <= 0xFFFF_FFFF then Some(DigitsValue(s)) else None
  }

  function IntText(i: int): string {
    if i < 0 then "-" + Decimal(-i) else Decimal(i)
  }

  lemma {:induction false} DecimalRoundTrip(n: nat)
    ensures DigitsValue(Decimal(n)) == n
  {
    var s := Decimal(n);
    if n < 10 {
      assert s[..0] == "";
    } else {
      DecimalRoundTrip(n / 10);
      assert s[..|s| - 1] == Decimal(n / 10);
    }
  }

  // ---------------------------------------------------------------- splitting

  function IndexOf(s: string, c: char): (i: nat)
    ensures i <= |s| && c !in s[..i] && (i < |s| ==> s[i] == c) && (i < |s| <==> c in s)
  {
    if s == "" || s[0] == c then 0 else 1 + IndexOf(s[1..], c)
  }

  /** QString::split: empty parts are kept. */
  function Split(s: string, c: char): (parts: seq<string>)
    ensures |parts| >= 1
    decreases |s|
  {
    var i := IndexOf(s, c);
    if i == |s| then [s] else [s[..i]] + Split(s[i + 1..], c)
  }

  lemma SplitNone(s: string, c: char)
    ensures |Split(s, c)| == 1 <==> c !in s
  {
    var i := IndexOf(s, c);
    if i == |s| {
      assert s[..i] == s;
    } else {
      assert s[i] in s;
    }
  }

  lemma {:induction false} FirstOccurrence(a: string, b: string, c: char)
    requires c !in a
    ensures IndexOf(a + [c] + b, c) == |a|
  {
    if a == "" {
    } else {
      FirstOccurrence(a[1..], b, c);
      assert (a + [c] + b)[1..] == a[1..] + [c] + b;
    }
  }

  lemma SplitFirst(a: string, b: string, c: char)
    requires c !in a
    ensures Split(a + [c] + b, c) == [a] + Split(b, c)
  {
    var s := a + [c] + b;
    FirstOccurrence(a, b, c);
    assert s[..|a|] == a && s[|a| + 1..] == b;
  }

  /** There are two parts exactly when the separator occurs once, and it stands between them. */
  lemma SplitTwo(s: string, a: string, b: string, c: char)
    ensures Split(s, c) == [a, b] <==> s == a + [c] + b && c !in a && c !in b
  {
    SplitNone(b, c);
    if s == a + [c] + b && c !in a && c !in b {
      SplitFirst(a, b, c);
      assert Split(b, c) == [b];
    }
    if Split(s, c) == [a, b] {
      var i := IndexOf(s, c);
      var rest := s[i + 1..];
      assert s[..i] == [a, b][0] && Split(rest, c) == [a, b][1..] == [b];
      SplitNone(rest, c);
      assert rest == [b][0];
      assert s == s[..i] + [s[i]] + rest;
    }
  }

  // ---------------------------------------------------------------- node ids

  function CreateNodeString(namespaceIndex: int, nodeIdentifier: string): string {
    "ns=" + IntText(namespaceIndex) + ";" + nodeIdentifier
  }

  function Mid3(s: string): string {
    if |s| <= 3 then "" else s[3..]
  }

  /** The index and the identifier. Without an index to write to, the number is never read and splitting fails. */
  function SplitNodeId(nodeIdentifier: string, wantIndex: bool := true): Option<(u32, string)> {
    if !("ns=" <= nodeIdentifier) then None
    else
      var token := Split(nodeIdentifier, ';');
      if |token| != 2 then None
      else
        var ns := ToUInt(Mid3(token[0]));
        if !wantIndex || ns.None? then None else Some((ns.value, token[1]))
  }

  lemma DigitsHaveNoSemicolon(s: string)
    requires AllDigits(s)
    ensures ';' !in s
  {
  }

  lemma CreateSplits(i: nat, id: string)
    ensures
      var parts := Split(CreateNodeString(i, id), ';');
      parts == ["ns=" + Decimal(i)] + Split(id, ';')
  {
    var head := "ns=" + Decimal(i);
    DigitsHaveNoSemicolon(Decimal(i));
    assert CreateNodeString(i, id) == head + [';'] + id;
    SplitFirst(head, id, ';');
  }

  /** Splitting undoes printing exactly for identifiers without a semicolon. */
  lemma SplitUndoesCreateIff(i: u32, id: string)
    ensures SplitNodeId(CreateNodeString(i, id)) == Some((i, id)) <==> ';' !in id
    ensures ';' in id ==> SplitNodeId(CreateNodeString(i, id)) == None
  {
    var text := CreateNodeString(i, id);
    var head := "ns=" + Decimal(i);
    CreateSplits(i, id);
    SplitNone(id, ';');
    assert "ns=" <= text;
    assert Mid3(head) == Decimal(i);
    DecimalRoundTrip(i);
    assert ';' !in id ==> Split(id, ';') == [id];
  }


  /** `ns=`, digits, the only semicolon, an identifier. */
  predicate Readable(text: string, digits: string, i: u32, id: string) {
    text == "ns=" + digits + [';'] + id && ';' !in digits && ';' !in id && ToUInt(digits) == Some(i)
  }

  lemma SplitIsReadable(text: string, i: u32, id: string)
    requires SplitNodeId(text) == Some((i, id))
    ensures Readable(text, Mid3(Split(text, ';')[0]), i, id)
  {
    var token := Split(text, ';');
    assert token == [token[0], token[1]];
    SplitTwo(text, token[0], token[1], ';');
    hide Split, ToUInt;
    NotInPrefix(text, token[0], id);
    assert token[0] == "ns=" + Mid3(token[0]);
  }

  lemma ReadableIsSplit(text: string, digits: string, i: u32, id: string)
    requires Readable(text, digits, i, id)
    ensures SplitNodeId(text) == Some((i, id))
  {
    var head := "ns=" + digits;
    SplitTwo(text, head, id, ';');
    assert Mid3(head) == digits;
    assert text[..3] == "ns=";
    hide Split, ToUInt;
  }

  /** A text is split exactly if it is `ns=`, a readable number, a semicolon and an identifier without one. */
  lemma SplitNodeIdIff(text: string, i: u32, id: string)
    ensures SplitNodeId(text) == Some((i, id)) <==> exists digits :: Readable(text, digits, i, id)
  {
    hide SplitNodeId, Readable;
    if SplitNodeId(text) == Some((i, id)) {
      SplitIsReadable(text, i, id);
    }
    if digits :| Readable(text, digits, i, id) {
      ReadableIsSplit(text, digits, i, id);
    }
  }

  /** The first part is long enough to hold the prefix, because that has no separator. */
  lemma NotInPrefix(text: string, first: string, id: string)
    requires "ns=" <= text && text == first + [';'] + id
    ensures "ns=" <= first && |first| >= 3
  {
    assert text[|first|] == ';';
  }

  lemma UnprefixedIsNotSplit(text: string)
    ensures !("ns=" <= text) ==> SplitNodeId(text) == None
  {
  }

  /** The number a text of digits stands for, leading zeros included; anything else is no number. */
  lemma NumbersAreRead(n: nat, text: string)
    ensures ToUInt(Decimal(n)) == if n <= 0xFFFF_FFFF then Some(n) else None
    ensures text == "" || (exists c | c in text :: !('0' <= c <= '9')) ==> ToUInt(text) == None
    ensures Decimal(n)[0] == '0' ==> n == 0
  {
    DecimalRoundTrip(n);
    NoLeadingZero(n);
  }

  lemma {:induction false} NoLeadingZero(n: nat)
    ensures Decimal(n)[0] == '0' ==> n == 0
  {
    if n >= 10 {
      NoLeadingZero(n / 10);
    }
  }

  lemma SampleTexts()
    ensures CreateNodeString(2, "s=Foo") == "ns=2;s=Foo" && CreateNodeString(-1, "") == "ns=-1;"
  {
    assert Decimal(2) == "2" && Decimal(1) == "1";
  }

  // ---------------------------------------------------------------- namespace table

  /** The first position of `name`, if any. */
  function Position(name: string, table: seq<string>): (p: Option<nat>)
    ensures p.Some? ==> p.value < |table| && table[p.value] == name && name !in table[..p.value]
    ensures p.None? <==> name !in table
  {
    if table == [] then None
    else if table[0] == name then Some(0)
    else
      var rest := Position(name, table[1..]);
      if rest.None? then None else Some(1 + rest.value)
  }

  function ResolveNamespaceNameToIndex(name: string, table: seq<string>): (p: Option<nat>)
    ensures p.Some? <==> name != "" && name in table
    ensures p.Some? ==> p.value < |table| && table[p.value] == name && name !in table[..p.value]
  {
    if |table| == 0 || name == "" then None else Position(name, table)
  }

  datatype ExpandedText = ExpandedText(namespaceUri: string, nodeId: string, serverIndex: u32)

  /** The text and the `ok` flag. */
  function ResolveExpandedNodeId(x: ExpandedText, table: seq<string>): (string, bool) {
    if x.serverIndex != 0 && x.namespaceUri != "" then ("", false)
    else if x.namespaceUri == "" then (x.nodeId, true)
    else if |table| == 0 then ("", false)
    else
      var index := Position(x.namespaceUri, table);
      if index.None? then ("", false)
      else
        var splitId := Split(x.nodeId, ';');
        if |splitId| != 2 then ("", false)
        else ("ns=" + IntText(index.value) + ";" + splitId[1], true)
  }

  function ResolveNamespaceToNode(nodeId: string, namespaceName: string, table: seq<string>): string {
    var split := SplitNodeId(nodeId);
    var identifier := if split.Some? then split.value.1 else nodeId;
    if namespaceName != "" then
      var index := ResolveNamespaceNameToIndex(namespaceName, table);
      if index.None? then "" else CreateNodeString(index.value, identifier)
    else
      CreateNodeString(if split.Some? then Narrow32(split.value.0) else 0, identifier)
  }

  /**
   For a URI on the local server the two resolvers return the same text exactly when the URI is unknown to both
   or the node id starts with a readable namespace index.
   */
  lemma ResolversAgreeIff(x: ExpandedText, table: seq<string>)
    requires x.serverIndex == 0 && x.namespaceUri != ""
    ensures ResolveExpandedNodeId(x, table).0 == ResolveNamespaceToNode(x.nodeId, x.namespaceUri, table)
            <==> x.namespaceUri !in table || SplitNodeId(x.nodeId).Some?
  {
    if x.namespaceUri in table {
      var p := Position(x.namespaceUri, table).value;
      var parts := Split(x.nodeId, ';');
      var theirs := ResolveNamespaceToNode(x.nodeId, x.namespaceUri, table);
      if SplitNodeId(x.nodeId).None? {
        assert theirs == CreateNodeString(p, x.nodeId);
        if |parts| == 2 {
          assert parts == [parts[0], parts[1]];
          SplitTwo(x.nodeId, parts[0], parts[1], ';');
          assert |CreateNodeString(p, parts[1])| < |theirs|;
        }
      }
    }
  }

  /** An id without an index: one resolver gives nothing, the other one puts the index in front. */
  lemma ResolversDisagree()
    ensures
      var table := ["urn:x"];
      && ResolveExpandedNodeId(ExpandedText("urn:x", "i=85", 0), table) == ("", false)
      && ResolveNamespaceToNode("i=85", "urn:x", table) == "ns=0;i=85"
  {
    SplitNone("i=85", ';');
    assert "i=85"[..3] != "ns=";
  }

  /** Without a URI the id is handed back as it is; with one on another server, or no table to look in, nothing is. */
  lemma ExpandedWithoutLookup(uri: string, id: string, server: u32, table: seq<string>)
    ensures ResolveExpandedNodeId(ExpandedText("", id, server), table) == (id, true)
    ensures uri != "" && (server != 0 || uri !in table) ==>
              ResolveExpandedNodeId(ExpandedText(uri, id, server), table) == ("", false)
  {
  }

  /** Without a namespace name the index of the id is kept, as a signed number, and an id without one is put in namespace 0. */
  lemma NamelessKeepsIndex(i: u32, id: string, text: string, table: seq<string>)
    ensures ';' !in id ==>
              ResolveNamespaceToNode(CreateNodeString(i, id), "", table) ==
              CreateNodeString(if i <= 0x7FFF_FFFF then i else i - 0x1_0000_0000, id)
    ensures SplitNodeId(text) == None ==> ResolveNamespaceToNode(text, "", table) == CreateNodeString(0, text)
  {
    SplitUndoesCreateIff(i, id);
    hide SplitNodeId, CreateNodeString;
  }

  /** With a listed name the index is that of the name, whatever index the id had; an unlisted one gives nothing. */
  lemma NameReplacesIndex(name: string, text: string, table: seq<string>)
    requires name != ""
    ensures
      var r := ResolveNamespaceToNode(text, name, table);
      if name !in table then r == ""
      else
        exists first: nat | first < |table| && table[first] == name && name !in table[..first] ::
          r == CreateNodeString(first, if SplitNodeId(text).Some? then SplitNodeId(text).value.1 else text)
  {
    hide SplitNodeId, CreateNodeString;
  }

  /** For printed node ids both are empty exactly when the URI is not in the table, and otherwise name its first index. */
  lemma ResolvedText(i: u32, id: string, uri: string, table: seq<string>)
    requires ';' !in id && uri != ""
    ensures
      var text := CreateNodeString(i, id);
      var (resolved, ok) := ResolveExpandedNodeId(ExpandedText(uri, text, 0), table);
      && resolved == ResolveNamespaceToNode(text, uri, table)
      && (ok <==> uri in table) && (resolved == "" <==> uri !in table)
      && (uri in table ==>
            var p := Position(uri, table).value;
            SplitNodeId(resolved) == if p <= 0xFFFF_FFFF then Some((p, id)) else None)
  {
    var text := CreateNodeString(i, id);
    SplitUndoesCreateIff(i, id);
    ResolversAgreeIff(ExpandedText(uri, text, 0), table);
    if uri in table {
      var p := Position(uri, table).value;
      if p <= 0xFFFF_FFFF {
        SplitUndoesCreateIff(p, id);
      } else {
        LargeIndex(p, id);
      }
    }
  }

  lemma LargeIndex(p: nat, id: string)
    requires p > 0xFFFF_FFFF
    ensures SplitNodeId(CreateNodeString(p, id)).None?
  {
    CreateSplits(p, id);
    assert Mid3("ns=" + Decimal(p)) == Decimal(p);
    DecimalRoundTrip(p);
  }

  // ---------------------------------------------------------------- items to read or write

  /** The namespace given with an item: a number, or anything else as text. */
  datatype NamespaceIdentifier = Index(i: int) | Name(text: string)

  /** The node an item is read from or written to. With a number, the id is split without a place for its index. */
  function ItemNode(nodeId: string, namespaceIdentifier: NamespaceIdentifier, table: seq<string>): string {
    match namespaceIdentifier
    case Index(i) =>
      var split := SplitNodeId(nodeId, false);
      CreateNodeString(i, if split.Some? then split.value.1 else "")
    case Name(text) => ResolveNamespaceToNode(nodeId, text, table)
  }

  /**
   With a number as namespace the identifier is lost, whatever it was: all ids end at the same node text, which is
   never rejected as empty.
   */
  lemma IndexedItemsShareANode(a: string, b: string, i: int, table: seq<string>)
    ensures ItemNode(a, Index(i), table) == ItemNode(b, Index(i), table) != ""
    ensures 0 <= i <= 0xFFFF_FFFF ==> SplitNodeId(ItemNode(a, Index(i), table)) == Some((i, ""))
  {
    if 0 <= i <= 0xFFFF_FFFF {
      SplitUndoesCreateIff(i, "");
    }
  }

  /** A printed id keeps its identifier exactly if that is empty; with the namespace by name it always does. */
  lemma ItemKeepsIdentifierIff(j: u32, id: string, i: int, uri: string, table: seq<string>)
    requires ';' !in id
    ensures ItemNode(CreateNodeString(j, id), Index(i), table) == CreateNodeString(i, id) <==> id == ""
    ensures uri in table && uri != "" ==>
              ItemNode(CreateNodeString(j, id), Name(uri), table) == CreateNodeString(Position(uri, table).value, id)
  {
    SplitUndoesCreateIff(j, id);
    assert |CreateNodeString(i, id)| == |CreateNodeString(i, "")| + |id|;
  }

  /** The default of an item, an empty namespace, keeps a whole node id as it is. */
  lemma NamelessItemsAreKept(i: u32, id: string, text: string, table: seq<string>)
    ensures ';' !in id && i <= 0x7FFF_FFFF ==>
              ItemNode(CreateNodeString(i, id), Name(""), table) == CreateNodeString(i, id)
    ensures !("ns=" <= text) ==> ItemNode(text, Name(""), table) == CreateNodeString(0, text)
  {
    hide CreateNodeString;
    NamelessKeepsIndex(i, id, text, table);
    UnprefixedIsNotSplit(text);
  }
}
