/** Node id strings as the codec reads and prints them, `ns=<index>;<kind>=<identifier>`. */
module NodeIdStrings {
  import opened Wrappers
  import opened Bytes
  import opened NodeText
  import opened Wire
  import opened NodeCodecs

  datatype Parts = Parts(ns: u16, kind: char, identifier: string)

  /** `ns=` and at least one digit. */
  predicate StartsWithIndex(s: string) {
    "ns=" <= s && |s| > 3 && IsDigit(s[3])
  }

  predicate HasKind(s: string) {
    |s| >= 3 && s[0] in ['i', 's', 'g', 'b'] && s[1] == '='
  }

  /** A first part that does not look like an index is passed over, and the namespace is 0. */
  function NodeIdStringSplit(text: string): Option<Parts> {
    var components := Split(text, ';');
    var last := components[|components| - 1];
    var indexed := |components| == 2 && StartsWithIndex(components[0]);
    var index := if indexed then ToUInt(Mid3(components[0])) else Some(0);
    if |components| > 2 || index.None? || index.value > 0xFFFF || !HasKind(last) then None
    else Some(Parts(index.value, last[0], last[2..]))
  }

  function Print(ns: u16, kind: char, identifier: string): string {
    CreateNodeString(ns, [kind, '='] + identifier)
  }

  lemma SplitWhole(s: string)
    requires ';' !in s
    ensures Split(s, ';') == [s]
  {
  }

  /** A printed node id splits into what it was printed from exactly if its identifier is neither empty nor has a semicolon. */
  lemma PrintedSplitsIff(ns: u16, kind: char, identifier: string)
    requires kind in ['i', 's', 'g', 'b']
    ensures NodeIdStringSplit(Print(ns, kind, identifier)) == Some(Parts(ns, kind, identifier))
            <==> identifier != "" && ';' !in identifier
  {
    var last := [kind, '='] + identifier;
    var head := "ns=" + Decimal(ns);
    CreateSplits(ns, last);
    SplitNone(last, ';');
    PrintedIndexIsRead(ns);
    KindHasNoSemicolon(kind, identifier);
    hide CreateNodeString, Split, Decimal, ToUInt, StartsWithIndex, Mid3;
    if ';' !in identifier {
      SplitWhole(last);
      assert last[2..] == identifier;
    }
  }

  lemma KindHasNoSemicolon(kind: char, identifier: string)
    requires kind in ['i', 's', 'g', 'b']
    ensures ';' in [kind, '='] + identifier <==> ';' in identifier
  {
    var last := [kind, '='] + identifier;
    assert forall i | 0 <= i < |identifier| :: last[i + 2] == identifier[i];
  }

  lemma PrintedIndexIsRead(ns: u16)
    ensures
      var head := "ns=" + Decimal(ns);
      StartsWithIndex(head) && ToUInt(Mid3(head)) == Some(ns)
  {
    var head := "ns=" + Decimal(ns);
    DecimalRoundTrip(ns);
    assert Mid3(head) == Decimal(ns) && head[3] == Decimal(ns)[0];
  }

  /** Anything but an index in front of the semicolon is silently read as namespace 0. */
  lemma UnreadablePrefixIsNamespaceZero(prefix: string, kind: char, identifier: string)
    requires kind in ['i', 's', 'g', 'b'] && ';' !in prefix && ';' !in identifier && identifier != ""
    requires !StartsWithIndex(prefix)
    ensures NodeIdStringSplit(prefix + [';'] + ([kind, '='] + identifier)) == Some(Parts(0, kind, identifier))
  {
    var last := [kind, '='] + identifier;
    SplitFirst(prefix, last, ';');
    SplitWhole(last);
    assert last[2..] == identifier;
  }

  /** Without a semicolon the namespace is 0; a kind other than the four, or nothing behind it, is refused. */
  lemma UnprefixedIsNamespaceZero(text: string)
    requires ';' !in text
    ensures NodeIdStringSplit(text) ==
              if |text| >= 3 && text[1] == '=' && text[0] in ['i', 's', 'g', 'b'] then Some(Parts(0, text[0], text[2..]))
              else None
  {
    SplitWhole(text);
  }

  /** An index beyond 65535 is refused, and so is any text with two semicolons. */
  lemma RefusedStrings(i: nat, kind: char, a: string, b: string, c: string)
    ensures i > 0xFFFF ==> NodeIdStringSplit("ns=" + Decimal(i) + [';'] + ([kind, '='] + a)) == None
    ensures NodeIdStringSplit(a + [';'] + b + [';'] + c) == None
  {
    if i > 0xFFFF {
      LargeIndexIsRefused(i, [kind, '='] + a);
    }
    ThreeParts(a, b, c);
  }

  lemma LargeIndexIsRefused(i: nat, last: string)
    requires i > 0xFFFF
    ensures NodeIdStringSplit("ns=" + Decimal(i) + [';'] + last) == None
  {
    var head := "ns=" + Decimal(i);
    DigitsHaveNoSemicolon(Decimal(i));
    SplitFirst(head, last, ';');
    assert head[3] == Decimal(i)[0] && Mid3(head) == Decimal(i);
    NumbersAreRead(i, "");
    hide Decimal, ToUInt, Mid3;
  }

  /** Each separator makes one more part. */
  lemma {:induction false} PartsCount(a: string, rest: string)
    ensures |Split(a + [';'] + rest, ';')| >= 1 + |Split(rest, ';')|
    decreases |a|
  {
    var i := IndexOf(a, ';');
    if i == |a| {
      SplitFirst(a, rest, ';');
    } else {
      var (first, behind) := (a[..i], a[i + 1..]);
      assert a + [';'] + rest == first + [';'] + (behind + [';'] + rest);
      SplitFirst(first, behind + [';'] + rest, ';');
      PartsCount(behind, rest);
    }
  }

  lemma ThreeParts(a: string, b: string, c: string)
    ensures |Split(a + [';'] + b + [';'] + c, ';')| > 2
  {
    assert a + [';'] + b + [';'] + c == a + [';'] + (b + [';'] + c);
    PartsCount(a, b + [';'] + c);
    PartsCount(b, c);
  }

  /** The node id a numeric node id string stands for. */
  function NumericOf(text: string): Option<NodeId> {
    var parts := NodeIdStringSplit(text);
    if parts.None? || parts.value.kind != 'i' || ToUInt(parts.value.identifier).None? then None
    else Some(NodeId(parts.value.ns, Numeric(ToUInt(parts.value.identifier).value)))
  }

  function PrintNumeric(n: NodeId): string
    requires n.NodeId? && n.id.Numeric?
  {
    Print(n.ns, 'i', Decimal(n.id.value))
  }

  /** From text to bytes and back: the text that is read back stands for the same node id. */
  lemma NumericTextThroughBytes(text: string)
    requires NumericOf(text).Some?
    ensures
      var n := NumericOf(text).value;
      var e := EncNodeId(n);
      e.ok && DecNodeId(Some(e.bytes), 0) == Got(n, |e.bytes|) && NumericOf(PrintNumeric(n)) == Some(n)
  {
    var n := NumericOf(text).value;
    var e := EncNodeId(n).bytes;
    hide EncNodeId, DecNodeId, NodeIdStringSplit, Print;
    NumericIsEncoded(n);
    assert e[0..|e|] == e;
    NodeIdRestored(n, Some(e), 0);
    DecimalRoundTrip(n.id.value);
    DigitsHaveNoSemicolon(Decimal(n.id.value));
    PrintedSplitsIff(n.ns, 'i', Decimal(n.id.value));
  }

  lemma NumericIsEncoded(n: NodeId)
    requires n.NodeId? && n.id.Numeric?
    ensures EncNodeId(n).ok <==> n.id.value <= 0xFFFF_FFFF
  {
  }
}
