/** The laws hold for byte strings, node ids and the structures that carry them. */
module NodeCodecs {
  import opened Wrappers
  import opened Bytes
  import opened Wire
  import opened CodecLaws
  import opened StructureCodecs

  // ---------------------------------------------------------------- byte strings

  /** The body of a one-byte array is announced but never written. */
  predicate ByteStringFits(b: ByteArray) {
    |Content(b)| != 1
  }

  const BYTE_STRING_CODEC: Codec<ByteArray> :=
    Codec(EncByteString, DecByteString, Same, Same, ByteStringFits, ByteStringFits, Always)

  lemma ByteStringRestored(b: ByteArray, m: Buffer, o: nat)
    ensures RestoredAt(BYTE_STRING_CODEC, b, m, o)
  {
    hide EncI32, DecI32;
    if Holds(BYTE_STRING_CODEC, b, m, o) {
      LengthThenContent(if b.None? then -1 else |b.value|, Content(b), m, o);
    }
  }

  lemma ByteStringThrifty(m: Buffer, o: nat)
    ensures Inside(m, o, DecByteString(m, o).next)
    ensures ThriftyAt(BYTE_STRING_CODEC, m, o)
    ensures
      var r := DecByteString(m, o);
      r.Got? ==> r.next - o == 4 + |Content(r.value)| && EncByteString(r.value).ok
  {
  }

  lemma ByteStringIsLawful()
    ensures Lawful(BYTE_STRING_CODEC)
  {
    hide EncByteString, DecByteString;
    forall m: Buffer, o: nat
      ensures Inside(m, o, BYTE_STRING_CODEC.dec(m, o).next) && ThriftyAt(BYTE_STRING_CODEC, m, o)
    {
      ByteStringThrifty(m, o);
    }
    forall b, m: Buffer, o: nat
      ensures RestoredAt(BYTE_STRING_CODEC, b, m, o)
    {
      ByteStringRestored(b, m, o);
    }
    forall b, c, m: Buffer, o: nat
      ensures InjectiveAt(BYTE_STRING_CODEC, b, c, m, o)
    {
      ByteStringRestored(b, m, o);
      ByteStringRestored(c, m, o);
    }
  }

  /** Not only do some contexts break a one-byte array: none restores it. */
  lemma OneByteIsNeverRestored(x: byte, p: bytes, s: bytes)
    ensures
      var e := EncByteString(Some([x]));
      && e.ok && e.bytes == [1, 0, 0, 0]
      && DecByteString(Some(p + e.bytes + s), |p|) ==
           if s == [] then Failed(|p| + 4) else Got(Some([s[0]]), |p| + 5)
  {
    var e := EncByteString(Some([x]));
    assert e.bytes == [1, 0, 0, 0] by {
      assert ToLittleEndian(4, 1) == [1] + ([0] + ([0] + ([0] + ToLittleEndian(0, 0))));
    }
    var m := Some(p + e.bytes + s);
    SitsInContext(p, e.bytes, s);
    LengthRestored(1, m, |p|);
    if s != [] {
      assert m.value[|p| + 4..|p| + 5] == [s[0]];
    }
  }

  // ---------------------------------------------------------------- node ids

  predicate IdentifierSized(id: Identifier) {
    match id
    case Text(t) => StringSized(Some(t))
    case Opaque(b) => |b| != 1
    case _ => true
  }

  predicate NodeIdSized(n: NodeId) {
    n.NodeId? ==> IdentifierSized(n.id)
  }

  function ReadIdentifier(id: Identifier): Identifier {
    match id
    case Text(t) => Text(FromUtf8(t))
    case _ => id
  }

  function ReadNodeId(n: NodeId): NodeId {
    match n
    case NodeId(ns, id) => NodeId(ns, ReadIdentifier(id))
    case Malformed => Malformed
  }

  predicate NodeIdUtf8(n: NodeId) {
    n.NodeId? && n.id.Text? ==> WellFormed(n.id.utf8)
  }

  predicate NodeIdFits(n: NodeId) {
    NodeIdSized(n) && (n.NodeId? && n.id.Text? ==> StringFits(Some(n.id.utf8)))
  }

  const NODE_ID_CODEC: Codec<NodeId> :=
    Codec(EncNodeId, DecNodeId, Same, ReadNodeId, NodeIdSized, NodeIdFits, NodeIdUtf8)

  lemma GuidRestored(g: Guid, m: Buffer, o: nat)
    ensures EncGuid(g).ok && |EncGuid(g).bytes| == 16
    ensures Sits(m, o, EncGuid(g).bytes) ==> DecGuid(m, o) == Got(g, o + 16)
  {
    hide DecU32, DecU16;
    if Sits(m, o, EncGuid(g).bytes) {
      SitsThen4(m, o, EncU32(g.data1), EncU16(g.data2), EncU16(g.data3), Written(g.data4, true));
      U32Restored(g.data1, m, o);
      U16Restored(g.data2, m, o + 4);
      U16Restored(g.data3, m, o + 6);
    }
  }

  const GUID_CODEC: Codec<Guid> := Codec(EncGuid, DecGuid, Same, Same, Always, Always, Always)

  lemma GuidIsLawful()
    ensures Lawful(GUID_CODEC)
  {
    hide EncGuid, DecGuid;
    forall m: Buffer, o: nat
      ensures ThriftyAt(GUID_CODEC, m, o)
    {
      if DecGuid(m, o).Got? {
        GuidRestored(DecGuid(m, o).value, m, o);
      }
    }
    forall g, m: Buffer, o: nat
      ensures RestoredAt(GUID_CODEC, g, m, o)
    {
      GuidRestored(g, m, o);
    }
    forall g, h, m: Buffer, o: nat
      ensures InjectiveAt(GUID_CODEC, g, h, m, o)
    {
      GuidRestored(g, m, o);
      GuidRestored(h, m, o);
    }
  }

  lemma NamespaceRestored(form: byte, ns: u16, m: Buffer, o: nat)
    ensures (form == 0x00 ==> ns == 0) && (form == 0x01 ==> ns <= 255) && o <= Size(m) &&
            Sits(m, o, EncNamespace(form, ns).bytes) ==>
              DecNamespace(form, m, o) == Got(ns, o + |EncNamespace(form, ns).bytes|)
  {
    Widths();
    if form == 0x01 && ns <= 255 {
      U8Restored(ns, m, o);
    } else if form > 0x01 {
      U16Restored(ns, m, o);
    }
  }

  lemma IdentifierRestored(ns: u16, id: Identifier, m: Buffer, o: nat)
    ensures
      var form := ChooseForm(ns, id);
      var w := EncIdentifier(form, id);
      w.ok && IdentifierSized(id) && Sits(m, o, w.bytes) ==> DecIdentifier(form, m, o) == Got(ReadIdentifier(id), o + |w.bytes|)
  {
    hide EncString, DecString, EncByteString, DecByteString, EncGuid, DecGuid, DecU8, DecU16, DecU32;
    match id
    case Numeric(value) =>
      if value <= 255 {
        U8Restored(value, m, o);
      }
      if value <= 65535 {
        U16Restored(value, m, o);
      }
      if value <= 0xFFFF_FFFF {
        U32Restored(value, m, o);
      }
    case Text(t) => StringRestored(Some(t), m, o);
    case Unique(g) => GuidRestored(g, m, o);
    case Opaque(b) => ByteStringRestored(Some(b), m, o);
  }

  lemma NodeIdBytes(n: NodeId)
    requires EncNodeId(n).ok
    ensures n.NodeId?
    ensures
      var form := ChooseForm(n.ns, n.id);
      && |EncNodeId(n).bytes| >= 2
      && EncNodeId(n).bytes[0] == form < 6
      && (form == 0x00 ==> n.ns == 0) && (form == 0x01 ==> n.ns <= 255)
      && EncNamespace(form, n.ns).ok && EncIdentifier(form, n.id).ok
      && EncNodeId(n).bytes[1..] == EncNamespace(form, n.ns).Then(EncIdentifier(form, n.id)).bytes
  {
    var form := ChooseForm(n.ns, n.id);
    assert ToLittleEndian(1, form) == [form];
    hide EncIdentifier, EncNamespace;
    var head, tail := EncNamespace(form, n.ns), EncIdentifier(form, n.id);
    assert [form] + head.bytes + tail.bytes == [form] + (head.bytes + tail.bytes);
  }

  /** A node id is held with two arbitrary high bits in its first byte. */
  ghost predicate HeldUnder(first: byte, n: NodeId, m: Buffer, o: nat) {
    EncNodeId(n).ok && NodeIdSized(n) && first % 0x40 == EncNodeId(n).bytes[0]
    && Sits(m, o, [first] + EncNodeId(n).bytes[1..])
  }

  lemma NodeIdParts(first: byte, n: NodeId, m: Buffer, o: nat)
    requires HeldUnder(first, n, m, o)
    ensures
      var form := ChooseForm(n.ns, n.id);
      var ns, id := EncNamespace(form, n.ns), EncIdentifier(form, n.id);
      && n.NodeId? && form == first % 0x40 < 6 && (form == 0x00 ==> n.ns == 0) && (form == 0x01 ==> n.ns <= 255)
      && DecU8(m, o) == Got(first, o + 1) && id.ok
      && Sits(m, o + 1, ns.bytes) && Sits(m, o + 1 + |ns.bytes|, id.bytes)
      && |EncNodeId(n).bytes| == 1 + |ns.bytes| + |id.bytes|
  {
    hide EncNodeId, EncIdentifier, EncNamespace, ChooseForm, DecU8;
    NodeIdBytes(n);
    var form := ChooseForm(n.ns, n.id);
    var ns, id := EncNamespace(form, n.ns), EncIdentifier(form, n.id);
    SitsThen(m, o, Written([first], true), ns.Then(id));
    SitsThen(m, o + 1, ns, id);
    assert ToLittleEndian(1, first) == [first];
    U8Restored(first, m, o);
  }

  /** The decoder looks through the two high bits of the first byte. */
  lemma FlaggedNodeIdRestored(n: NodeId, first: byte, m: Buffer, o: nat)
    ensures HeldUnder(first, n, m, o) ==> DecNodeId(m, o) == Got(ReadNodeId(n), o + |EncNodeId(n).bytes|)
  {
    hide EncNodeId, EncIdentifier, EncNamespace, DecIdentifier, DecNamespace, ChooseForm, DecU8;
    if HeldUnder(first, n, m, o) {
      NodeIdParts(first, n, m, o);
      NamespaceRestored(ChooseForm(n.ns, n.id), n.ns, m, o + 1);
      IdentifierRestored(n.ns, n.id, m, o + 1 + |EncNamespace(ChooseForm(n.ns, n.id), n.ns).bytes|);
    }
  }

  /** What is read tells the node ids apart, and where it is a text, so do the bytes. */
  lemma FlaggedNodeIdInjective(n: NodeId, p: NodeId, first: byte, m: Buffer, o: nat)
    ensures HeldUnder(first, n, m, o) && HeldUnder(first, p, m, o) ==> n == p
  {
    hide DecNodeId, EncNodeId;
    if HeldUnder(first, n, m, o) && HeldUnder(first, p, m, o) {
      FlaggedNodeIdRestored(n, first, m, o);
      FlaggedNodeIdRestored(p, first, m, o);
      if n.NodeId? && n.id.Text? && p.NodeId? && p.id.Text? {
        NodeIdParts(first, n, m, o);
        NodeIdParts(first, p, m, o);
        hide EncString;
        StringInjective(Some(n.id.utf8), Some(p.id.utf8), m, o + 3);
      }
    }
  }

  lemma HeldUnflagged(n: NodeId, m: Buffer, o: nat)
    ensures Holds(NODE_ID_CODEC, n, m, o) ==> HeldUnder(EncNodeId(n).bytes[0], n, m, o)
  {
    hide EncNodeId;
    if EncNodeId(n).ok {
      NodeIdBytes(n);
      var e := EncNodeId(n).bytes;
      assert e == [e[0]] + e[1..];
    }
  }

  lemma NodeIdRestored(n: NodeId, m: Buffer, o: nat)
    ensures RestoredAt(NODE_ID_CODEC, n, m, o)
  {
    hide EncNodeId, DecNodeId, HeldUnder;
    HeldUnflagged(n, m, o);
    if Holds(NODE_ID_CODEC, n, m, o) {
      FlaggedNodeIdRestored(n, EncNodeId(n).bytes[0], m, o);
    }
  }

  lemma NodeIdInjective(n: NodeId, p: NodeId, m: Buffer, o: nat)
    ensures InjectiveAt(NODE_ID_CODEC, n, p, m, o)
  {
    hide EncNodeId;
    if Holds(NODE_ID_CODEC, n, m, o) && Holds(NODE_ID_CODEC, p, m, o) {
      HeldUnflagged(n, m, o);
      HeldUnflagged(p, m, o);
      FirstByte(EncNodeId(n).bytes, m, o);
      FirstByte(EncNodeId(p).bytes, m, o);
      hide HeldUnder;
      FlaggedNodeIdInjective(n, p, m.value[o], m, o);
    }
  }

  lemma StringTaken(m: Buffer, o: nat)
    ensures
      var r := DecString(m, o);
      r.Got? && Content(r.value) != [] ==>
        var taken := 4 + |Content(r.value)| + if BYTE_ORDER_MARK <= Content(r.value) then 3 else 0;
        |Content(r.value)| <= MAX_INT32 && r.next - o >= taken
  {
  }

  /** How many bytes an accepted identifier took, form by form. */
  lemma IdentifierTaken(form: byte, m: Buffer, o: nat)
    ensures
      var r := DecIdentifier(form, m, o);
      r.Got? ==>
        match r.value
        case Numeric(v) => form <= 0x02 && r.next - o == (if form == 0 then 1 else if form == 1 then 2 else 4)
                           && v < Pow256(r.next - o)
        case Text(t) => form == 0x03 && (t != [] ==>
                          |t| <= MAX_INT32 && r.next - o >= 4 + |t| + (if BYTE_ORDER_MARK <= t then 3 else 0))
        case Unique(g) => form == 0x04 && r.next - o == 16
        case Opaque(b) => form == 0x05 && r.next - o == 4 + |b|
  {
    hide DecString, DecByteString, DecGuid;
    Widths();
    StringTaken(m, o);
    ByteStringThrifty(m, o);
  }

  lemma IdentifierSize(form: byte, id: Identifier)
    ensures
      var w := EncIdentifier(form, id);
      w.ok ==>
        match id
        case Numeric(v) => |w.bytes| == (if form == 0 then 1 else if form == 1 then 2 else 4)
        case Text(t) => t != [] && |w.bytes| == 4 + |t|
        case Unique(g) => |w.bytes| == 16
        case Opaque(b) => |w.bytes| == if |b| == 1 then 4 else 4 + |b|
  {
  }

  /**
   Of all byte strings in well-formed UTF-8 the decoder reads as a given encodable node id, the encoder writes a
   shortest one; for the identifiers that are not read back it writes less than any of them.
   */
  lemma NodeIdIsShortest(m: Buffer, o: nat)
    ensures
      var r := DecNodeId(m, o);
      r.Got? && NodeIdUtf8(r.value) && EncNodeId(r.value).ok ==>
        |EncNodeId(r.value).bytes| <= r.next - o
        && (NodeIdFits(r.value) || |EncNodeId(r.value).bytes| < r.next - o)
  {
    hide EncIdentifier, DecIdentifier;
    var r := DecNodeId(m, o);
    if r.Got? && EncNodeId(r.value).ok {
      var form := DecU8(m, o).value % 0x40;
      Widths();
      IdentifierTaken(form, m, DecNamespace(form, m, o + 1).next);
      IdentifierSize(ChooseForm(r.value.ns, r.value.id), r.value.id);
    }
  }

  lemma NodeIdIsLawful()
    ensures Lawful(NODE_ID_CODEC)
  {
    hide EncNodeId, DecNodeId;
    forall m: Buffer, o: nat
      ensures Inside(m, o, NODE_ID_CODEC.dec(m, o).next) && ThriftyAt(NODE_ID_CODEC, m, o)
    {
      NodeIdInside(m, o);
      NodeIdIsShortest(m, o);
    }
    forall n, m: Buffer, o: nat
      ensures RestoredAt(NODE_ID_CODEC, n, m, o)
    {
      NodeIdRestored(n, m, o);
    }
    forall n, p, m: Buffer, o: nat
      ensures InjectiveAt(NODE_ID_CODEC, n, p, m, o)
    {
      NodeIdInjective(n, p, m, o);
    }
  }

  lemma NodeIdInside(m: Buffer, o: nat)
    ensures Inside(m, o, DecNodeId(m, o).next)
  {
  }

  /** The three numeric forms, byte by byte. */
  lemma NumericWireForms(ns: u16, value: u32)
    ensures
      EncNodeId(NodeId(ns, Numeric(value))).bytes ==
      if value <= 255 && ns == 0 then [0x00, value]
      else if value <= 65535 && ns <= 255 then [0x01, ns, value % 256, value / 256]
      else [0x02, ns % 256, ns / 256, value % 256, value / 256 % 256, value / 65536 % 256, value / 16777216]
  {
    OneByte(ChooseForm(ns, Numeric(value)));
    if value <= 255 && ns == 0 {
      OneByte(value);
    } else if value <= 65535 && ns <= 255 {
      OneByte(ns);
      TwoBytes(value);
    } else {
      TwoBytes(ns);
      FourBytes(value);
    }
    hide ToLittleEndian;
  }

  lemma OneByte(v: byte)
    ensures ToLittleEndian(1, v) == [v]
  {
  }

  lemma TwoBytes(v: u16)
    ensures ToLittleEndian(2, v) == [v % 256, v / 256]
  {
    OneByte(v / 256);
  }

  lemma FourBytes(v: u32)
    ensures ToLittleEndian(4, v) == [v % 256, v / 256 % 256, v / 65536 % 256, v / 16777216]
  {
    TwoBytes(v / 65536);
    assert ToLittleEndian(4, v) == [v % 256] + ([v / 256 % 256] + ToLittleEndian(2, v / 65536));
  }

  /** Re-encoding whatever was read as a numeric node id: never longer, read back alike, and then stable. */
  lemma NumericReencoding(m: Buffer, o: nat)
    requires DecNodeId(m, o).Got? && DecNodeId(m, o).value.id.Numeric?
    ensures
      var r := DecNodeId(m, o);
      var e := EncNodeId(r.value);
      && e.ok
      && |e.bytes| <= r.next - o
      && DecNodeId(Some(e.bytes), 0) == Got(r.value, |e.bytes|)
  {
    var r := DecNodeId(m, o);
    assert EncNodeId(r.value).ok by {
      Widths();
      var form := DecU8(m, o).value % 0x40;
      IdentifierTaken(form, m, DecNamespace(form, m, o + 1).next);
    }
    hide EncNodeId, DecNodeId;
    NodeIdIsShortest(m, o);
    var e := EncNodeId(r.value).bytes;
    assert e[0..|e|] == e;
    NodeIdRestored(r.value, Some(e), 0);
  }

  // ---------------------------------------------------------------- expanded node ids

  function NormExpanded(x: ExpandedNodeId): ExpandedNodeId {
    x.(namespaceUri := NormPart(x.namespaceUri))
  }

  function ReadExpanded(x: ExpandedNodeId): ExpandedNodeId {
    ExpandedNodeId(ReadPart(x.namespaceUri), ReadNodeId(x.nodeId), x.serverIndex)
  }

  predicate ExpandedSized(x: ExpandedNodeId) {
    StringSized(x.namespaceUri) && NodeIdSized(x.nodeId)
  }

  predicate ExpandedFits(x: ExpandedNodeId) {
    StringFits(x.namespaceUri) && NodeIdFits(x.nodeId)
  }

  predicate ExpandedUtf8(x: ExpandedNodeId) {
    StringUtf8(x.namespaceUri) && NodeIdUtf8(x.nodeId)
  }

  const EXPANDED_NODE_ID_CODEC: Codec<ExpandedNodeId> :=
    Codec(EncExpandedNodeId, DecExpandedNodeId, NormExpanded, ReadExpanded, ExpandedSized, ExpandedFits, ExpandedUtf8)

  /** The two flags and the form share a byte without disturbing each other. */
  lemma FlagsAreIndependent(form: byte, hasUri: bool, hasServer: bool)
    requires form < 6
    ensures
      var b := FlaggedForm(form, hasUri, hasServer);
      && b % 0x40 == form && (HasFlag(b, 0x80) <==> hasUri) && (HasFlag(b, 0x40) <==> hasServer)
  {
  }

  lemma ServerIndexRestored(index: u32, m: Buffer, o: nat)
    ensures Sits(m, o, EncServerIndex(index).bytes) ==>
              DecServerIndex(index != 0, m, o) == Got(index, o + |EncServerIndex(index).bytes|)
  {
    U32Restored(index, m, o);
  }

  lemma FirstByte(e: bytes, m: Buffer, o: nat)
    requires Sits(m, o, e) && e != []
    ensures Enough(m, o, 1) && m.value[o] == e[0]
  {
    assert m.value[o..o + |e|][0] == e[0];
  }

  /** The node id under its flags, which say what follows it. */
  lemma ExpandedParts(x: ExpandedNodeId, m: Buffer, o: nat)
    requires Holds(EXPANDED_NODE_ID_CODEC, x, m, o)
    ensures
      var uri, node := EncPart(x.namespaceUri), DecNodeId(m, o);
      && Enough(m, o, 1) && HeldUnder(m.value[o], x.nodeId, m, o)
      && (HasFlag(m.value[o], 0x80) <==> Content(x.namespaceUri) != [])
      && (HasFlag(m.value[o], 0x40) <==> x.serverIndex != 0)
      && node == Got(ReadNodeId(x.nodeId), node.next)
      && uri.ok && Sits(m, node.next, uri.bytes)
      && Sits(m, node.next + |uri.bytes|, EncServerIndex(x.serverIndex).bytes)
      && o + |EncExpandedNodeId(x).bytes| == node.next + |uri.bytes| + |EncServerIndex(x.serverIndex).bytes|
  {
    hide EncNodeId, DecNodeId, EncPart, EncServerIndex, FlaggedForm, HasFlag;
    var node := EncNodeId(x.nodeId);
    NodeIdBytes(x.nodeId);
    var first := FlaggedForm(node.bytes[0], Content(x.namespaceUri) != [], x.serverIndex != 0);
    FlagsAreIndependent(node.bytes[0], Content(x.namespaceUri) != [], x.serverIndex != 0);
    var head := Written([first] + node.bytes[1..], true);
    SitsThen3(m, o, head, EncPart(x.namespaceUri), EncServerIndex(x.serverIndex));
    FirstByte(head.bytes, m, o);
    FlaggedNodeIdRestored(x.nodeId, first, m, o);
  }

  lemma ExpandedNodeIdRestored(x: ExpandedNodeId, m: Buffer, o: nat)
    ensures RestoredAt(EXPANDED_NODE_ID_CODEC, x, m, o)
  {
    hide EncExpandedNodeId, DecNodeId, EncPart, DecPart, EncServerIndex, DecServerIndex, HasFlag, HeldUnder, Sits;
    if Holds(EXPANDED_NODE_ID_CODEC, x, m, o) {
      ExpandedParts(x, m, o);
      var next := DecNodeId(m, o).next;
      PartRestored(x.namespaceUri, m, next);
      ServerIndexRestored(x.serverIndex, m, next + |EncPart(x.namespaceUri).bytes|);
    }
  }

  lemma ExpandedNodeIdInjective(x: ExpandedNodeId, y: ExpandedNodeId, m: Buffer, o: nat)
    ensures InjectiveAt(EXPANDED_NODE_ID_CODEC, x, y, m, o)
  {
    hide EncExpandedNodeId, DecNodeId, EncPart, DecPart, EncServerIndex, DecServerIndex, HasFlag, HeldUnder, Sits;
    if Holds(EXPANDED_NODE_ID_CODEC, x, m, o) && Holds(EXPANDED_NODE_ID_CODEC, y, m, o) {
      ExpandedParts(x, m, o);
      ExpandedParts(y, m, o);
      FlaggedNodeIdInjective(x.nodeId, y.nodeId, m.value[o], m, o);
      var next := DecNodeId(m, o).next;
      PartInjective(x.namespaceUri, y.namespaceUri, m, next);
      PartRestored(x.namespaceUri, m, next);
      PartRestored(y.namespaceUri, m, next);
      ServerIndexRestored(x.serverIndex, m, next + |EncPart(x.namespaceUri).bytes|);
      ServerIndexRestored(y.serverIndex, m, next + |EncPart(y.namespaceUri).bytes|);
    }
  }

  lemma ExpandedNodeIdThrifty(m: Buffer, o: nat)
    ensures Inside(m, o, DecExpandedNodeId(m, o).next)
    ensures ThriftyAt(EXPANDED_NODE_ID_CODEC, m, o)
  {
    hide EncNodeId, DecNodeId, EncPart, DecPart, HasFlag, FlaggedForm;
    if Enough(m, o, 1) {
      var first, node := m.value[o], DecNodeId(m, o);
      NodeIdInside(m, o);
      NodeIdIsShortest(m, o);
      if node.Got? {
        PartThrifty(HasFlag(first, 0x80), m, node.next);
        if EncNodeId(node.value).ok {
          NodeIdBytes(node.value);
        }
      }
    }
  }

  lemma ExpandedNodeIdNormal(x: ExpandedNodeId)
    ensures NormalAt(EXPANDED_NODE_ID_CODEC, x)
  {
    hide EncNodeId, EncString;
  }

  lemma ExpandedNodeIdIsLawful()
    ensures Lawful(EXPANDED_NODE_ID_CODEC)
  {
    hide EncExpandedNodeId, DecExpandedNodeId;
    forall m: Buffer, o: nat
      ensures Inside(m, o, EXPANDED_NODE_ID_CODEC.dec(m, o).next) && ThriftyAt(EXPANDED_NODE_ID_CODEC, m, o)
    {
      ExpandedNodeIdThrifty(m, o);
    }
    forall x, m: Buffer, o: nat
      ensures RestoredAt(EXPANDED_NODE_ID_CODEC, x, m, o)
    {
      ExpandedNodeIdRestored(x, m, o);
    }
    forall x, y, m: Buffer, o: nat
      ensures InjectiveAt(EXPANDED_NODE_ID_CODEC, x, y, m, o)
    {
      ExpandedNodeIdInjective(x, y, m, o);
    }
    forall x
      ensures NormalAt(EXPANDED_NODE_ID_CODEC, x)
    {
      ExpandedNodeIdNormal(x);
    }
  }
}
