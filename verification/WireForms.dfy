/**
 The wire forms of section 5.2 of OPC UA Part 6, byte by byte, and which values have one: a reference beside the encoders
 of `Wire`, which append to a buffer and may fail halfway.
 */
module WireForms {
  import opened Wrappers
  import opened Bytes
  import opened Wire
  import opened StructureCodecs
  import opened NodeCodecs
  import opened RecordCodecs

  // ---------------------------------------------------------------- forms

  function Half(v: u16): bytes {
    [v % 256, v / 256]
  }

  function Word(v: u32): bytes {
    [v % 256, v / 256 % 256, v / 65536 % 256, v / 16777216]
  }

  function Long(v: u64): bytes {
    Word(v % 0x1_0000_0000) + Word(v / 0x1_0000_0000)
  }

  function StringForm(s: QString): bytes
    requires StringSized(s)
  {
    match s
    case None => [0xFF, 0xFF, 0xFF, 0xFF]
    case Some(utf8) => Word(|utf8|) + utf8
  }

  /** The body of a one-byte array is missing, against the standard. */
  function ByteStringForm(b: ByteArray): bytes
    requires |Content(b)| <= 0x7FFF_FFFF
  {
    match b
    case None => [0xFF, 0xFF, 0xFF, 0xFF]
    case Some(data) => Word(|data|) + if |data| == 1 then [] else data
  }

  function QualifiedNameForm(q: QualifiedName): bytes
    requires QualifiedNameSized(q)
  {
    Half(q.namespaceIndex) + StringForm(q.name)
  }

  /** A mask that announces the parts that are not empty: 1 for the locale, 2 for the text. */
  function TextForm(t: LocalizedText): bytes
    requires TextSized(t)
  {
    match (Content(t.locale) != [], Content(t.text) != [])
    case (false, false) => [0x00]
    case (true, false) => [0x01] + StringForm(t.locale)
    case (false, true) => [0x02] + StringForm(t.text)
    case (true, true) => [0x03] + StringForm(t.locale) + StringForm(t.text)
  }

  function UnitsForm(u: EUInformation): bytes
    requires UnitsSized(u)
  {
    var unitId := if u.unitId < 0 then u.unitId + 0x1_0000_0000 else u.unitId;
    StringForm(u.namespaceUri) + Word(unitId) + TextForm(u.displayName) + TextForm(u.description)
  }

  function RangeForm(r: Range): bytes {
    Long(r.low) + Long(r.high)
  }

  function ItemsForm<T>(form: T --> bytes, xs: seq<T>): bytes
    requires forall i | 0 <= i < |xs| :: form.requires(xs[i])
  {
    if xs == [] then [] else form(xs[0]) + ItemsForm(form, xs[1..])
  }

  function ArrayForm<T>(form: T --> bytes, xs: seq<T>): bytes
    requires |xs| <= 0x7FFF_FFFF && forall i | 0 <= i < |xs| :: form.requires(xs[i])
  {
    Word(|xs|) + ItemsForm(form, xs)
  }

  function AxisForm(a: AxisInformation): bytes
    requires AxisSized(a) && |a.axisSteps| <= 0x7FFF_FFFF
  {
    UnitsForm(a.engineeringUnits) + RangeForm(a.range) + TextForm(a.title) + Word(a.axisScaleType)
    + ArrayForm(Long, a.axisSteps)
  }

  function GuidForm(g: Guid): bytes {
    Word(g.data1) + Half(g.data2) + Half(g.data3) + g.data4
  }

  function FormByte(n: NodeId): byte
    requires n.NodeId?
  {
    match n.id
    case Numeric(value) => if value <= 255 && n.ns == 0 then 0x00 else if value <= 65535 && n.ns <= 255 then 0x01 else 0x02
    case Text(_) => 0x03
    case Unique(_) => 0x04
    case Opaque(_) => 0x05
  }

  /** The form byte, completed by the flags of an expanded node id, and the rest. */
  function NodeIdForm(n: NodeId, flags: byte): bytes
    requires NodeIdSized(n) && flags in {0x00, 0x40, 0x80, 0xC0} && EncodableNodeId(n)
  {
    [FormByte(n) + flags] +
    match n.id
    case Numeric(value) =>
      if FormByte(n) == 0x00 then [value]
      else if FormByte(n) == 0x01 then [n.ns] + Half(value)
      else Half(n.ns) + Word(value)
    case Text(utf8) => Half(n.ns) + Word(|utf8|) + utf8
    case Unique(guid) => Half(n.ns) + GuidForm(guid)
    case Opaque(data) => Half(n.ns) + Word(|data|) + data
  }

  function ExpandedForm(x: ExpandedNodeId): bytes
    requires ExpandedSized(x) && EncodableNodeId(x.nodeId)
  {
    var hasUri, hasServer := Content(x.namespaceUri) != [], x.serverIndex != 0;
    NodeIdForm(x.nodeId, (if hasUri then 0x80 else 0) + (if hasServer then 0x40 else 0))
    + (if hasUri then StringForm(x.namespaceUri) else [])
    + (if hasServer then Word(x.serverIndex) else [])
  }

  function ObjectForm(x: ExtensionObject): bytes
    requires ObjectSized(x) && EncodableObject(x)
  {
    NodeIdForm(x.typeId, 0) +
    match x.encoding
    case NoBody => [0x00]
    case ByteString => [0x01] + ByteStringForm(x.body)
    case Xml => [0x02] + ByteStringForm(x.body)
  }

  function ArgumentForm(a: Argument): bytes
    requires ArgumentSized(a) && EncodableArgument(a)
  {
    var valueRank := if a.valueRank < 0 then a.valueRank + 0x1_0000_0000 else a.valueRank;
    StringForm(a.name) + NodeIdForm(a.dataTypeId, 0) + Word(valueRank) + ArrayForm(Word, a.arrayDimensions)
    + TextForm(a.description)
  }

  function RecordForm(a: ApplicationRecord): bytes
    requires EncodableRecord(a) && RecordSized(a)
  {
    NodeIdForm(a.applicationId, 0) + StringForm(a.applicationUri) + Word(a.applicationType)
    + ArrayForm(TextForm, a.applicationNames) + StringForm(a.productUri)
    + ArrayForm(StringForm, a.discoveryUrls) + ArrayForm(StringForm, a.serverCapabilities)
  }

  // ---------------------------------------------------------------- which values are encoded

  /** QString and QByteArray sizes that fit a qint32. */
  predicate EncodableString(s: QString) {
    Utf16Size(Content(s)) <= 0x7FFF_FFFF
  }

  predicate EncodableText(t: LocalizedText) {
    EncodableString(t.locale) && EncodableString(t.text)
  }

  predicate EncodableUnits(u: EUInformation) {
    EncodableString(u.namespaceUri) && EncodableText(u.displayName) && EncodableText(u.description)
  }

  predicate EncodableAxis(a: AxisInformation) {
    EncodableUnits(a.engineeringUnits) && EncodableText(a.title) && |a.axisSteps| <= 0x7FFF_FFFF
  }

  /** A node id string that splits, with an identifier that is in range, not empty and not null. */
  predicate EncodableNodeId(n: NodeId) {
    n.NodeId? &&
    match n.id
    case Numeric(value) => value <= 0xFFFF_FFFF
    case Text(utf8) => utf8 != [] && 0x3B !in utf8 && Utf16Size(utf8) <= 0x7FFF_FFFF
    case Unique(guid) => guid != Guid(0, 0, 0, [0, 0, 0, 0, 0, 0, 0, 0])
    case Opaque(data) => 1 <= |data| <= 0x7FFF_FFFF
  }

  predicate EncodableExpanded(x: ExpandedNodeId) {
    EncodableNodeId(x.nodeId) && EncodableString(x.namespaceUri)
  }

  predicate EncodableObject(x: ExtensionObject) {
    EncodableNodeId(x.typeId) && (x.encoding.NoBody? || |Content(x.body)| <= 0x7FFF_FFFF)
  }

  predicate EncodableArgument(a: Argument) {
    && EncodableString(a.name) && EncodableNodeId(a.dataTypeId) && |a.arrayDimensions| <= 0x7FFF_FFFF
    && EncodableText(a.description)
  }

  predicate EncodableRecord(a: ApplicationRecord) {
    && EncodableNodeId(a.applicationId) && EncodableString(a.applicationUri) && EncodableString(a.productUri)
    && |a.applicationNames| <= 0x7FFF_FFFF && (forall t | t in a.applicationNames :: EncodableText(t))
    && |a.discoveryUrls| <= 0x7FFF_FFFF && (forall s | s in a.discoveryUrls :: EncodableString(s))
    && |a.serverCapabilities| <= 0x7FFF_FFFF && (forall s | s in a.serverCapabilities :: EncodableString(s))
  }

  lemma StringIsEncodedIff(s: QString)
    ensures EncString(s).ok <==> EncodableString(s)
  {
  }

  lemma ByteStringIsEncodedIff(b: ByteArray)
    ensures EncByteString(b).ok <==> |Content(b)| <= 0x7FFF_FFFF
  {
  }

  lemma QualifiedNameIsEncodedIff(q: QualifiedName)
    ensures EncQualifiedName(q).ok <==> EncodableString(q.name)
  {
  }

  lemma TextIsEncodedIff(t: LocalizedText)
    ensures EncLocalizedText(t).ok <==> EncodableText(t)
  {
  }

  lemma UnitsAreEncodedIff(u: EUInformation)
    ensures EncEUInformation(u).ok <==> EncodableUnits(u)
  {
    hide EncString, EncLocalizedText;
    StringIsEncodedIff(u.namespaceUri);
    TextIsEncodedIff(u.displayName);
    TextIsEncodedIff(u.description);
  }

  lemma {:induction false} ItemsAreEncodedIff<T>(enc: Encoder<T>, xs: seq<T>)
    ensures EncItems(enc, xs).ok <==> forall x | x in xs :: enc(x).ok
  {
    if xs != [] {
      ItemsAreEncodedIff(enc, xs[1..]);
      assert xs == [xs[0]] + xs[1..];
    }
  }

  /** An array is encoded exactly if its count fits a qint32 and each of its elements is encoded. */
  lemma ArrayIsEncodedIff<T>(enc: Encoder<T>, xs: seq<T>)
    ensures EncArray(enc, xs).ok <==> |xs| <= 0x7FFF_FFFF && forall x | x in xs :: enc(x).ok
  {
    ItemsAreEncodedIff(enc, xs);
  }

  lemma AxisIsEncodedIff(a: AxisInformation)
    ensures EncAxisInformation(a).ok <==> EncodableAxis(a)
  {
    hide EncEUInformation, EncLocalizedText, EncArray;
    UnitsAreEncodedIff(a.engineeringUnits);
    TextIsEncodedIff(a.title);
    ArrayIsEncodedIff(EncU64, a.axisSteps);
  }

  lemma NodeIdIsEncodedIff(n: NodeId)
    ensures EncNodeId(n).ok <==> EncodableNodeId(n)
  {
  }

  lemma PartIsEncodedIff(s: QString)
    ensures EncPart(s).ok <==> EncodableString(s)
  {
  }

  lemma ExpandedIsEncodedIff(x: ExpandedNodeId)
    ensures EncExpandedNodeId(x).ok <==> EncodableExpanded(x)
  {
    hide EncNodeId, EncPart;
    NodeIdIsEncodedIff(x.nodeId);
    PartIsEncodedIff(x.namespaceUri);
  }

  lemma ObjectIsEncodedIff(x: ExtensionObject)
    ensures EncExtensionObject(x).ok <==> EncodableObject(x)
  {
    hide EncNodeId, EncByteString;
    NodeIdIsEncodedIff(x.typeId);
    ByteStringIsEncodedIff(x.body);
  }

  lemma ArgumentIsEncodedIff(a: Argument)
    ensures EncArgument(a).ok <==> EncodableArgument(a)
  {
    hide EncString, EncNodeId, EncArray, EncLocalizedText;
    StringIsEncodedIff(a.name);
    NodeIdIsEncodedIff(a.dataTypeId);
    ArrayIsEncodedIff(EncU32, a.arrayDimensions);
    TextIsEncodedIff(a.description);
  }

  lemma RecordIsEncodedIff(a: ApplicationRecord)
    ensures EncApplicationRecord(a).ok <==> EncodableRecord(a)
  {
    NodeIdIsEncodedIff(a.applicationId);
    StringIsEncodedIff(a.applicationUri);
    StringIsEncodedIff(a.productUri);
    ArrayIsEncodedIff(EncLocalizedText, a.applicationNames);
    ArrayIsEncodedIff(EncString, a.discoveryUrls);
    ArrayIsEncodedIff(EncString, a.serverCapabilities);
    forall t
      ensures EncLocalizedText(t).ok <==> EncodableText(t)
    {
      TextIsEncodedIff(t);
    }
    forall s
      ensures EncString(s).ok <==> EncodableString(s)
    {
      StringIsEncodedIff(s);
    }
    hide EncString, EncNodeId, EncArray, EncLocalizedText, EncodableString, EncodableText, EncodableNodeId;
  }

  // ---------------------------------------------------------------- the encoders write these forms

  lemma WordsAreForms(v: u64)
    ensures v < 0x1_0000 ==> ToLittleEndian(2, v) == Half(v)
    ensures v < 0x1_0000_0000 ==> ToLittleEndian(4, v) == Word(v)
    ensures ToLittleEndian(8, v) == Long(v)
  {
    if v < 0x1_0000 {
      TwoBytes(v);
    }
    if v < 0x1_0000_0000 {
      FourBytes(v);
    }
    LongIsForm(v);
  }

  lemma {:induction false} ValueOfConcat(a: bytes, b: bytes)
    ensures FromLittleEndian(a + b) == FromLittleEndian(a) + Pow256(|a|) * FromLittleEndian(b)
  {
    if a == [] {
      assert a + b == b;
    } else {
      ValueOfConcat(a[1..], b);
      assert (a + b)[1..] == a[1..] + b;
      Distributed(FromLittleEndian(a[1..]), Pow256(|a| - 1), FromLittleEndian(b));
    }
  }

  lemma Distributed(x: nat, p: nat, y: nat)
    ensures 256 * (x + p * y) == 256 * x + (256 * p) * y
  {
  }

  lemma ValueOfWord(v: u32)
    ensures ToLittleEndian(4, v) == Word(v) && FromLittleEndian(Word(v)) == v
  {
    FourBytes(v);
    Widths();
    WordRoundTrip(4, v);
  }

  lemma LongIsForm(v: u64)
    ensures ToLittleEndian(8, v) == Long(v)
  {
    hide ToLittleEndian, FromLittleEndian, Word, Pow256;
    ValueOfWord(v % 0x1_0000_0000);
    ValueOfWord(v / 0x1_0000_0000);
    Widths();
    ValueOfConcat(Word(v % 0x1_0000_0000), Word(v / 0x1_0000_0000));
    BytesRoundTrip(Long(v));
  }

  lemma SignedWordIsForm(i: i32)
    ensures EncI32(i) == Written(Word(if i < 0 then i + 0x1_0000_0000 else i), true)
  {
    WordsAreForms(AsUnsigned32(i));
    hide ToLittleEndian, Word;
  }

  lemma StringIsWritten(s: QString)
    ensures EncodableString(s) && StringSized(s) ==> EncString(s).bytes == StringForm(s)
  {
    NarrowFits(|Content(s)|);
    SignedWordIsForm(-1);
    if StringSized(s) {
      SignedWordIsForm(|Content(s)|);
    }
    hide EncI32, Utf16Size, Narrow32;
  }

  lemma ByteStringIsWritten(b: ByteArray)
    ensures |Content(b)| <= 0x7FFF_FFFF ==> EncByteString(b).bytes == ByteStringForm(b)
  {
    SignedWordIsForm(-1);
    if |Content(b)| <= 0x7FFF_FFFF {
      SignedWordIsForm(|Content(b)|);
    }
    hide EncI32;
  }

  lemma QualifiedNameIsWritten(q: QualifiedName)
    ensures EncodableString(q.name) && QualifiedNameSized(q) ==> EncQualifiedName(q).bytes == QualifiedNameForm(q)
  {
    hide EncString, StringForm, ToLittleEndian;
    StringIsWritten(q.name);
    WordsAreForms(q.namespaceIndex);
  }

  lemma TextIsWritten(t: LocalizedText)
    ensures EncodableText(t) && TextSized(t) ==> EncLocalizedText(t).bytes == TextForm(t)
  {
    OneByte(TextMask(t));
    hide EncString, StringForm, ToLittleEndian;
    StringIsWritten(t.locale);
    StringIsWritten(t.text);
    StringIsEncodedIff(t.locale);
    StringIsEncodedIff(t.text);
  }

  lemma UnitsAreWritten(u: EUInformation)
    ensures EncodableUnits(u) && UnitsSized(u) ==> EncEUInformation(u).bytes == UnitsForm(u)
  {
    SignedWordIsForm(u.unitId);
    UnitsAreEncodedIff(u);
    hide EncI32, EncString, StringForm, EncLocalizedText, TextForm, ToLittleEndian, Word, EncodableUnits;
    StringIsWritten(u.namespaceUri);
    TextIsWritten(u.displayName);
    TextIsWritten(u.description);
    StringIsEncodedIff(u.namespaceUri);
    TextIsEncodedIff(u.displayName);
    TextIsEncodedIff(u.description);
  }

  lemma RangeIsWritten(r: Range)
    ensures EncRange(r).bytes == RangeForm(r)
  {
    WordsAreForms(r.low);
    WordsAreForms(r.high);
    hide ToLittleEndian, Long;
  }

  lemma {:induction false} ItemsAreWritten<T>(enc: Encoder<T>, form: T --> bytes, xs: seq<T>)
    requires forall x | x in xs :: form.requires(x) && enc(x) == Written(form(x), true)
    ensures EncItems(enc, xs) == Written(ItemsForm(form, xs), true)
  {
    if xs != [] {
      ItemsAreWritten(enc, form, xs[1..]);
    }
  }

  lemma ArrayIsWritten<T>(enc: Encoder<T>, form: T --> bytes, xs: seq<T>)
    requires |xs| <= 0x7FFF_FFFF && forall x | x in xs :: form.requires(x) && enc(x) == Written(form(x), true)
    ensures EncArray(enc, xs) == Written(ArrayForm(form, xs), true)
  {
    WordsAreForms(|xs|);
    ItemsAreWritten(enc, form, xs);
    hide ToLittleEndian;
  }

  lemma DoublesAreWritten(xs: seq<Double>)
    ensures |xs| <= 0x7FFF_FFFF ==> EncArray(EncU64, xs) == Written(ArrayForm(Long, xs), true)
  {
    forall x: u64
      ensures EncU64(x) == Written(Long(x), true)
    {
      WordsAreForms(x);
    }
    hide ArrayForm, EncArray;
    if |xs| <= 0x7FFF_FFFF {
      ArrayIsWritten(EncU64, Long, xs);
    }
  }

  lemma DimensionsAreWritten(xs: seq<u32>)
    ensures |xs| <= 0x7FFF_FFFF ==> EncArray(EncU32, xs) == Written(ArrayForm(Word, xs), true)
  {
    forall x: u32
      ensures EncU32(x) == Written(Word(x), true)
    {
      WordsAreForms(x);
    }
    hide ArrayForm, EncArray;
    if |xs| <= 0x7FFF_FFFF {
      ArrayIsWritten(EncU32, Word, xs);
    }
  }

  lemma AxisIsWritten(a: AxisInformation)
    ensures EncodableAxis(a) && AxisSized(a) ==> EncAxisInformation(a).bytes == AxisForm(a)
  {
    WordsAreForms(a.axisScaleType);
    AxisIsEncodedIff(a);
    hide EncEUInformation, UnitsForm, EncRange, RangeForm, EncLocalizedText, TextForm, EncArray, ArrayForm, ToLittleEndian, Word;
    UnitsAreWritten(a.engineeringUnits);
    RangeIsWritten(a.range);
    TextIsWritten(a.title);
    DoublesAreWritten(a.axisSteps);
  }

  lemma GuidIsWritten(g: Guid)
    ensures EncGuid(g).bytes == GuidForm(g)
  {
    WordsAreForms(g.data1);
    WordsAreForms(g.data2);
    WordsAreForms(g.data3);
    hide ToLittleEndian, Word, Half;
  }

  /** A form that is not numeric, with two bytes for the namespace. */
  lemma OtherIdIsWritten(n: NodeId)
    requires EncodableNodeId(n) && NodeIdSized(n) && !n.id.Numeric?
    ensures
      var id := EncIdentifier(FormByte(n), n.id);
      EncNodeId(n).bytes == [FormByte(n)] + Half(n.ns) + id.bytes
  {
    OneByte(FormByte(n));
    WordsAreForms(n.ns);
    assert EncIdentifier(FormByte(n), n.id).ok;
    hide ToLittleEndian, EncIdentifier, Half, EncodableNodeId, NodeIdSized;
  }

  lemma IdentifierIsWritten(n: NodeId)
    requires EncodableNodeId(n) && NodeIdSized(n) && !n.id.Numeric?
    ensures [FormByte(n)] + Half(n.ns) + EncIdentifier(FormByte(n), n.id).bytes == NodeIdForm(n, 0)
  {
    hide Half, Word, EncString, EncGuid, EncByteString, GuidForm, Utf16Size;
    match n.id
    case Text(utf8) => StringIsWritten(Some(utf8));
    case Unique(guid) => GuidIsWritten(guid);
    case Opaque(data) => ByteStringIsWritten(Some(data));
  }

  lemma NodeIdIsWritten(n: NodeId)
    ensures EncodableNodeId(n) && NodeIdSized(n) ==> EncNodeId(n).bytes == NodeIdForm(n, 0)
  {
    if EncodableNodeId(n) && NodeIdSized(n) {
      if n.id.Numeric? {
        NumericWireForms(n.ns, n.id.value);
        hide EncNodeId;
      } else {
        OtherIdIsWritten(n);
        IdentifierIsWritten(n);
        hide EncNodeId, NodeIdForm;
      }
    }
  }

  lemma FlagsAreAdded(form: byte, hasUri: bool, hasServer: bool)
    requires form < 6
    ensures FlaggedForm(form, hasUri, hasServer) == form + (if hasUri then 0x80 else 0) + (if hasServer then 0x40 else 0)
  {
  }

  lemma FlagsAreInTheFirstByte(n: NodeId, flags: byte)
    requires NodeIdSized(n) && EncodableNodeId(n) && flags in {0x00, 0x40, 0x80, 0xC0}
    ensures NodeIdForm(n, 0)[0] < 6
    ensures NodeIdForm(n, flags) == [NodeIdForm(n, 0)[0] + flags] + NodeIdForm(n, 0)[1..]
  {
    hide GuidForm, Word, Utf16Size;
  }

  lemma TailIsWritten(x: ExpandedNodeId)
    requires StringSized(x.namespaceUri) && EncodableString(x.namespaceUri)
    ensures EncPart(x.namespaceUri) == Written(if Content(x.namespaceUri) != [] then StringForm(x.namespaceUri) else [], true)
    ensures EncServerIndex(x.serverIndex) == Written(if x.serverIndex != 0 then Word(x.serverIndex) else [], true)
  {
    StringIsEncodedIff(x.namespaceUri);
    StringIsWritten(x.namespaceUri);
    WordsAreForms(x.serverIndex);
    hide EncString, StringForm, ToLittleEndian, Word;
  }

  lemma ExpandedIsWritten(x: ExpandedNodeId)
    ensures EncodableExpanded(x) && ExpandedSized(x) ==> EncExpandedNodeId(x).bytes == ExpandedForm(x)
  {
    if EncodableExpanded(x) && ExpandedSized(x) {
      var hasUri, hasServer := Content(x.namespaceUri) != [], x.serverIndex != 0;
      NodeIdIsWritten(x.nodeId);
      NodeIdIsEncodedIff(x.nodeId);
      TailIsWritten(x);
      hide EncPart, EncServerIndex;
      FlagsAreInTheFirstByte(x.nodeId, (if hasUri then 0x80 else 0) + (if hasServer then 0x40 else 0));
      FlagsAreAdded(NodeIdForm(x.nodeId, 0)[0], hasUri, hasServer);
      hide EncNodeId, NodeIdForm, EncString, StringForm, ToLittleEndian, FlaggedForm, Word;
    }
  }

  lemma ObjectIsWritten(x: ExtensionObject)
    ensures EncodableObject(x) && ObjectSized(x) ==> EncExtensionObject(x).bytes == ObjectForm(x)
  {
    OneByte(EncodingByte(x.encoding));
    NodeIdIsWritten(x.typeId);
    NodeIdIsEncodedIff(x.typeId);
    ByteStringIsWritten(x.body);
    hide EncNodeId, NodeIdForm, EncByteString, ByteStringForm, ToLittleEndian, EncodableNodeId;
  }

  lemma ArgumentIsWritten(a: Argument)
    ensures EncodableArgument(a) && ArgumentSized(a) ==> EncArgument(a).bytes == ArgumentForm(a)
  {
    SignedWordIsForm(a.valueRank);
    ArgumentIsEncodedIff(a);
    hide EncI32, EncString, StringForm, EncNodeId, NodeIdForm, EncArray, ArrayForm, EncLocalizedText, TextForm, ToLittleEndian, Word;
    StringIsWritten(a.name);
    StringIsEncodedIff(a.name);
    NodeIdIsWritten(a.dataTypeId);
    NodeIdIsEncodedIff(a.dataTypeId);
    DimensionsAreWritten(a.arrayDimensions);
    TextIsWritten(a.description);
  }

  lemma NamesAreWritten(xs: seq<LocalizedText>)
    requires |xs| <= 0x7FFF_FFFF && forall t | t in xs :: EncodableText(t) && TextSized(t)
    ensures EncArray(EncLocalizedText, xs) == Written(ArrayForm(TextForm, xs), true)
  {
    forall t | t in xs
      ensures EncLocalizedText(t) == Written(TextForm(t), true)
    {
      TextIsWritten(t);
      TextIsEncodedIff(t);
    }
    hide EncLocalizedText, EncArray, ArrayForm;
    ArrayIsWritten(EncLocalizedText, TextForm, xs);
  }

  lemma StringsAreWritten(xs: seq<QString>)
    requires |xs| <= 0x7FFF_FFFF && forall s | s in xs :: EncodableString(s) && StringSized(s)
    ensures EncArray(EncString, xs) == Written(ArrayForm(StringForm, xs), true)
  {
    forall s | s in xs
      ensures EncString(s) == Written(StringForm(s), true)
    {
      StringIsWritten(s);
      StringIsEncodedIff(s);
    }
    hide EncString, EncArray, ArrayForm;
    ArrayIsWritten(EncString, StringForm, xs);
  }

  lemma RecordIsWritten(a: ApplicationRecord)
    ensures EncodableRecord(a) && RecordSized(a) ==> EncApplicationRecord(a).bytes == RecordForm(a)
  {
    if EncodableRecord(a) && RecordSized(a) {
      WordsAreForms(a.applicationType);
      RecordIsEncodedIff(a);
      NodeIdIsWritten(a.applicationId);
      NodeIdIsEncodedIff(a.applicationId);
      StringIsWritten(a.applicationUri);
      StringIsEncodedIff(a.applicationUri);
      NamesAreWritten(a.applicationNames);
      StringIsWritten(a.productUri);
      StringIsEncodedIff(a.productUri);
      StringsAreWritten(a.discoveryUrls);
      StringsAreWritten(a.serverCapabilities);
      hide EncString, StringForm, EncNodeId, NodeIdForm, EncArray, ArrayForm, ToLittleEndian, Word;
      hide EncodableRecord, RecordSized;
    }
  }

  // ---------------------------------------------------------------- the examples of the standard

  /** The examples of sections 5.2.2.4, 5.2.2.6 and 5.2.2.9 of OPC UA Part 6, and one value of each other form. */
  lemma PublishedStrings()
    ensures StringForm(Some([0xE6, 0xB0, 0xB4, 0x42, 0x6F, 0x79])) == [6, 0, 0, 0, 0xE6, 0xB0, 0xB4, 0x42, 0x6F, 0x79]
    ensures GuidForm(Guid(0x72962B91, 0xFA75, 0x4AE6, [0x8D, 0x28, 0xB4, 0x04, 0xDC, 0x7D, 0xAF, 0x63])) ==
            [0x91, 0x2B, 0x96, 0x72, 0x75, 0xFA, 0xE6, 0x4A, 0x8D, 0x28, 0xB4, 0x04, 0xDC, 0x7D, 0xAF, 0x63]
  {
  }

  lemma PublishedNodeIds()
    ensures EncNodeId(NodeId(0, Numeric(72))).bytes == [0x00, 0x48]
    ensures EncNodeId(NodeId(5, Numeric(1025))).bytes == [0x01, 0x05, 0x01, 0x04]
  {
    NumericWireForms(0, 72);
    NumericWireForms(5, 1025);
    hide EncNodeId;
  }

  lemma TextIdForm(ns: u16, t: bytes)
    requires 1 <= |t| < 256 && SEMICOLON !in t
    ensures EncNodeId(NodeId(ns, Text(t))).bytes == [0x03, ns % 256, ns / 256, |t|, 0, 0, 0] + t
  {
    SizeIsSmall(t);
    hide EncNodeId, Utf16Size;
    NodeIdIsWritten(NodeId(ns, Text(t)));
  }

  lemma {:induction false} SizeIsSmall(s: bytes)
    ensures Utf16Size(s) <= 2 * |s|
  {
    if s != [] {
      SizeIsSmall(s[1..]);
    }
  }

  /** One small value of each structure, with members that tell the order apart. */
  lemma SampleForms()
    ensures RangeForm(Range(1, 2)) == [1, 0, 0, 0, 0, 0, 0, 0, 2, 0, 0, 0, 0, 0, 0, 0]
    ensures ByteStringForm(Some([7, 8])) == [2, 0, 0, 0, 7, 8]
  {
  }

  lemma SampleNames()
    ensures QualifiedNameForm(QualifiedName(2, Some([0x6E]))) == [2, 0, 1, 0, 0, 0, 0x6E]
    ensures TextForm(LocalizedText(Some([0x65]), Some([0x74]))) == [3, 1, 0, 0, 0, 0x65, 1, 0, 0, 0, 0x74]
  {
  }

  lemma SampleUnits()
    ensures UnitsForm(EUInformation(None, -2, LocalizedText(None, Some([0x74])), LocalizedText(None, None))) ==
            [0xFF, 0xFF, 0xFF, 0xFF, 0xFE, 0xFF, 0xFF, 0xFF, 2, 1, 0, 0, 0, 0x74, 0]
  {
  }

  lemma SampleObject()
    ensures ObjectForm(ExtensionObject(NodeId(0, Numeric(72)), Xml, Some([7, 8]))) == [0, 72, 2, 2, 0, 0, 0, 7, 8]
    ensures ObjectForm(ExtensionObject(NodeId(0, Numeric(72)), ByteString, None)) == [0, 72, 1, 0xFF, 0xFF, 0xFF, 0xFF]
    ensures ObjectForm(ExtensionObject(NodeId(0, Numeric(72)), NoBody, None)) == [0, 72, 0]
  {
  }

  // ---------------------------------------------------------------- what the decoders accept

  /** The number four bytes stand for. */
  function Announced(m: bytes, o: nat): int
    requires o + 4 <= |m|
  {
    var v := m[o] as int + 256 * m[o + 1] as int + 65536 * m[o + 2] as int + 16777216 * m[o + 3] as int;
    if v >= 0x8000_0000 then v - 0x1_0000_0000 else v
  }

  lemma ValueOfTwo(b: bytes)
    requires |b| >= 2
    ensures FromLittleEndian(b) == b[0] as int + 256 * (b[1] as int + 256 * FromLittleEndian(b[2..]))
  {
    assert FromLittleEndian(b[1..]) == b[1..][0] as int + 256 * FromLittleEndian(b[1..][1..]);
    assert b[1..][1..] == b[2..];
  }

  lemma ValueOfBytes(m: bytes, o: nat, w: nat)
    requires o + w <= |m|
    ensures w == 1 ==> DecU8(Some(m), o) == Got(m[o], o + 1)
    ensures w == 2 ==> DecU16(Some(m), o) == Got(m[o] as int + 256 * m[o + 1] as int, o + 2)
    ensures w == 4 ==> DecU32(Some(m), o) == Got(m[o] as int + 256 * m[o + 1] as int
                                                 + 65536 * m[o + 2] as int + 16777216 * m[o + 3] as int, o + 4)
  {
    var b := m[o..o + w];
    if w == 1 {
      assert b == [m[o]] && b[1..] == [];
    } else if w == 2 {
      ValueOfTwo(b);
      assert b[2..] == [];
      hide FromLittleEndian;
      assert FromLittleEndian([]) == 0 by { NoBytes(); }
    } else if w == 4 {
      ValueOfTwo(b);
      ValueOfTwo(b[2..]);
      assert b[2..][2..] == [];
      hide FromLittleEndian;
      assert FromLittleEndian([]) == 0 by { NoBytes(); }
    }
  }

  lemma NoBytes()
    ensures FromLittleEndian([]) == 0
  {
  }

  lemma AnnouncedIsRead(m: bytes, o: nat)
    ensures o + 4 <= |m| ==> DecI32(Some(m), o) == Got(Announced(m, o), o + 4)
  {
    if o + 4 <= |m| {
      ValueOfBytes(m, o, 4);
    }
    hide DecU32;
  }

  /** A string: an absent length is zero, -1 is the null string, and every other negative length is refused. */
  lemma StringIsAcceptedIff(m: bytes, o: nat)
    ensures
      var r := DecString(Some(m), o);
      if o + 4 > |m| then r == Got(Some([]), o)
      else
        var n := Announced(m, o);
        if n == -1 then r == Got(None, o + 4)
        else if 0 <= n && o + 4 + n <= |m| then r == Got(Some(FromUtf8(m[o + 4..o + 4 + n])), o + 4 + n)
        else r == Failed(o + 4)
  {
    AnnouncedIsRead(m, o);
    hide DecI32, FromUtf8, Announced;
    assert FromUtf8([]) == [] by { MarkIsLong(); }
    assert o + 4 <= |m| ==> m[o + 4..o + 4] == [];
  }

  lemma MarkIsLong()
    ensures FromUtf8([]) == []
  {
  }

  /** A byte string: an absent length is refused. */
  lemma ByteStringIsAcceptedIff(m: bytes, o: nat)
    ensures
      var r := DecByteString(Some(m), o);
      if o + 4 > |m| then r == Failed(o)
      else
        var n := Announced(m, o);
        if n == -1 then r == Got(None, o + 4)
        else if 0 <= n && o + 4 + n <= |m| then r == Got(Some(m[o + 4..o + 4 + n]), o + 4 + n)
        else r == Failed(o + 4)
  {
    AnnouncedIsRead(m, o);
    hide DecI32, Announced;
    assert o + 4 <= |m| ==> m[o + 4..o + 4] == [];
  }

  /** An array: a negative count is an empty list. */
  lemma EmptyCounts<T>(dec: Decoder<T>, m: bytes, o: nat)
    ensures o + 4 <= |m| && Announced(m, o) <= 0 ==> DecArray(dec, Some(m), o) == Got([], o + 4)
    ensures o + 4 > |m| ==> DecArray(dec, Some(m), o) == Failed(o)
  {
    AnnouncedIsRead(m, o);
  }

  /** A guid: its first three parts are numbers, the last one is taken as it is. */
  lemma GuidIsAcceptedIff(m: bytes, o: nat)
    ensures
      var r := DecGuid(Some(m), o);
      if o + 16 > |m| then r == Failed(o)
      else
        && r.Got? && r.next == o + 16
        && GuidForm(r.value) == m[o..o + 16]
  {
    if o + 16 <= |m| {
      var g := DecGuid(Some(m), o).value;
      BytesRoundTrip(m[o..o + 4]);
      BytesRoundTrip(m[o + 4..o + 6]);
      BytesRoundTrip(m[o + 6..o + 8]);
      WordsAreForms(g.data1);
      WordsAreForms(g.data2);
      WordsAreForms(g.data3);
      hide ToLittleEndian, FromLittleEndian, Word, Half;
      assert m[o..o + 4] + m[o + 4..o + 6] + m[o + 6..o + 8] + m[o + 8..o + 16] == m[o..o + 16];
    }
  }

  /** A node id: every byte string of one of the six forms is accepted, whatever the two high bits of the first byte are. */
  lemma NodeIdIsAcceptedIff(m: bytes, o: nat)
    requires o < |m|
    ensures
      var r := DecNodeId(Some(m), o);
      var left := |m| - o;
      match m[o] % 64
      case 0 => if left >= 2 then r == Got(NodeId(0, Numeric(m[o + 1])), o + 2) else r.Failed?
      case 1 =>
        if left < 4 then r.Failed?
        else r == Got(NodeId(m[o + 1], Numeric(m[o + 2] as int + 256 * m[o + 3] as int)), o + 4)
      case form =>
        if left < 3 || form > 5 then r.Failed?
        else
          var ns := m[o + 1] as int + 256 * m[o + 2] as int;
          var (word, text) := (DecU32(Some(m), o + 3), DecString(Some(m), o + 3));
          var (guid, data) := (DecGuid(Some(m), o + 3), DecByteString(Some(m), o + 3));
          match form
          case 2 => if word.Got? then r == Got(NodeId(ns, Numeric(word.value)), word.next) else r.Failed?
          case 3 => if text.Got? then r == Got(NodeId(ns, Text(Content(text.value))), text.next) else r.Failed?
          case 4 => if guid.Got? then r == Got(NodeId(ns, Unique(guid.value)), guid.next) else r.Failed?
          case _ => if data.Got? then r == Got(NodeId(ns, Opaque(Content(data.value))), data.next) else r.Failed?
  {
    ValueOfBytes(m, o, 1);
    if o + 2 <= |m| {
      ValueOfBytes(m, o + 1, 1);
    }
    if o + 3 <= |m| {
      ValueOfBytes(m, o + 1, 2);
    }
    if o + 4 <= |m| {
      ValueOfBytes(m, o + 2, 2);
    }
    hide DecU8, DecU16, DecU32, DecString, DecGuid, DecByteString;
  }

  /** A localized text: six bits of the mask mean nothing. */
  lemma MaskIsReadModuloFour(mask: byte, rest: bytes)
    ensures DecLocalizedText(Some([mask] + rest), 0) == DecLocalizedText(Some([mask % 4] + rest), 0)
  {
    var (m, n) := ([mask] + rest, [mask % 4] + rest);
    ValueOfBytes(m, 0, 1);
    ValueOfBytes(n, 0, 1);
    assert HasFlag(mask, 0x01) == HasFlag(mask % 4, 0x01) && HasFlag(mask, 0x02) == HasFlag(mask % 4, 0x02);
    hide DecU8, HasFlag;
    LaterParts(HasFlag(mask, 0x01), m, n, 1);
    LaterParts(HasFlag(mask, 0x02), m, n, DecPart(HasFlag(mask, 0x01), Some(m), 1).next);
    hide DecPart;
  }

  lemma LaterParts(present: bool, m: bytes, n: bytes, o: nat)
    requires |m| == |n| && o >= 1 && forall i | 1 <= i < |m| :: m[i] == n[i]
    ensures DecPart(present, Some(m), o) == DecPart(present, Some(n), o) && DecPart(present, Some(m), o).next >= o
  {
    StringIsAcceptedIff(m, o);
    StringIsAcceptedIff(n, o);
    hide DecString, FromUtf8;
    if o + 4 <= |m| {
      assert Announced(m, o) == Announced(n, o);
      var len := Announced(m, o);
      if 0 <= len && o + 4 + len <= |m| {
        assert m[o + 4..o + 4 + len] == n[o + 4..o + 4 + len];
      }
    }
  }

  /** An extension object: a type id, one of three encodings, and a body for two of them. */
  lemma ObjectIsAcceptedIff(m: bytes, o: nat)
    ensures
      var r := DecExtensionObject(Some(m), o);
      var node := DecNodeId(Some(m), o);
      if node.Failed? || node.next >= |m| || m[node.next] > 2 then r.Failed?
      else if m[node.next] == 0 then r == Got(ExtensionObject(node.value, NoBody, None), node.next + 1)
      else
        var body := DecByteString(Some(m), node.next + 1);
        if body.Failed? then r.Failed?
        else r == Got(ExtensionObject(node.value, if m[node.next] == 1 then ByteString else Xml, body.value), body.next)
  {
    var node := DecNodeId(Some(m), o);
    if node.next < |m| {
      ValueOfBytes(m, node.next, 1);
    }
    hide DecNodeId, DecU8, DecByteString;
  }
}
