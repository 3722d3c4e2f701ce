/**
 The values carried by the OPC UA binary encoding and, for each of them, the bytes an encode
 appends and the outcome of a decode, as functions of the buffer and the offset.

 A buffer is absent when the encoding object was constructed from a null pointer.
 */
module Wire {
  import opened Wrappers
  import opened Bytes

  // ---------------------------------------------------------------- values

  type Buffer = Option<bytes>

  /** The UTF-8 form of a QString; a null string is not an empty one. */
  type QString = Option<bytes>

  /** A QByteArray; a null array is not an empty one. */
  type ByteArray = Option<bytes>

  type Octets = b: bytes | |b| == 8 witness [0, 0, 0, 0, 0, 0, 0, 0]

  datatype Guid = Guid(data1: u32, data2: u16, data3: u16, data4: Octets) {
    predicate IsNull() {
      data1 == 0 && data2 == 0 && data3 == 0 && data4 == [0, 0, 0, 0, 0, 0, 0, 0]
    }
  }

  datatype Identifier =
    | Numeric(value: nat)
    | Text(utf8: bytes)
    | Unique(guid: Guid)
    | Opaque(data: bytes)

  /** A node id string after splitting; Malformed when it cannot be split. */
  datatype NodeId = NodeId(ns: u16, id: Identifier) | Malformed

  datatype ExpandedNodeId = ExpandedNodeId(namespaceUri: QString, nodeId: NodeId, serverIndex: u32)
  datatype QualifiedName = QualifiedName(namespaceIndex: u16, name: QString)
  datatype LocalizedText = LocalizedText(locale: QString, text: QString)
  datatype EUInformation = EUInformation(namespaceUri: QString, unitId: i32,
                                         displayName: LocalizedText, description: LocalizedText)

  /** A double is carried as its 64-bit pattern. */
  type Double = u64

  datatype Range = Range(low: Double, high: Double)
  datatype AxisInformation = AxisInformation(engineeringUnits: EUInformation, range: Range, title: LocalizedText,
                                             axisScaleType: u32, axisSteps: seq<Double>)
  datatype Argument = Argument(name: QString, dataTypeId: NodeId, valueRank: i32,
                               arrayDimensions: seq<u32>, description: LocalizedText)

  datatype BodyEncoding = NoBody | ByteString | Xml

  datatype ExtensionObject = ExtensionObject(typeId: NodeId, encoding: BodyEncoding, body: ByteArray)

  datatype ApplicationRecord = ApplicationRecord(
    applicationId: NodeId, applicationUri: QString, applicationType: u32, applicationNames: seq<LocalizedText>,
    productUri: QString, discoveryUrls: seq<QString>, serverCapabilities: seq<QString>)

  // ---------------------------------------------------------------- outcomes

  /** What one encode call appends, and the bool it returns. */
  datatype Written = Written(bytes: bytes, ok: bool) {
    /** `next` is attempted only after success; what was appended before a failure stays. */
    function Then(next: Written): Written {
      if ok then Written(bytes + next.bytes, next.ok) else this
    }

    /** An encoder that works in a temporary buffer hands over everything or nothing. */
    function AllOrNothing(): Written {
      if ok then this else REFUSED
    }
  }

  const REFUSED := Written([], false)

  const NOTHING := Written([], true)

  /** The decoded value, if any, and the offset after the call. */
  datatype Read<+T> = Got(value: T, next: nat) | Failed(next: nat) {
    predicate IsFailure() {
      Failed?
    }

    function PropagateFailure<U>(): Read<U>
      requires Failed?
    {
      Failed(next)
    }

    function Extract(): (T, nat)
      requires Got?
    {
      (value, next)
    }
  }

  type Encoder<!T> = T -> Written
  type Decoder<+T> = (Buffer, nat) -> Read<T>

  function Size(m: Buffer): nat {
    if m.None? then 0 else |m.value|
  }

  predicate Enough(m: Buffer, o: nat, required: int) {
    m.Some? && |m.value| - o >= required
  }

  /** An offset never moves back and never moves beyond the end. */
  predicate Inside(m: Buffer, o: nat, next: nat) {
    o <= next && (o <= Size(m) ==> next <= Size(m))
  }

  // ---------------------------------------------------------------- integers

  function EncWord(w: nat, v: nat): Written {
    Written(ToLittleEndian(w, v), true)
  }

  function DecWord(w: nat, m: Buffer, o: nat): (r: Read<nat>)
    ensures Inside(m, o, r.next)
    ensures r.Got? <==> Enough(m, o, w)
    ensures r.next == (if r.Got? then o + w else o)
    ensures r.Got? ==> r.value < Pow256(w)
  {
    if Enough(m, o, w) then Got(FromLittleEndian(m.value[o..o + w]), o + w) else Failed(o)
  }

  function EncU8(v: byte): Written { EncWord(1, v) }

  function EncU16(v: u16): Written { EncWord(2, v) }

  function EncU32(v: u32): Written { EncWord(4, v) }

  function EncU64(v: u64): Written { EncWord(8, v) }

  function EncI32(v: i32): Written { EncU32(AsUnsigned32(v)) }

  function EncI64(v: i64): Written { EncU64(AsUnsigned64(v)) }

  function DecU8(m: Buffer, o: nat): (r: Read<byte>)
    ensures Inside(m, o, r.next) && (r.Got? <==> Enough(m, o, 1)) && r.next == (if r.Got? then o + 1 else o)
  {
    Widths();
    var (v, n) :- DecWord(1, m, o);
    Got(v, n)
  }

  function DecU16(m: Buffer, o: nat): (r: Read<u16>)
    ensures Inside(m, o, r.next) && (r.Got? <==> Enough(m, o, 2)) && r.next == (if r.Got? then o + 2 else o)
  {
    Widths();
    var (v, n) :- DecWord(2, m, o);
    Got(v, n)
  }

  function DecU32(m: Buffer, o: nat): (r: Read<u32>)
    ensures Inside(m, o, r.next) && (r.Got? <==> Enough(m, o, 4)) && r.next == (if r.Got? then o + 4 else o)
  {
    Widths();
    var (v, n) :- DecWord(4, m, o);
    Got(v, n)
  }

  function DecU64(m: Buffer, o: nat): (r: Read<u64>)
    ensures Inside(m, o, r.next) && (r.Got? <==> Enough(m, o, 8)) && r.next == (if r.Got? then o + 8 else o)
  {
    Widths();
    var (v, n) :- DecWord(8, m, o);
    Got(v, n)
  }

  function DecI32(m: Buffer, o: nat): (r: Read<i32>)
    ensures Inside(m, o, r.next) && (r.Got? <==> Enough(m, o, 4)) && r.next == (if r.Got? then o + 4 else o)
  {
    var (v, n) :- DecU32(m, o);
    Got(AsSigned32(v), n)
  }

  function DecI64(m: Buffer, o: nat): (r: Read<i64>)
    ensures Inside(m, o, r.next) && (r.Got? <==> Enough(m, o, 8)) && r.next == (if r.Got? then o + 8 else o)
  {
    var (v, n) :- DecU64(m, o);
    Got(AsSigned64(v), n)
  }

  // ---------------------------------------------------------------- strings

  /** QString::size() of the string: two units for a four-byte character, one for any other. */
  function Utf16Size(utf8: bytes): nat {
    if utf8 == [] then 0
    else (if utf8[0] >= 0xF0 then 2 else if 0x80 <= utf8[0] < 0xC0 then 0 else 1) + Utf16Size(utf8[1..])
  }

  function Content(s: Option<bytes>): bytes {
    s.GetOr([])
  }

  predicate Continues(b: byte) {
    0x80 <= b < 0xC0
  }

  /** How many bytes the first character takes, or zero if none of table 3-7 of the Unicode Standard is there. */
  function FirstLength(s: bytes): (n: nat)
    ensures n <= |s|
  {
    if |s| >= 1 && s[0] < 0x80 then 1
    else if |s| >= 2 && 0xC2 <= s[0] < 0xE0 && Continues(s[1]) then 2
    else if |s| >= 3 && 0xE0 <= s[0] < 0xF0 && Continues(s[1]) && Continues(s[2])
            && (s[0] == 0xE0 ==> s[1] >= 0xA0) && (s[0] == 0xED ==> s[1] < 0xA0) then 3
    else if |s| >= 4 && 0xF0 <= s[0] < 0xF5 && Continues(s[1]) && Continues(s[2]) && Continues(s[3])
            && (s[0] == 0xF0 ==> s[1] >= 0x90) && (s[0] == 0xF4 ==> s[1] < 0x90) then 4
    else 0
  }

  predicate WellFormed(s: bytes) {
    s == [] || (FirstLength(s) > 0 && WellFormed(s[FirstLength(s)..]))
  }

  /** The form of U+FEFF. */
  const BYTE_ORDER_MARK: bytes := [0xEF, 0xBB, 0xBF]

  /** QString::fromUtf8 on well-formed bytes: one byte order mark in front is dropped. */
  function FromUtf8(s: bytes): bytes {
    if BYTE_ORDER_MARK <= s then s[3..] else s
  }

  function EncString(s: QString): (w: Written)
    ensures !w.ok ==> w == REFUSED
  {
    if Utf16Size(Content(s)) > MAX_INT32 then REFUSED
    else EncI32(if s.None? then -1 else Narrow32(|s.value|)).Then(Written(Content(s), true))
  }

  /** A length word that cannot be read counts as length zero: the read succeeds as empty. */
  function DecString(m: Buffer, o: nat): (r: Read<QString>)
    ensures Inside(m, o, r.next)
  {
    if m.None? then Failed(o)
    else
      var l := DecI32(m, o);
      var length: i32 := if l.Got? then l.value else 0;
      if length > 0 then
        if Enough(m, l.next, length) then Got(Some(FromUtf8(m.value[l.next..l.next + length])), l.next + length)
        else Failed(l.next)
      else if length == 0 then Got(Some([]), l.next)
      else if length == -1 then Got(None, l.next)
      else Failed(l.next)
  }

  function EncByteString(b: ByteArray): (w: Written)
    ensures !w.ok ==> w == REFUSED
  {
    if |Content(b)| > MAX_INT32 then REFUSED
    else EncI32(if b.None? then -1 else |b.value|).Then(Written(if |Content(b)| > 1 then b.value else [], true))
  }

  function DecByteString(m: Buffer, o: nat): (r: Read<ByteArray>)
    ensures Inside(m, o, r.next)
  {
    var (size, o1) :- DecI32(m, o);
    if size > 0 && Enough(m, o1, size) then Got(Some(m.value[o1..o1 + size]), o1 + size)
    else if size == 0 then Got(Some([]), o1)
    else if size == -1 then Got(None, o1)
    else Failed(o1)
  }

  function EncQualifiedName(q: QualifiedName): Written {
    EncU16(q.namespaceIndex).Then(EncString(q.name))
  }

  function DecQualifiedName(m: Buffer, o: nat): (r: Read<QualifiedName>)
    ensures Inside(m, o, r.next)
  {
    var (ns, o1) :- DecU16(m, o);
    var (name, o2) :- DecString(m, o1);
    Got(QualifiedName(ns, name), o2)
  }

  function EncPart(s: QString): (w: Written)
    ensures !w.ok ==> w == REFUSED
  {
    if Content(s) == [] then NOTHING else EncString(s)
  }

  function TextMask(t: LocalizedText): (mask: byte)
    ensures HasFlag(mask, 0x01) <==> Content(t.locale) != []
    ensures HasFlag(mask, 0x02) <==> Content(t.text) != []
  {
    (if Content(t.locale) == [] then 0 else 1) + (if Content(t.text) == [] then 0 else 2)
  }

  function EncLocalizedText(t: LocalizedText): Written {
    EncU8(TextMask(t)).Then(EncPart(t.locale)).Then(EncPart(t.text))
  }

  function DecPart(present: bool, m: Buffer, o: nat): (r: Read<QString>)
    ensures Inside(m, o, r.next)
  {
    if present then DecString(m, o) else Got(None, o)
  }

  function DecLocalizedText(m: Buffer, o: nat): (r: Read<LocalizedText>)
    ensures Inside(m, o, r.next)
  {
    var (mask, o1) :- DecU8(m, o);
    var (locale, o2) :- DecPart(HasFlag(mask, 0x01), m, o1);
    var (text, o3) :- DecPart(HasFlag(mask, 0x02), m, o2);
    Got(LocalizedText(locale, text), o3)
  }

  // ---------------------------------------------------------------- arrays

  function EncItems<T>(enc: Encoder<T>, xs: seq<T>): Written {
    if xs == [] then NOTHING else enc(xs[0]).Then(EncItems(enc, xs[1..]))
  }

  function EncArray<T>(enc: Encoder<T>, xs: seq<T>): Written {
    if |xs| > MAX_INT32 then REFUSED else EncI32(|xs|).Then(EncItems(enc, xs))
  }

  function DecItems<T>(dec: Decoder<T>, count: nat, m: Buffer, o: nat): Read<seq<T>>
    decreases count
  {
    if count == 0 then Got([], o)
    else
      var (x, o1) :- dec(m, o);
      var (xs, o2) :- DecItems(dec, count - 1, m, o1);
      Got([x] + xs, o2)
  }

  /** A negative count reads as an empty list. */
  function DecArray<T>(dec: Decoder<T>, m: Buffer, o: nat): Read<seq<T>> {
    var (size, o1) :- DecI32(m, o);
    if size <= 0 then Got([], o1) else DecItems(dec, size, m, o1)
  }

  ghost predicate Safe<T>(dec: Decoder<T>) {
    forall m: Buffer, o: nat :: Inside(m, o, dec(m, o).next)
  }

  /** Offsets stay inside the buffer over a whole array. */
  lemma {:induction false} ItemsInside<T>(dec: Decoder<T>, count: nat, m: Buffer, o: nat)
    requires Safe(dec)
    ensures Inside(m, o, DecItems(dec, count, m, o).next)
    decreases count
  {
    if count == 0 {
    } else {
      var first := dec(m, o);
      assert Inside(m, o, first.next);
      if first.Got? {
        ItemsInside(dec, count - 1, m, first.next);
      }
    }
  }

  lemma ArrayInside<T>(dec: Decoder<T>, m: Buffer, o: nat)
    requires Safe(dec)
    ensures Inside(m, o, DecArray(dec, m, o).next)
  {
    var size := DecI32(m, o);
    if size.Got? && size.value > 0 {
      ItemsInside(dec, size.value, m, size.next);
    }
  }

  // ---------------------------------------------------------------- node ids

  function EncGuid(g: Guid): Written {
    EncU32(g.data1).Then(EncU16(g.data2)).Then(EncU16(g.data3)).Then(Written(g.data4, true))
  }

  function DecGuid(m: Buffer, o: nat): (r: Read<Guid>)
    ensures Inside(m, o, r.next)
    ensures r.Got? <==> Enough(m, o, 16)
    ensures r.next == (if r.Got? then o + 16 else o)
  {
    if !Enough(m, o, 16) then Failed(o)
    else Got(Guid(DecU32(m, o).value, DecU16(m, o + 4).value, DecU16(m, o + 6).value, m.value[o + 8..o + 16]), o + 16)
  }

  /** Section 5.2.2.9 of OPC UA Part 6: a numeric identifier takes the shortest form that has room for it. */
  function ChooseForm(ns: u16, id: Identifier): byte {
    match id
    case Numeric(value) =>
      if value <= 255 && ns == 0 then 0x00 else if value <= 65535 && ns <= 255 then 0x01 else 0x02
    case Text(_) => 0x03
    case Unique(_) => 0x04
    case Opaque(_) => 0x05
  }

  function EncNamespace(form: byte, ns: u16): Written {
    if form == 0x00 then NOTHING else if form == 0x01 then EncWord(1, ns) else EncU16(ns)
  }

  const SEMICOLON: byte := 0x3B

  /** A text with a semicolon would make a third part of the node id string, which is then not split. */
  function EncIdentifier(form: byte, id: Identifier): (w: Written)
    ensures !w.ok ==> w == REFUSED
    ensures w.ok ==> w.bytes != []
  {
    match id
    case Numeric(value) =>
      if value > 0xFFFF_FFFF then REFUSED else EncWord(if form == 0x00 then 1 else if form == 0x01 then 2 else 4, value)
    case Text(t) => if t == [] || SEMICOLON in t then REFUSED else EncString(Some(t))
    case Unique(g) => if g.IsNull() then REFUSED else EncGuid(g)
    case Opaque(b) => if b == [] then REFUSED else EncByteString(Some(b))
  }

  function EncNodeId(n: NodeId): (w: Written)
    ensures !w.ok ==> w == REFUSED
    ensures w.ok ==> |w.bytes| >= 2
  {
    match n
    case Malformed => REFUSED
    case NodeId(ns, id) =>
      var form := ChooseForm(ns, id);
      var identifier := EncIdentifier(form, id);
      if identifier.ok then EncU8(form).Then(EncNamespace(form, ns)).Then(identifier) else REFUSED
  }

  /** The form in the low six bits; the two high bits belong to ExpandedNodeId. */
  function DecNamespace(form: byte, m: Buffer, o: nat): (r: Read<u16>)
    ensures Inside(m, o, r.next)
  {
    if form == 0x00 then Got(0, o)
    else if form == 0x01 then
      var (ns, o1) :- DecU8(m, o);
      Got(ns, o1)
    else DecU16(m, o)
  }

  function DecIdentifier(form: byte, m: Buffer, o: nat): (r: Read<Identifier>)
    ensures Inside(m, o, r.next)
  {
    if form == 0x00 then
      var (i, n) :- DecU8(m, o);
      Got(Numeric(i), n)
    else if form == 0x01 then
      var (i, n) :- DecU16(m, o);
      Got(Numeric(i), n)
    else if form == 0x02 then
      var (i, n) :- DecU32(m, o);
      Got(Numeric(i), n)
    else if form == 0x03 then
      var (s, n) :- DecString(m, o);
      Got(Text(Content(s)), n)
    else if form == 0x04 then
      var (g, n) :- DecGuid(m, o);
      Got(Unique(g), n)
    else if form == 0x05 then
      var (b, n) :- DecByteString(m, o);
      Got(Opaque(Content(b)), n)
    else Failed(o)
  }

  function DecNodeId(m: Buffer, o: nat): (r: Read<NodeId>)
    ensures Inside(m, o, r.next)
  {
    var (first, o1) :- DecU8(m, o);
    var form := first % 0x40;
    var (ns, o2) :- DecNamespace(form, m, o1);
    var (id, o3) :- DecIdentifier(form, m, o2);
    Got(NodeId(ns, id), o3)
  }

  /** The first byte of the encoded node id with the flags of what follows. */
  function FlaggedForm(form: byte, hasUri: bool, hasServer: bool): byte {
    var withUri := if hasUri then SetFlag(form, 0x80) else form;
    if hasServer then SetFlag(withUri, 0x40) else withUri
  }

  function EncServerIndex(index: u32): Written {
    if index == 0 then NOTHING else EncU32(index)
  }

  function EncExpandedNodeId(x: ExpandedNodeId): (w: Written)
    ensures !w.ok ==> w == REFUSED
  {
    var node := EncNodeId(x.nodeId);
    if !node.ok then REFUSED
    else
      var form := FlaggedForm(node.bytes[0], Content(x.namespaceUri) != [], x.serverIndex != 0);
      Written([form] + node.bytes[1..], true).Then(EncPart(x.namespaceUri)).Then(EncServerIndex(x.serverIndex)).AllOrNothing()
  }

  function DecServerIndex(present: bool, m: Buffer, o: nat): (r: Read<u32>)
    ensures Inside(m, o, r.next)
  {
    if present then DecU32(m, o) else Got(0, o)
  }

  /** The flags are peeked from the byte the node id decoder reads again. */
  function DecExpandedNodeId(m: Buffer, o: nat): (r: Read<ExpandedNodeId>)
    ensures Inside(m, o, r.next)
  {
    if !Enough(m, o, 1) then Failed(o)
    else
      var first := m.value[o];
      var (nodeId, o1) :- DecNodeId(m, o);
      var (uri, o2) :- DecPart(HasFlag(first, 0x80), m, o1);
      var (server, o3) :- DecServerIndex(HasFlag(first, 0x40), m, o2);
      Got(ExpandedNodeId(uri, nodeId, server), o3)
  }

  // ---------------------------------------------------------------- structures

  function EncEUInformation(u: EUInformation): Written {
    EncString(u.namespaceUri).Then(EncI32(u.unitId)).Then(EncLocalizedText(u.displayName))
      .Then(EncLocalizedText(u.description))
  }

  function DecEUInformation(m: Buffer, o: nat): (r: Read<EUInformation>)
    ensures Inside(m, o, r.next)
  {
    var (uri, o1) :- DecString(m, o);
    var (unit, o2) :- DecI32(m, o1);
    var (name, o3) :- DecLocalizedText(m, o2);
    var (description, o4) :- DecLocalizedText(m, o3);
    Got(EUInformation(uri, unit, name, description), o4)
  }

  function EncRange(r: Range): Written {
    EncU64(r.low).Then(EncU64(r.high))
  }

  function DecRange(m: Buffer, o: nat): (r: Read<Range>)
    ensures Inside(m, o, r.next)
  {
    var (low, o1) :- DecU64(m, o);
    var (high, o2) :- DecU64(m, o1);
    Got(Range(low, high), o2)
  }

  function EncAxisInformation(a: AxisInformation): Written {
    EncEUInformation(a.engineeringUnits).Then(EncRange(a.range)).Then(EncLocalizedText(a.title))
      .Then(EncU32(a.axisScaleType)).Then(EncArray(EncU64, a.axisSteps))
  }

  function DecAxisInformation(m: Buffer, o: nat): (r: Read<AxisInformation>)
    ensures Inside(m, o, r.next)
  {
    var (units, o1) :- DecEUInformation(m, o);
    var (range, o2) :- DecRange(m, o1);
    var (title, o3) :- DecLocalizedText(m, o2);
    var (scale, o4) :- DecU32(m, o3);
    ArrayInside(DecU64, m, o4);
    var (steps, o5) :- DecArray(DecU64, m, o4);
    Got(AxisInformation(units, range, title, scale, steps), o5)
  }

  function EncArgument(a: Argument): (w: Written)
    ensures !w.ok ==> w == REFUSED
  {
    EncString(a.name).Then(EncNodeId(a.dataTypeId)).Then(EncI32(a.valueRank)).Then(EncArray(EncU32, a.arrayDimensions))
      .Then(EncLocalizedText(a.description)).AllOrNothing()
  }

  function DecArgument(m: Buffer, o: nat): (r: Read<Argument>)
    ensures Inside(m, o, r.next)
  {
    var (name, o1) :- DecString(m, o);
    var (dataType, o2) :- DecNodeId(m, o1);
    var (rank, o3) :- DecI32(m, o2);
    ArrayInside(DecU32, m, o3);
    var (dimensions, o4) :- DecArray(DecU32, m, o3);
    var (description, o5) :- DecLocalizedText(m, o4);
    Got(Argument(name, dataType, rank, dimensions, description), o5)
  }

  function EncodingByte(e: BodyEncoding): byte {
    match e
    case NoBody => 0
    case ByteString => 1
    case Xml => 2
  }

  function EncBody(e: BodyEncoding, body: ByteArray): Written {
    if e.NoBody? then NOTHING else EncByteString(body)
  }

  function EncExtensionObject(x: ExtensionObject): Written {
    EncNodeId(x.typeId).Then(EncU8(EncodingByte(x.encoding))).Then(EncBody(x.encoding, x.body))
  }

  function DecEncoding(m: Buffer, o: nat): (r: Read<BodyEncoding>)
    ensures Inside(m, o, r.next)
  {
    var (e, o1) :- DecU8(m, o);
    if e > 2 then Failed(o1) else Got(if e == 0 then NoBody else if e == 1 then ByteString else Xml, o1)
  }

  function DecBody(e: BodyEncoding, m: Buffer, o: nat): (r: Read<ByteArray>)
    ensures Inside(m, o, r.next)
  {
    if e.NoBody? then Got(None, o) else DecByteString(m, o)
  }

  function DecExtensionObject(m: Buffer, o: nat): (r: Read<ExtensionObject>)
    ensures Inside(m, o, r.next)
  {
    var (typeId, o1) :- DecNodeId(m, o);
    var (encoding, o2) :- DecEncoding(m, o1);
    var (body, o3) :- DecBody(encoding, m, o2);
    Got(ExtensionObject(typeId, encoding, body), o3)
  }

  function EncApplicationRecord(a: ApplicationRecord): Written {
    EncNodeId(a.applicationId).Then(EncString(a.applicationUri)).Then(EncU32(a.applicationType))
      .Then(EncArray(EncLocalizedText, a.applicationNames)).Then(EncString(a.productUri))
      .Then(EncArray(EncString, a.discoveryUrls)).Then(EncArray(EncString, a.serverCapabilities))
  }

  function DecApplicationRecord(m: Buffer, o: nat): (r: Read<ApplicationRecord>)
    ensures Inside(m, o, r.next)
  {
    var (id, o1) :- DecNodeId(m, o);
    var (uri, o2) :- DecString(m, o1);
    var (kind, o3) :- DecU32(m, o2);
    ArrayInside(DecLocalizedText, m, o3);
    var (names, o4) :- DecArray(DecLocalizedText, m, o3);
    var (product, o5) :- DecString(m, o4);
    ArrayInside(DecString, m, o5);
    var (urls, o6) :- DecArray(DecString, m, o5);
    ArrayInside(DecString, m, o6);
    var (capabilities, o7) :- DecArray(DecString, m, o6);
    Got(ApplicationRecord(id, uri, kind, names, product, urls, capabilities), o7)
  }
}
