/** The laws hold for strings, qualified names, localized texts, engineering units and axis information. */
module StructureCodecs {
  import opened Wrappers
  import opened Bytes
  import opened Wire
  import opened CodecLaws

  function Same<T>(x: T): T { x }

  predicate Always<T>(x: T) { true }

  // ---------------------------------------------------------------- integers

  const U32_CODEC: Codec<u32> := Codec(EncU32, DecU32, Same, Same, Always, Always, Always)

  const DOUBLE_CODEC: Codec<Double> := Codec(EncU64, DecU64, Same, Same, Always, Always, Always)

  lemma U8Restored(v: byte, m: Buffer, o: nat)
    ensures Sits(m, o, EncU8(v).bytes) ==> DecU8(m, o) == Got(v, o + 1)
  {
    Widths();
    WordRoundTrip(1, v);
  }

  lemma U16Restored(v: u16, m: Buffer, o: nat)
    ensures Sits(m, o, EncU16(v).bytes) ==> DecU16(m, o) == Got(v, o + 2)
  {
    Widths();
    WordRoundTrip(2, v);
  }

  lemma U32Restored(v: u32, m: Buffer, o: nat)
    ensures Sits(m, o, EncU32(v).bytes) ==> DecU32(m, o) == Got(v, o + 4)
  {
    Widths();
    WordRoundTrip(4, v);
  }

  lemma U64Restored(v: u64, m: Buffer, o: nat)
    ensures Sits(m, o, EncU64(v).bytes) ==> DecU64(m, o) == Got(v, o + 8)
  {
    Widths();
    WordRoundTrip(8, v);
  }

  lemma U32IsLawful()
    ensures Lawful(U32_CODEC)
  {
    forall x, m: Buffer, o: nat
      ensures RestoredAt(U32_CODEC, x, m, o)
    {
      U32Restored(x, m, o);
    }
    forall x, y, m: Buffer, o: nat
      ensures InjectiveAt(U32_CODEC, x, y, m, o)
    {
      U32Restored(x, m, o);
      U32Restored(y, m, o);
    }
  }

  lemma DoubleIsLawful()
    ensures Lawful(DOUBLE_CODEC)
  {
    forall x, m: Buffer, o: nat
      ensures RestoredAt(DOUBLE_CODEC, x, m, o)
    {
      U64Restored(x, m, o);
    }
    forall x, y, m: Buffer, o: nat
      ensures InjectiveAt(DOUBLE_CODEC, x, y, m, o)
    {
      U64Restored(x, m, o);
      U64Restored(y, m, o);
    }
  }

  lemma IntegersAreFixedWidth()
    ensures FixedWidth(DecU8, 1) && FixedWidth(DecU16, 2) && FixedWidth(DecU32, 4) && FixedWidth(DecU64, 8)
  {
    hide DecWord;
  }

  // ---------------------------------------------------------------- strings

  /** Its length has room in the length word. */
  predicate StringSized(s: QString) {
    |Content(s)| <= MAX_INT32
  }

  predicate StringFits(s: QString) {
    StringSized(s) && !(BYTE_ORDER_MARK <= Content(s))
  }

  function ReadString(s: QString): QString {
    if s.None? then None else Some(FromUtf8(s.value))
  }

  predicate StringUtf8(s: QString) {
    WellFormed(Content(s))
  }

  const STRING_CODEC: Codec<QString> :=
    Codec(EncString, DecString, Same, ReadString, StringSized, StringFits, StringUtf8)

  /** A length word and the body behind it. */
  lemma LengthThenContent(length: i32, body: bytes, m: Buffer, o: nat)
    ensures
      var w := EncI32(length).Then(Written(body, true));
      Sits(m, o, w.bytes) ==>
        && w.ok && |w.bytes| == 4 + |body|
        && DecI32(m, o) == Got(length, o + 4)
        && o + 4 + |body| <= |m.value| && m.value[o + 4..o + 4 + |body|] == body
  {
    var w := EncI32(length).Then(Written(body, true));
    if Sits(m, o, w.bytes) {
      SitsThen(m, o, EncI32(length), Written(body, true));
      LengthRestored(length, m, o);
    }
  }

  lemma StringRestored(s: QString, m: Buffer, o: nat)
    ensures RestoredAt(STRING_CODEC, s, m, o)
  {
    hide EncI32, DecI32, Utf16Size, Narrow32;
    if Holds(STRING_CODEC, s, m, o) {
      NarrowFits(|Content(s)|);
      LengthThenContent(if s.None? then -1 else |s.value|, Content(s), m, o);
    }
  }

  lemma StringInjective(s: QString, t: QString, m: Buffer, o: nat)
    ensures InjectiveAt(STRING_CODEC, s, t, m, o)
  {
    hide EncI32, DecI32, Utf16Size, Narrow32;
    if Holds(STRING_CODEC, s, m, o) && Holds(STRING_CODEC, t, m, o) {
      NarrowFits(|Content(s)|);
      NarrowFits(|Content(t)|);
      LengthThenContent(if s.None? then -1 else |s.value|, Content(s), m, o);
      LengthThenContent(if t.None? then -1 else |t.value|, Content(t), m, o);
    }
  }

  lemma StringThrifty(m: Buffer, o: nat)
    ensures Inside(m, o, DecString(m, o).next)
    ensures ThriftyAt(STRING_CODEC, m, o)
  {
  }

  lemma StringIsLawful()
    ensures Lawful(STRING_CODEC)
  {
    hide EncString, DecString;
    forall m: Buffer, o: nat
      ensures Inside(m, o, STRING_CODEC.dec(m, o).next) && ThriftyAt(STRING_CODEC, m, o)
    {
      StringThrifty(m, o);
    }
    forall s, m: Buffer, o: nat
      ensures RestoredAt(STRING_CODEC, s, m, o)
    {
      StringRestored(s, m, o);
    }
    forall s, t, m: Buffer, o: nat
      ensures InjectiveAt(STRING_CODEC, s, t, m, o)
    {
      StringInjective(s, t, m, o);
    }
  }

  /** A text that starts with U+FEFF is never restored: its reader takes that for a byte order mark. */
  lemma MarkIsLost(t: bytes, p: bytes, s: bytes)
    ensures
      var text := Some(BYTE_ORDER_MARK + t);
      var e := EncString(text);
      e.ok && |t| + 3 <= MAX_INT32 ==>
        DecString(Some(p + e.bytes + s), |p|) == Got(Some(t), |p| + |e.bytes|) && Some(t) != text
  {
    var text := BYTE_ORDER_MARK + t;
    var e := EncString(Some(text));
    if e.ok && |t| + 3 <= MAX_INT32 {
      NarrowFits(|text|);
      SitsInContext(p, e.bytes, s);
      LengthThenContent(|text|, text, Some(p + e.bytes + s), |p|);
      assert text[3..] == t;
      hide EncI32, DecI32, Utf16Size, Narrow32;
    }
  }

  // ---------------------------------------------------------------- qualified names

  predicate QualifiedNameSized(q: QualifiedName) {
    StringSized(q.name)
  }

  function ReadQualifiedName(q: QualifiedName): QualifiedName {
    q.(name := ReadString(q.name))
  }

  predicate QualifiedNameFits(q: QualifiedName) {
    StringFits(q.name)
  }

  predicate QualifiedNameUtf8(q: QualifiedName) {
    StringUtf8(q.name)
  }

  const QUALIFIED_NAME_CODEC: Codec<QualifiedName> :=
    Codec(EncQualifiedName, DecQualifiedName, Same, ReadQualifiedName,
          QualifiedNameSized, QualifiedNameFits, QualifiedNameUtf8)

  lemma QualifiedNameRestored(q: QualifiedName, m: Buffer, o: nat)
    ensures RestoredAt(QUALIFIED_NAME_CODEC, q, m, o)
  {
    hide EncString, DecString, DecU16;
    if Holds(QUALIFIED_NAME_CODEC, q, m, o) {
      SitsThen(m, o, EncU16(q.namespaceIndex), EncString(q.name));
      U16Restored(q.namespaceIndex, m, o);
      StringRestored(q.name, m, o + 2);
    }
  }

  lemma QualifiedNameInjective(q: QualifiedName, r: QualifiedName, m: Buffer, o: nat)
    ensures InjectiveAt(QUALIFIED_NAME_CODEC, q, r, m, o)
  {
    hide EncString, DecU16;
    if Holds(QUALIFIED_NAME_CODEC, q, m, o) && Holds(QUALIFIED_NAME_CODEC, r, m, o) {
      SitsThen(m, o, EncU16(q.namespaceIndex), EncString(q.name));
      SitsThen(m, o, EncU16(r.namespaceIndex), EncString(r.name));
      U16Restored(q.namespaceIndex, m, o);
      U16Restored(r.namespaceIndex, m, o);
      StringInjective(q.name, r.name, m, o + 2);
    }
  }

  lemma QualifiedNameThrifty(m: Buffer, o: nat)
    ensures Inside(m, o, DecQualifiedName(m, o).next)
    ensures ThriftyAt(QUALIFIED_NAME_CODEC, m, o)
  {
    hide EncString, DecString;
    StringThrifty(m, DecU16(m, o).next);
  }

  lemma QualifiedNameIsLawful()
    ensures Lawful(QUALIFIED_NAME_CODEC)
  {
    hide EncQualifiedName, DecQualifiedName;
    forall m: Buffer, o: nat
      ensures Inside(m, o, QUALIFIED_NAME_CODEC.dec(m, o).next) && ThriftyAt(QUALIFIED_NAME_CODEC, m, o)
    {
      QualifiedNameThrifty(m, o);
    }
    forall q, m: Buffer, o: nat
      ensures RestoredAt(QUALIFIED_NAME_CODEC, q, m, o)
    {
      QualifiedNameRestored(q, m, o);
    }
    forall q, r, m: Buffer, o: nat
      ensures InjectiveAt(QUALIFIED_NAME_CODEC, q, r, m, o)
    {
      QualifiedNameInjective(q, r, m, o);
    }
  }

  // ---------------------------------------------------------------- localized texts

  /** An empty part is not written and comes back null. */
  function NormPart(s: QString): QString {
    if Content(s) == [] then None else s
  }

  function NormText(t: LocalizedText): LocalizedText {
    LocalizedText(NormPart(t.locale), NormPart(t.text))
  }

  function ReadPart(s: QString): QString {
    if Content(s) == [] then None else ReadString(s)
  }

  function ReadText(t: LocalizedText): LocalizedText {
    LocalizedText(ReadPart(t.locale), ReadPart(t.text))
  }

  predicate TextSized(t: LocalizedText) {
    StringSized(t.locale) && StringSized(t.text)
  }

  predicate TextFits(t: LocalizedText) {
    StringFits(t.locale) && StringFits(t.text)
  }

  predicate TextUtf8(t: LocalizedText) {
    StringUtf8(t.locale) && StringUtf8(t.text)
  }

  const LOCALIZED_TEXT_CODEC: Codec<LocalizedText> :=
    Codec(EncLocalizedText, DecLocalizedText, NormText, ReadText, TextSized, TextFits, TextUtf8)

  lemma PartRestored(s: QString, m: Buffer, o: nat)
    ensures EncPart(s).ok && StringSized(s) && Sits(m, o, EncPart(s).bytes) ==>
              DecPart(Content(s) != [], m, o) == Got(ReadPart(s), o + |EncPart(s).bytes|)
  {
    hide EncString, DecString;
    StringRestored(s, m, o);
  }

  lemma PartInjective(s: QString, t: QString, m: Buffer, o: nat)
    ensures EncPart(s).ok && StringSized(s) && Sits(m, o, EncPart(s).bytes)
            && EncPart(t).ok && StringSized(t) && Sits(m, o, EncPart(t).bytes)
            && (Content(s) == [] <==> Content(t) == []) ==>
              NormPart(s) == NormPart(t)
  {
    hide EncString;
    StringInjective(s, t, m, o);
  }

  lemma PartThrifty(present: bool, m: Buffer, o: nat)
    ensures
      var r := DecPart(present, m, o);
      r.Got? && StringUtf8(r.value) && r.next + 4 <= Size(m) && EncPart(r.value).ok ==>
        var shortest := |EncPart(r.value).bytes|;
        shortest <= r.next - o && (StringFits(r.value) || shortest < r.next - o)
  {
    hide EncString, DecString;
    StringThrifty(m, o);
  }

  lemma TextRestored(t: LocalizedText, m: Buffer, o: nat)
    ensures RestoredAt(LOCALIZED_TEXT_CODEC, t, m, o)
  {
    hide EncPart, DecPart, DecU8, HasFlag, TextMask;
    if Holds(LOCALIZED_TEXT_CODEC, t, m, o) {
      var mask, locale, text := EncU8(TextMask(t)), EncPart(t.locale), EncPart(t.text);
      SitsThen3(m, o, mask, locale, text);
      U8Restored(TextMask(t), m, o);
      PartRestored(t.locale, m, o + 1);
      PartRestored(t.text, m, o + 1 + |locale.bytes|);
    }
  }

  lemma TextInjective(t: LocalizedText, u: LocalizedText, m: Buffer, o: nat)
    ensures InjectiveAt(LOCALIZED_TEXT_CODEC, t, u, m, o)
  {
    hide EncPart, DecPart, DecU8, HasFlag, TextMask;
    if Holds(LOCALIZED_TEXT_CODEC, t, m, o) && Holds(LOCALIZED_TEXT_CODEC, u, m, o) {
      SitsThen3(m, o, EncU8(TextMask(t)), EncPart(t.locale), EncPart(t.text));
      SitsThen3(m, o, EncU8(TextMask(u)), EncPart(u.locale), EncPart(u.text));
      U8Restored(TextMask(t), m, o);
      U8Restored(TextMask(u), m, o);
      PartRestored(t.locale, m, o + 1);
      PartRestored(u.locale, m, o + 1);
      PartInjective(t.locale, u.locale, m, o + 1);
      PartInjective(t.text, u.text, m, o + 1 + |EncPart(t.locale).bytes|);
    }
  }

  lemma TextThrifty(m: Buffer, o: nat)
    ensures Inside(m, o, DecLocalizedText(m, o).next)
    ensures ThriftyAt(LOCALIZED_TEXT_CODEC, m, o)
  {
    hide EncPart, DecPart, HasFlag;
    var mask := DecU8(m, o);
    if mask.Got? {
      var locale := DecPart(HasFlag(mask.value, 0x01), m, mask.next);
      PartThrifty(HasFlag(mask.value, 0x01), m, mask.next);
      PartThrifty(HasFlag(mask.value, 0x02), m, locale.next);
    }
  }

  lemma TextNormal(t: LocalizedText)
    ensures NormalAt(LOCALIZED_TEXT_CODEC, t)
  {
    hide EncString;
  }

  lemma LocalizedTextIsLawful()
    ensures Lawful(LOCALIZED_TEXT_CODEC)
  {
    hide EncLocalizedText, DecLocalizedText;
    forall m: Buffer, o: nat
      ensures Inside(m, o, LOCALIZED_TEXT_CODEC.dec(m, o).next) && ThriftyAt(LOCALIZED_TEXT_CODEC, m, o)
    {
      TextThrifty(m, o);
    }
    forall t, m: Buffer, o: nat
      ensures RestoredAt(LOCALIZED_TEXT_CODEC, t, m, o)
    {
      TextRestored(t, m, o);
    }
    forall t, u, m: Buffer, o: nat
      ensures InjectiveAt(LOCALIZED_TEXT_CODEC, t, u, m, o)
    {
      TextInjective(t, u, m, o);
    }
    forall t
      ensures NormalAt(LOCALIZED_TEXT_CODEC, t)
    {
      TextNormal(t);
    }
  }

  // ---------------------------------------------------------------- engineering units

  function NormUnits(u: EUInformation): EUInformation {
    EUInformation(u.namespaceUri, u.unitId, NormText(u.displayName), NormText(u.description))
  }

  function ReadUnits(u: EUInformation): EUInformation {
    EUInformation(ReadString(u.namespaceUri), u.unitId, ReadText(u.displayName), ReadText(u.description))
  }

  predicate UnitsSized(u: EUInformation) {
    StringSized(u.namespaceUri) && TextSized(u.displayName) && TextSized(u.description)
  }

  predicate UnitsFit(u: EUInformation) {
    StringFits(u.namespaceUri) && TextFits(u.displayName) && TextFits(u.description)
  }

  predicate UnitsUtf8(u: EUInformation) {
    StringUtf8(u.namespaceUri) && TextUtf8(u.displayName) && TextUtf8(u.description)
  }

  const EU_INFORMATION_CODEC: Codec<EUInformation> :=
    Codec(EncEUInformation, DecEUInformation, NormUnits, ReadUnits, UnitsSized, UnitsFit, UnitsUtf8)

  /** The offsets of the parts are those at which the decoder reads them. */
  lemma UnitsParts(u: EUInformation, m: Buffer, o: nat)
    ensures
      Holds(EU_INFORMATION_CODEC, u, m, o) ==>
        var uri := DecString(m, o);
        var name := DecLocalizedText(m, uri.next + 4);
        && Holds(STRING_CODEC, u.namespaceUri, m, o) && uri == Got(ReadString(u.namespaceUri), uri.next)
        && DecI32(m, uri.next) == Got(u.unitId, uri.next + 4)
        && Holds(LOCALIZED_TEXT_CODEC, u.displayName, m, uri.next + 4) && name == Got(ReadText(u.displayName), name.next)
        && Holds(LOCALIZED_TEXT_CODEC, u.description, m, name.next)
        && DecLocalizedText(m, name.next) == Got(ReadText(u.description), o + |EncEUInformation(u).bytes|)
  {
    hide EncString, DecString, DecI32, EncLocalizedText, DecLocalizedText;
    if Holds(EU_INFORMATION_CODEC, u, m, o) {
      var uri, unit, name := EncString(u.namespaceUri), EncI32(u.unitId), EncLocalizedText(u.displayName);
      SitsThen4(m, o, uri, unit, name, EncLocalizedText(u.description));
      hide Written.Then;
      StringRestored(u.namespaceUri, m, o);
      var o1 := o + |uri.bytes|;
      LengthRestored(u.unitId, m, o1);
      TextRestored(u.displayName, m, o1 + 4);
      TextRestored(u.description, m, o1 + 4 + |name.bytes|);
    }
  }

  lemma UnitsRestored(u: EUInformation, m: Buffer, o: nat)
    ensures RestoredAt(EU_INFORMATION_CODEC, u, m, o)
  {
    hide EncEUInformation, DecString, DecI32, DecLocalizedText, Holds;
    if Holds(EU_INFORMATION_CODEC, u, m, o) {
      UnitsParts(u, m, o);
    }
  }

  lemma UnitsInjective(u: EUInformation, v: EUInformation, m: Buffer, o: nat)
    ensures InjectiveAt(EU_INFORMATION_CODEC, u, v, m, o)
  {
    hide EncEUInformation, DecString, DecI32, DecLocalizedText, Holds;
    if Holds(EU_INFORMATION_CODEC, u, m, o) && Holds(EU_INFORMATION_CODEC, v, m, o) {
      UnitsParts(u, m, o);
      UnitsParts(v, m, o);
      var o1 := DecString(m, o).next + 4;
      StringInjective(u.namespaceUri, v.namespaceUri, m, o);
      TextInjective(u.displayName, v.displayName, m, o1);
      TextInjective(u.description, v.description, m, DecLocalizedText(m, o1).next);
    }
  }

  lemma UnitsThrifty(m: Buffer, o: nat)
    ensures Inside(m, o, DecEUInformation(m, o).next)
    ensures ThriftyAt(EU_INFORMATION_CODEC, m, o)
  {
    hide EncString, DecString, EncLocalizedText, DecLocalizedText;
    var unit := DecI32(m, DecString(m, o).next);
    StringThrifty(m, o);
    TextThrifty(m, unit.next);
    TextThrifty(m, DecLocalizedText(m, unit.next).next);
  }

  lemma UnitsNormal(u: EUInformation)
    ensures NormalAt(EU_INFORMATION_CODEC, u)
  {
    hide EncString, EncLocalizedText;
    TextNormal(u.displayName);
    TextNormal(u.description);
  }

  lemma EUInformationIsLawful()
    ensures Lawful(EU_INFORMATION_CODEC)
  {
    hide EncEUInformation, DecEUInformation;
    forall m: Buffer, o: nat
      ensures Inside(m, o, EU_INFORMATION_CODEC.dec(m, o).next) && ThriftyAt(EU_INFORMATION_CODEC, m, o)
    {
      UnitsThrifty(m, o);
    }
    forall u, m: Buffer, o: nat
      ensures RestoredAt(EU_INFORMATION_CODEC, u, m, o)
    {
      UnitsRestored(u, m, o);
    }
    forall u, v, m: Buffer, o: nat
      ensures InjectiveAt(EU_INFORMATION_CODEC, u, v, m, o)
    {
      UnitsInjective(u, v, m, o);
    }
    forall u
      ensures NormalAt(EU_INFORMATION_CODEC, u)
    {
      UnitsNormal(u);
    }
  }

  // ---------------------------------------------------------------- axis information

  function NormAxis(a: AxisInformation): AxisInformation {
    a.(engineeringUnits := NormUnits(a.engineeringUnits), title := NormText(a.title))
  }

  function ReadAxis(a: AxisInformation): AxisInformation {
    a.(engineeringUnits := ReadUnits(a.engineeringUnits), title := ReadText(a.title))
  }

  predicate AxisSized(a: AxisInformation) {
    UnitsSized(a.engineeringUnits) && TextSized(a.title)
  }

  predicate AxisFits(a: AxisInformation) {
    UnitsFit(a.engineeringUnits) && TextFits(a.title)
  }

  predicate AxisUtf8(a: AxisInformation) {
    UnitsUtf8(a.engineeringUnits) && TextUtf8(a.title)
  }

  const AXIS_INFORMATION_CODEC: Codec<AxisInformation> :=
    Codec(EncAxisInformation, DecAxisInformation, NormAxis, ReadAxis, AxisSized, AxisFits, AxisUtf8)

  lemma RangeRestored(r: Range, m: Buffer, o: nat)
    ensures |EncRange(r).bytes| == 16
    ensures Sits(m, o, EncRange(r).bytes) ==> DecRange(m, o) == Got(r, o + 16)
  {
    hide DecU64;
    if Sits(m, o, EncRange(r).bytes) {
      SitsThen(m, o, EncU64(r.low), EncU64(r.high));
      U64Restored(r.low, m, o);
      U64Restored(r.high, m, o + 8);
    }
  }

  const RANGE_CODEC: Codec<Range> := Codec(EncRange, DecRange, Same, Same, Always, Always, Always)

  lemma RangeIsLawful()
    ensures Lawful(RANGE_CODEC)
  {
    hide EncRange;
    forall m: Buffer, o: nat
      ensures ThriftyAt(RANGE_CODEC, m, o)
    {
      if DecRange(m, o).Got? {
        RangeRestored(DecRange(m, o).value, m, o);
      }
    }
    forall r, m: Buffer, o: nat
      ensures RestoredAt(RANGE_CODEC, r, m, o)
    {
      RangeRestored(r, m, o);
    }
    forall r, q, m: Buffer, o: nat
      ensures InjectiveAt(RANGE_CODEC, r, q, m, o)
    {
      RangeRestored(r, m, o);
      RangeRestored(q, m, o);
    }
  }

  lemma {:induction false} SameAll<T>(xs: seq<T>)
    ensures MapAll(Same<T>, xs) == xs
  {
    if xs == [] {
    } else {
      SameAll(xs[1..]);
    }
  }

  /** An array of elements that always come back unchanged comes back unchanged. */
  lemma PlainArrayRestored<T(!new)>(c: Codec<T>, xs: seq<T>, m: Buffer, o: nat)
    requires Lawful(c) && c.read == Same && forall x :: c.sized(x)
    requires EncArray(c.enc, xs).ok && Sits(m, o, EncArray(c.enc, xs).bytes)
    ensures DecArray(c.dec, m, o) == Got(xs, o + |EncArray(c.enc, xs).bytes|)
  {
    ArrayRestored(c, xs, m, o);
    SameAll(xs);
  }

  lemma PlainArrayThrifty<T(!new)>(c: Codec<T>, m: Buffer, o: nat)
    requires Lawful(c) && (forall x :: c.fits(x)) && forall x :: c.utf8(x)
    ensures Inside(m, o, DecArray(c.dec, m, o).next)
    ensures
      var r := DecArray(c.dec, m, o);
      r.Got? && r.next + 4 <= Size(m) && EncArray(c.enc, r.value).ok ==> |EncArray(c.enc, r.value).bytes| <= r.next - o
  {
    ArrayInside(c.dec, m, o);
    ArrayThrifty(c, m, o);
  }

  lemma AxisParts(a: AxisInformation, m: Buffer, o: nat)
    ensures
      Holds(AXIS_INFORMATION_CODEC, a, m, o) ==>
        var units := DecEUInformation(m, o);
        var title := DecLocalizedText(m, units.next + 16);
        && Holds(EU_INFORMATION_CODEC, a.engineeringUnits, m, o) && units == Got(ReadUnits(a.engineeringUnits), units.next)
        && DecRange(m, units.next) == Got(a.range, units.next + 16)
        && Holds(LOCALIZED_TEXT_CODEC, a.title, m, units.next + 16) && title == Got(ReadText(a.title), title.next)
        && DecU32(m, title.next) == Got(a.axisScaleType, title.next + 4)
        && DecArray(DecU64, m, title.next + 4) == Got(a.axisSteps, o + |EncAxisInformation(a).bytes|)
  {
    hide EncEUInformation, DecEUInformation, DecRange, EncRange, EncLocalizedText, DecLocalizedText, DecU32, EncArray, DecArray;
    if Holds(AXIS_INFORMATION_CODEC, a, m, o) {
      var units, range, title := EncEUInformation(a.engineeringUnits), EncRange(a.range), EncLocalizedText(a.title);
      SitsThen5(m, o, units, range, title, EncU32(a.axisScaleType), EncArray(EncU64, a.axisSteps));
      hide Written.Then;
      UnitsRestored(a.engineeringUnits, m, o);
      var o1 := o + |units.bytes|;
      RangeRestored(a.range, m, o1);
      TextRestored(a.title, m, o1 + 16);
      var o3 := o1 + 16 + |title.bytes|;
      U32Restored(a.axisScaleType, m, o3);
      DoubleIsLawful();
      PlainArrayRestored(DOUBLE_CODEC, a.axisSteps, m, o3 + 4);
    }
  }

  lemma AxisRestored(a: AxisInformation, m: Buffer, o: nat)
    ensures RestoredAt(AXIS_INFORMATION_CODEC, a, m, o)
  {
    hide EncAxisInformation, DecEUInformation, DecRange, DecLocalizedText, DecU32, DecArray, Holds;
    if Holds(AXIS_INFORMATION_CODEC, a, m, o) {
      AxisParts(a, m, o);
    }
  }

  lemma AxisInjective(a: AxisInformation, b: AxisInformation, m: Buffer, o: nat)
    ensures InjectiveAt(AXIS_INFORMATION_CODEC, a, b, m, o)
  {
    hide EncAxisInformation, DecEUInformation, DecRange, DecLocalizedText, DecU32, DecArray, Holds;
    if Holds(AXIS_INFORMATION_CODEC, a, m, o) && Holds(AXIS_INFORMATION_CODEC, b, m, o) {
      AxisParts(a, m, o);
      AxisParts(b, m, o);
      UnitsInjective(a.engineeringUnits, b.engineeringUnits, m, o);
      TextInjective(a.title, b.title, m, DecEUInformation(m, o).next + 16);
    }
  }

  lemma AxisThrifty(m: Buffer, o: nat)
    ensures Inside(m, o, DecAxisInformation(m, o).next)
    ensures ThriftyAt(AXIS_INFORMATION_CODEC, m, o)
  {
    hide EncEUInformation, DecEUInformation, EncLocalizedText, DecLocalizedText, EncArray, DecArray;
    var units := DecEUInformation(m, o);
    var range := DecRange(m, units.next);
    var title := DecLocalizedText(m, range.next);
    var scale := DecU32(m, title.next);
    UnitsThrifty(m, o);
    TextThrifty(m, range.next);
    DoubleIsLawful();
    PlainArrayThrifty(DOUBLE_CODEC, m, scale.next);
  }

  lemma AxisNormal(a: AxisInformation)
    ensures NormalAt(AXIS_INFORMATION_CODEC, a)
  {
    hide EncEUInformation, EncLocalizedText;
    UnitsNormal(a.engineeringUnits);
    TextNormal(a.title);
  }

  lemma AxisInformationIsLawful()
    ensures Lawful(AXIS_INFORMATION_CODEC)
  {
    hide EncAxisInformation, DecAxisInformation;
    forall m: Buffer, o: nat
      ensures Inside(m, o, AXIS_INFORMATION_CODEC.dec(m, o).next) && ThriftyAt(AXIS_INFORMATION_CODEC, m, o)
    {
      AxisThrifty(m, o);
    }
    forall a, m: Buffer, o: nat
      ensures RestoredAt(AXIS_INFORMATION_CODEC, a, m, o)
    {
      AxisRestored(a, m, o);
    }
    forall a, b, m: Buffer, o: nat
      ensures InjectiveAt(AXIS_INFORMATION_CODEC, a, b, m, o)
    {
      AxisInjective(a, b, m, o);
    }
    forall a
      ensures NormalAt(AXIS_INFORMATION_CODEC, a)
    {
      AxisNormal(a);
    }
  }
}
