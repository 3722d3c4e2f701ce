/** The laws hold for the three structures that contain node ids. */
module RecordCodecs {
  import opened Wrappers
  import opened Bytes
  import opened Wire
  import opened CodecLaws
  import opened StructureCodecs
  import opened NodeCodecs

  // ---------------------------------------------------------------- extension objects

  /** The body of an object without one is not carried. */
  function NormObject(x: ExtensionObject): ExtensionObject {
    if x.encoding.NoBody? then x.(body := None) else x
  }

  function ReadObject(x: ExtensionObject): ExtensionObject {
    ExtensionObject(ReadNodeId(x.typeId), x.encoding, if x.encoding.NoBody? then None else x.body)
  }

  predicate ObjectSized(x: ExtensionObject) {
    NodeIdSized(x.typeId) && (x.encoding.NoBody? || ByteStringFits(x.body))
  }

  predicate ObjectFits(x: ExtensionObject) {
    NodeIdFits(x.typeId) && (x.encoding.NoBody? || ByteStringFits(x.body))
  }

  predicate ObjectUtf8(x: ExtensionObject) {
    NodeIdUtf8(x.typeId)
  }

  const EXTENSION_OBJECT_CODEC: Codec<ExtensionObject> :=
    Codec(EncExtensionObject, DecExtensionObject, NormObject, ReadObject, ObjectSized, ObjectFits, ObjectUtf8)

  lemma EncodingRestored(e: BodyEncoding, m: Buffer, o: nat)
    ensures Sits(m, o, EncU8(EncodingByte(e)).bytes) ==> DecEncoding(m, o) == Got(e, o + 1)
  {
    U8Restored(EncodingByte(e), m, o);
  }

  lemma BodyRestored(x: ExtensionObject, m: Buffer, o: nat)
    ensures
      var w := EncBody(x.encoding, x.body);
      w.ok && ObjectSized(x) && Sits(m, o, w.bytes) ==>
        DecBody(x.encoding, m, o) == Got(NormObject(x).body, o + |w.bytes|)
  {
    hide EncByteString, DecByteString;
    ByteStringRestored(x.body, m, o);
  }

  lemma ObjectParts(x: ExtensionObject, m: Buffer, o: nat)
    requires Holds(EXTENSION_OBJECT_CODEC, x, m, o)
    ensures
      var node := DecNodeId(m, o);
      && Holds(NODE_ID_CODEC, x.typeId, m, o) && node == Got(ReadNodeId(x.typeId), node.next)
      && DecEncoding(m, node.next) == Got(x.encoding, node.next + 1)
      && DecBody(x.encoding, m, node.next + 1) == Got(NormObject(x).body, o + |EncExtensionObject(x).bytes|)
  {
    hide EncNodeId, DecNodeId, EncBody, DecBody, DecEncoding, EncU8;
    var node, form, body := EncNodeId(x.typeId), EncU8(EncodingByte(x.encoding)), EncBody(x.encoding, x.body);
    SitsThen3(m, o, node, form, body);
    assert |form.bytes| == 1 by { U8Size(EncodingByte(x.encoding)); }
    NodeIdRestored(x.typeId, m, o);
    EncodingRestored(x.encoding, m, o + |node.bytes|);
    BodyRestored(x, m, o + |node.bytes| + 1);
  }

  lemma ExtensionObjectRestored(x: ExtensionObject, m: Buffer, o: nat)
    ensures RestoredAt(EXTENSION_OBJECT_CODEC, x, m, o)
  {
    hide EncExtensionObject, DecNodeId, DecBody, DecEncoding, Holds;
    if Holds(EXTENSION_OBJECT_CODEC, x, m, o) {
      ObjectParts(x, m, o);
    }
  }

  lemma ExtensionObjectInjective(x: ExtensionObject, y: ExtensionObject, m: Buffer, o: nat)
    ensures InjectiveAt(EXTENSION_OBJECT_CODEC, x, y, m, o)
  {
    hide EncExtensionObject, DecNodeId, DecBody, DecEncoding, Holds;
    if Holds(EXTENSION_OBJECT_CODEC, x, m, o) && Holds(EXTENSION_OBJECT_CODEC, y, m, o) {
      ObjectParts(x, m, o);
      ObjectParts(y, m, o);
      NodeIdInjective(x.typeId, y.typeId, m, o);
    }
  }

  lemma U8Size(b: byte)
    ensures EncU8(b).ok && |EncU8(b).bytes| == 1
  {
  }

  lemma ExtensionObjectThrifty(m: Buffer, o: nat)
    ensures Inside(m, o, DecExtensionObject(m, o).next)
    ensures ThriftyAt(EXTENSION_OBJECT_CODEC, m, o)
  {
    hide EncNodeId, DecNodeId, EncByteString, DecByteString;
    NodeIdInside(m, o);
    NodeIdIsShortest(m, o);
    ByteStringThrifty(m, DecEncoding(m, DecNodeId(m, o).next).next);
  }

  lemma ExtensionObjectIsLawful()
    ensures Lawful(EXTENSION_OBJECT_CODEC)
  {
    hide EncExtensionObject, DecExtensionObject;
    forall m: Buffer, o: nat
      ensures Inside(m, o, EXTENSION_OBJECT_CODEC.dec(m, o).next) && ThriftyAt(EXTENSION_OBJECT_CODEC, m, o)
    {
      ExtensionObjectThrifty(m, o);
    }
    forall x, m: Buffer, o: nat
      ensures RestoredAt(EXTENSION_OBJECT_CODEC, x, m, o)
    {
      ExtensionObjectRestored(x, m, o);
    }
    forall x, y, m: Buffer, o: nat
      ensures InjectiveAt(EXTENSION_OBJECT_CODEC, x, y, m, o)
    {
      ExtensionObjectInjective(x, y, m, o);
    }
    forall x
      ensures NormalAt(EXTENSION_OBJECT_CODEC, x)
    {
      ExtensionObjectNormal(x);
    }
  }

  lemma ExtensionObjectNormal(x: ExtensionObject)
    ensures NormalAt(EXTENSION_OBJECT_CODEC, x)
  {
    hide EncNodeId, EncByteString;
  }

  // ---------------------------------------------------------------- arguments

  function NormArgument(a: Argument): Argument {
    a.(description := NormText(a.description))
  }

  function ReadArgument(a: Argument): Argument {
    a.(name := ReadString(a.name), dataTypeId := ReadNodeId(a.dataTypeId), description := ReadText(a.description))
  }

  predicate ArgumentSized(a: Argument) {
    StringSized(a.name) && NodeIdSized(a.dataTypeId) && TextSized(a.description)
  }

  predicate ArgumentFits(a: Argument) {
    StringFits(a.name) && NodeIdFits(a.dataTypeId) && TextFits(a.description)
  }

  predicate ArgumentUtf8(a: Argument) {
    StringUtf8(a.name) && NodeIdUtf8(a.dataTypeId) && TextUtf8(a.description)
  }

  const ARGUMENT_CODEC: Codec<Argument> :=
    Codec(EncArgument, DecArgument, NormArgument, ReadArgument, ArgumentSized, ArgumentFits, ArgumentUtf8)

  lemma ArgumentParts(a: Argument, m: Buffer, o: nat)
    ensures
      Holds(ARGUMENT_CODEC, a, m, o) ==>
        var name := DecString(m, o);
        var dataType := DecNodeId(m, name.next);
        var dimensions := DecArray(DecU32, m, dataType.next + 4);
        && Holds(STRING_CODEC, a.name, m, o) && name == Got(ReadString(a.name), name.next)
        && Holds(NODE_ID_CODEC, a.dataTypeId, m, name.next) && dataType == Got(ReadNodeId(a.dataTypeId), dataType.next)
        && DecI32(m, dataType.next) == Got(a.valueRank, dataType.next + 4)
        && dimensions == Got(a.arrayDimensions, dimensions.next)
        && Holds(LOCALIZED_TEXT_CODEC, a.description, m, dimensions.next)
        && DecLocalizedText(m, dimensions.next) == Got(ReadText(a.description), o + |EncArgument(a).bytes|)
  {
    hide EncString, DecString, EncNodeId, DecNodeId, DecI32, EncArray, DecArray, EncLocalizedText, DecLocalizedText;
    hide Written.Then, Sits;
    if Holds(ARGUMENT_CODEC, a, m, o) {
      var name, dataType, dimensions := EncString(a.name), EncNodeId(a.dataTypeId), EncArray(EncU32, a.arrayDimensions);
      SitsThen5(m, o, name, dataType, EncI32(a.valueRank), dimensions, EncLocalizedText(a.description));
      StringRestored(a.name, m, o);
      var o1 := o + |name.bytes|;
      NodeIdRestored(a.dataTypeId, m, o1);
      var o2 := o1 + |dataType.bytes|;
      LengthRestored(a.valueRank, m, o2);
      U32IsLawful();
      PlainArrayRestored(U32_CODEC, a.arrayDimensions, m, o2 + 4);
      TextRestored(a.description, m, o2 + 4 + |dimensions.bytes|);
    }
  }

  lemma ArgumentRestored(a: Argument, m: Buffer, o: nat)
    ensures RestoredAt(ARGUMENT_CODEC, a, m, o)
  {
    hide EncArgument, DecString, DecNodeId, DecI32, DecArray, DecLocalizedText, Holds;
    if Holds(ARGUMENT_CODEC, a, m, o) {
      ArgumentParts(a, m, o);
    }
  }

  lemma ArgumentInjective(a: Argument, b: Argument, m: Buffer, o: nat)
    ensures InjectiveAt(ARGUMENT_CODEC, a, b, m, o)
  {
    hide EncArgument, DecString, DecNodeId, DecI32, DecArray, DecLocalizedText, Holds;
    if Holds(ARGUMENT_CODEC, a, m, o) && Holds(ARGUMENT_CODEC, b, m, o) {
      ArgumentParts(a, m, o);
      ArgumentParts(b, m, o);
      var o1 := DecString(m, o).next;
      StringInjective(a.name, b.name, m, o);
      NodeIdInjective(a.dataTypeId, b.dataTypeId, m, o1);
      TextInjective(a.description, b.description, m, DecArray(DecU32, m, DecNodeId(m, o1).next + 4).next);
    }
  }

  lemma ArgumentThrifty(m: Buffer, o: nat)
    ensures Inside(m, o, DecArgument(m, o).next)
    ensures ThriftyAt(ARGUMENT_CODEC, m, o)
  {
    hide EncString, DecString, EncNodeId, DecNodeId, EncArray, DecArray, EncLocalizedText, DecLocalizedText;
    var dataType := DecNodeId(m, DecString(m, o).next);
    var rank := DecI32(m, dataType.next);
    var dimensions := DecArray(DecU32, m, rank.next);
    StringThrifty(m, o);
    NodeIdInside(m, DecString(m, o).next);
    NodeIdIsShortest(m, DecString(m, o).next);
    U32IsLawful();
    PlainArrayThrifty(U32_CODEC, m, rank.next);
    TextThrifty(m, dimensions.next);
  }

  lemma ArgumentNormal(a: Argument)
    ensures NormalAt(ARGUMENT_CODEC, a)
  {
    hide EncString, EncNodeId, EncArray, EncLocalizedText;
    TextNormal(a.description);
  }

  lemma ArgumentIsLawful()
    ensures Lawful(ARGUMENT_CODEC)
  {
    hide EncArgument, DecArgument;
    forall m: Buffer, o: nat
      ensures Inside(m, o, ARGUMENT_CODEC.dec(m, o).next) && ThriftyAt(ARGUMENT_CODEC, m, o)
    {
      ArgumentThrifty(m, o);
    }
    forall a, m: Buffer, o: nat
      ensures RestoredAt(ARGUMENT_CODEC, a, m, o)
    {
      ArgumentRestored(a, m, o);
    }
    forall a, b, m: Buffer, o: nat
      ensures InjectiveAt(ARGUMENT_CODEC, a, b, m, o)
    {
      ArgumentInjective(a, b, m, o);
    }
    forall a
      ensures NormalAt(ARGUMENT_CODEC, a)
    {
      ArgumentNormal(a);
    }
  }

  // ---------------------------------------------------------------- application records

  function NormRecord(a: ApplicationRecord): ApplicationRecord {
    a.(applicationNames := MapAll(NormText, a.applicationNames))
  }

  function ReadRecord(a: ApplicationRecord): ApplicationRecord {
    ApplicationRecord(ReadNodeId(a.applicationId), ReadString(a.applicationUri), a.applicationType,
                      MapAll(ReadText, a.applicationNames), ReadString(a.productUri),
                      MapAll(ReadString, a.discoveryUrls), MapAll(ReadString, a.serverCapabilities))
  }

  predicate RecordSized(a: ApplicationRecord) {
    && NodeIdSized(a.applicationId) && StringSized(a.applicationUri) && StringSized(a.productUri)
    && ArrayOf(LOCALIZED_TEXT_CODEC).sized(a.applicationNames)
    && ArrayOf(STRING_CODEC).sized(a.discoveryUrls)
    && ArrayOf(STRING_CODEC).sized(a.serverCapabilities)
  }

  predicate RecordFits(a: ApplicationRecord) {
    && NodeIdFits(a.applicationId) && StringFits(a.applicationUri) && StringFits(a.productUri)
    && ArrayOf(LOCALIZED_TEXT_CODEC).fits(a.applicationNames)
    && ArrayOf(STRING_CODEC).fits(a.discoveryUrls)
    && ArrayOf(STRING_CODEC).fits(a.serverCapabilities)
  }

  predicate RecordUtf8(a: ApplicationRecord) {
    && NodeIdUtf8(a.applicationId) && StringUtf8(a.applicationUri) && StringUtf8(a.productUri)
    && ArrayOf(LOCALIZED_TEXT_CODEC).utf8(a.applicationNames)
    && ArrayOf(STRING_CODEC).utf8(a.discoveryUrls)
    && ArrayOf(STRING_CODEC).utf8(a.serverCapabilities)
  }

  const APPLICATION_RECORD_CODEC: Codec<ApplicationRecord> :=
    Codec(EncApplicationRecord, DecApplicationRecord, NormRecord, ReadRecord, RecordSized, RecordFits, RecordUtf8)

  const NAMES_CODEC: Codec<seq<LocalizedText>> := ArrayOf(LOCALIZED_TEXT_CODEC)

  const STRINGS_CODEC: Codec<seq<QString>> := ArrayOf(STRING_CODEC)

  lemma NamesRestored(xs: seq<LocalizedText>, m: Buffer, o: nat)
    ensures
      var e := EncArray(EncLocalizedText, xs);
      e.ok && ArrayOf(LOCALIZED_TEXT_CODEC).sized(xs) && Sits(m, o, e.bytes) ==>
        Holds(NAMES_CODEC, xs, m, o) && DecArray(DecLocalizedText, m, o) == Got(MapAll(ReadText, xs), o + |e.bytes|)
  {
    hide EncLocalizedText, DecLocalizedText;
    LocalizedTextIsLawful();
    ArrayRestored(LOCALIZED_TEXT_CODEC, xs, m, o);
  }

  lemma StringsRestored(xs: seq<QString>, m: Buffer, o: nat)
    ensures
      var e := EncArray(EncString, xs);
      e.ok && ArrayOf(STRING_CODEC).sized(xs) && Sits(m, o, e.bytes) ==>
        Holds(STRINGS_CODEC, xs, m, o) && DecArray(DecString, m, o) == Got(MapAll(ReadString, xs), o + |e.bytes|)
  {
    hide EncString, DecString;
    StringIsLawful();
    ArrayRestored(STRING_CODEC, xs, m, o);
  }

  lemma NamesInjective(xs: seq<LocalizedText>, ys: seq<LocalizedText>, m: Buffer, o: nat)
    ensures Holds(NAMES_CODEC, xs, m, o) && Holds(NAMES_CODEC, ys, m, o) ==> MapAll(NormText, xs) == MapAll(NormText, ys)
  {
    hide EncLocalizedText, DecLocalizedText, Holds;
    LocalizedTextIsLawful();
    ArrayInjective(LOCALIZED_TEXT_CODEC, xs, ys, m, o);
  }

  lemma StringsInjective(xs: seq<QString>, ys: seq<QString>, m: Buffer, o: nat)
    ensures Holds(STRINGS_CODEC, xs, m, o) && Holds(STRINGS_CODEC, ys, m, o) ==> xs == ys
  {
    hide EncString, DecString, Holds;
    StringIsLawful();
    ArrayInjective(STRING_CODEC, xs, ys, m, o);
    SameAll(xs);
    SameAll(ys);
  }

  /** Up to the names. */
  lemma RecordHeadParts(a: ApplicationRecord, m: Buffer, o: nat)
    ensures
      var id, uri, kind := EncNodeId(a.applicationId), EncString(a.applicationUri), EncU32(a.applicationType);
      var (o1, o2) := (o + |id.bytes|, o + |id.bytes| + |uri.bytes|);
      RecordSized(a) && id.ok && uri.ok && Sits(m, o, id.bytes) && Sits(m, o1, uri.bytes) && Sits(m, o2, kind.bytes) ==>
        && Holds(NODE_ID_CODEC, a.applicationId, m, o) && DecNodeId(m, o) == Got(ReadNodeId(a.applicationId), o1)
        && Holds(STRING_CODEC, a.applicationUri, m, o1) && DecString(m, o1) == Got(ReadString(a.applicationUri), o2)
        && DecU32(m, o2) == Got(a.applicationType, o2 + 4)
  {
    hide EncString, DecString, EncNodeId, DecNodeId, EncU32, DecU32, ArrayOf, Sits;
    var id, uri := EncNodeId(a.applicationId), EncString(a.applicationUri);
    NodeIdRestored(a.applicationId, m, o);
    StringRestored(a.applicationUri, m, o + |id.bytes|);
    U32Restored(a.applicationType, m, o + |id.bytes| + |uri.bytes|);
  }

  /** From the names on. */
  lemma RecordTailParts(a: ApplicationRecord, m: Buffer, o: nat)
    ensures
      var names, product := EncArray(EncLocalizedText, a.applicationNames), EncString(a.productUri);
      var urls, capabilities := EncArray(EncString, a.discoveryUrls), EncArray(EncString, a.serverCapabilities);
      var (o1, o2) := (o + |names.bytes|, o + |names.bytes| + |product.bytes|);
      var o3 := o2 + |urls.bytes|;
      RecordSized(a) && names.ok && product.ok && urls.ok && capabilities.ok && Sits(m, o, names.bytes)
      && Sits(m, o1, product.bytes) && Sits(m, o2, urls.bytes) && Sits(m, o3, capabilities.bytes) ==>
        && Holds(NAMES_CODEC, a.applicationNames, m, o)
        && DecArray(DecLocalizedText, m, o) == Got(MapAll(ReadText, a.applicationNames), o1)
        && Holds(STRING_CODEC, a.productUri, m, o1) && DecString(m, o1) == Got(ReadString(a.productUri), o2)
        && Holds(STRINGS_CODEC, a.discoveryUrls, m, o2)
        && DecArray(DecString, m, o2) == Got(MapAll(ReadString, a.discoveryUrls), o3)
        && Holds(STRINGS_CODEC, a.serverCapabilities, m, o3)
        && DecArray(DecString, m, o3) == Got(MapAll(ReadString, a.serverCapabilities), o3 + |capabilities.bytes|)
  {
    hide EncString, DecString, EncArray, DecArray, ArrayOf, EncLocalizedText, DecLocalizedText, Sits;
    var names, product := EncArray(EncLocalizedText, a.applicationNames), EncString(a.productUri);
    var urls := EncArray(EncString, a.discoveryUrls);
    NamesRestored(a.applicationNames, m, o);
    StringRestored(a.productUri, m, o + |names.bytes|);
    StringsRestored(a.discoveryUrls, m, o + |names.bytes| + |product.bytes|);
    StringsRestored(a.serverCapabilities, m, o + |names.bytes| + |product.bytes| + |urls.bytes|);
  }

  lemma RecordSits(a: ApplicationRecord, m: Buffer, o: nat)
    ensures
      Holds(APPLICATION_RECORD_CODEC, a, m, o) ==>
        var id, uri, kind := EncNodeId(a.applicationId), EncString(a.applicationUri), EncU32(a.applicationType);
        var names, product := EncArray(EncLocalizedText, a.applicationNames), EncString(a.productUri);
        var urls, capabilities := EncArray(EncString, a.discoveryUrls), EncArray(EncString, a.serverCapabilities);
        var (o1, o2) := (o + |id.bytes|, o + |id.bytes| + |uri.bytes|);
        var (o4, o5) := (o2 + 4 + |names.bytes|, o2 + 4 + |names.bytes| + |product.bytes|);
        && RecordSized(a) && id.ok && uri.ok && names.ok && product.ok && urls.ok && capabilities.ok
        && Sits(m, o, id.bytes) && Sits(m, o1, uri.bytes) && Sits(m, o2, kind.bytes) && Sits(m, o2 + 4, names.bytes)
        && Sits(m, o4, product.bytes) && Sits(m, o5, urls.bytes) && Sits(m, o5 + |urls.bytes|, capabilities.bytes)
        && o + |EncApplicationRecord(a).bytes| == o5 + |urls.bytes| + |capabilities.bytes|
  {
    hide EncString, EncNodeId, EncArray, EncLocalizedText, Sits, RecordSized, Written.Then;
    if Holds(APPLICATION_RECORD_CODEC, a, m, o) {
      SitsThen7(m, o, EncNodeId(a.applicationId), EncString(a.applicationUri), EncU32(a.applicationType),
                EncArray(EncLocalizedText, a.applicationNames), EncString(a.productUri),
                EncArray(EncString, a.discoveryUrls), EncArray(EncString, a.serverCapabilities));
    }
  }

  lemma RecordParts(a: ApplicationRecord, m: Buffer, o: nat)
    ensures
      Holds(APPLICATION_RECORD_CODEC, a, m, o) ==>
        var id := DecNodeId(m, o);
        var uri := DecString(m, id.next);
        && Holds(NODE_ID_CODEC, a.applicationId, m, o) && id == Got(ReadNodeId(a.applicationId), id.next)
        && Holds(STRING_CODEC, a.applicationUri, m, id.next) && uri == Got(ReadString(a.applicationUri), uri.next)
        && DecU32(m, uri.next) == Got(a.applicationType, uri.next + 4)
        && var names := DecArray(DecLocalizedText, m, uri.next + 4);
           var product := DecString(m, names.next);
           var urls := DecArray(DecString, m, product.next);
           && Holds(NAMES_CODEC, a.applicationNames, m, uri.next + 4)
           && names == Got(MapAll(ReadText, a.applicationNames), names.next)
           && Holds(STRING_CODEC, a.productUri, m, names.next) && product == Got(ReadString(a.productUri), product.next)
           && Holds(STRINGS_CODEC, a.discoveryUrls, m, product.next)
           && urls == Got(MapAll(ReadString, a.discoveryUrls), urls.next)
           && Holds(STRINGS_CODEC, a.serverCapabilities, m, urls.next)
           && DecArray(DecString, m, urls.next) ==
              Got(MapAll(ReadString, a.serverCapabilities), o + |EncApplicationRecord(a).bytes|)
  {
    hide EncString, DecString, EncNodeId, DecNodeId, DecU32, EncU32, EncArray, DecArray, EncLocalizedText, DecLocalizedText;
    hide Sits, RecordSized, MapAll, Written.Then, EncApplicationRecord;
    if Holds(APPLICATION_RECORD_CODEC, a, m, o) {
      RecordSits(a, m, o);
      hide Holds;
      RecordHeadParts(a, m, o);
      RecordTailParts(a, m, o + |EncNodeId(a.applicationId).bytes| + |EncString(a.applicationUri).bytes| + 4);
    }
  }

  lemma ApplicationRecordRestored(a: ApplicationRecord, m: Buffer, o: nat)
    ensures RestoredAt(APPLICATION_RECORD_CODEC, a, m, o)
  {
    hide EncApplicationRecord, DecString, DecNodeId, DecU32, DecArray, DecLocalizedText, Holds, MapAll;
    if Holds(APPLICATION_RECORD_CODEC, a, m, o) {
      RecordParts(a, m, o);
    }
  }

  lemma ApplicationRecordInjective(a: ApplicationRecord, b: ApplicationRecord, m: Buffer, o: nat)
    ensures InjectiveAt(APPLICATION_RECORD_CODEC, a, b, m, o)
  {
    hide EncApplicationRecord, DecString, DecNodeId, DecU32, DecArray, DecLocalizedText, Holds, MapAll;
    if Holds(APPLICATION_RECORD_CODEC, a, m, o) && Holds(APPLICATION_RECORD_CODEC, b, m, o) {
      RecordParts(a, m, o);
      RecordParts(b, m, o);
      var id := DecNodeId(m, o).next;
      var kind := DecString(m, id).next;
      var names := DecArray(DecLocalizedText, m, kind + 4).next;
      var product := DecString(m, names).next;
      NodeIdInjective(a.applicationId, b.applicationId, m, o);
      StringInjective(a.applicationUri, b.applicationUri, m, id);
      NamesInjective(a.applicationNames, b.applicationNames, m, kind + 4);
      StringInjective(a.productUri, b.productUri, m, names);
      StringsInjective(a.discoveryUrls, b.discoveryUrls, m, product);
      StringsInjective(a.serverCapabilities, b.serverCapabilities, m, DecArray(DecString, m, product).next);
    }
  }

  lemma NamesThrifty(m: Buffer, o: nat)
    ensures Inside(m, o, DecArray(DecLocalizedText, m, o).next)
    ensures
      var r := DecArray(DecLocalizedText, m, o);
      r.Got? && ArrayOf(LOCALIZED_TEXT_CODEC).utf8(r.value) && r.next + 4 <= Size(m)
      && EncArray(EncLocalizedText, r.value).ok ==>
        var shortest := |EncArray(EncLocalizedText, r.value).bytes|;
        shortest <= r.next - o && (ArrayOf(LOCALIZED_TEXT_CODEC).fits(r.value) || shortest < r.next - o)
  {
    hide EncLocalizedText, DecLocalizedText;
    LocalizedTextIsLawful();
    ArrayInside(DecLocalizedText, m, o);
    ArrayThrifty(LOCALIZED_TEXT_CODEC, m, o);
  }

  lemma StringsThrifty(m: Buffer, o: nat)
    ensures Inside(m, o, DecArray(DecString, m, o).next)
    ensures
      var r := DecArray(DecString, m, o);
      r.Got? && ArrayOf(STRING_CODEC).utf8(r.value) && r.next + 4 <= Size(m) && EncArray(EncString, r.value).ok ==>
        var shortest := |EncArray(EncString, r.value).bytes|;
        shortest <= r.next - o && (ArrayOf(STRING_CODEC).fits(r.value) || shortest < r.next - o)
  {
    hide EncString, DecString;
    StringIsLawful();
    ArrayInside(DecString, m, o);
    ArrayThrifty(STRING_CODEC, m, o);
  }

  lemma ApplicationRecordThrifty(m: Buffer, o: nat)
    ensures Inside(m, o, DecApplicationRecord(m, o).next)
    ensures ThriftyAt(APPLICATION_RECORD_CODEC, m, o)
  {
    hide EncString, DecString, EncNodeId, DecNodeId, EncArray, DecArray, ArrayOf, EncLocalizedText, DecLocalizedText;
    var id := DecNodeId(m, o);
    NodeIdInside(m, o);
    NodeIdIsShortest(m, o);
    var uri := DecString(m, id.next);
    StringThrifty(m, id.next);
    var kind := DecU32(m, uri.next);
    var names := DecArray(DecLocalizedText, m, kind.next);
    NamesThrifty(m, kind.next);
    var product := DecString(m, names.next);
    StringThrifty(m, names.next);
    var urls := DecArray(DecString, m, product.next);
    StringsThrifty(m, product.next);
    StringsThrifty(m, urls.next);
  }

  lemma NamesNormal(xs: seq<LocalizedText>)
    ensures
      var a := ArrayOf(LOCALIZED_TEXT_CODEC);
      var norm := MapAll(NormText, xs);
      EncArray(EncLocalizedText, norm) == EncArray(EncLocalizedText, xs)
      && (a.sized(norm) <==> a.sized(xs)) && (a.fits(norm) <==> a.fits(xs)) && (a.utf8(norm) <==> a.utf8(xs))
      && (a.fits(xs) ==> a.sized(xs) && MapAll(ReadText, xs) == norm)
  {
    hide EncLocalizedText, DecLocalizedText, NormText, TextSized, TextFits, TextUtf8;
    LocalizedTextIsLawful();
    ArrayNormalised(LOCALIZED_TEXT_CODEC, xs);
  }

  lemma StringsNormal(xs: seq<QString>)
    ensures
      var a := ArrayOf(STRING_CODEC);
      a.fits(xs) ==> a.sized(xs) && MapAll(ReadString, xs) == xs
  {
    hide EncString, DecString, StringSized, StringFits, StringUtf8;
    StringIsLawful();
    ArrayNormalised(STRING_CODEC, xs);
    SameAll(xs);
  }

  lemma ApplicationRecordNormal(a: ApplicationRecord)
    ensures NormalAt(APPLICATION_RECORD_CODEC, a)
  {
    hide EncString, EncNodeId, EncArray, ArrayOf, MapAll, Written.Then;
    NamesNormal(a.applicationNames);
    StringsNormal(a.discoveryUrls);
    StringsNormal(a.serverCapabilities);
  }

  lemma ApplicationRecordIsLawful()
    ensures Lawful(APPLICATION_RECORD_CODEC)
  {
    hide EncApplicationRecord, DecApplicationRecord;
    forall m: Buffer, o: nat
      ensures Inside(m, o, APPLICATION_RECORD_CODEC.dec(m, o).next) && ThriftyAt(APPLICATION_RECORD_CODEC, m, o)
    {
      ApplicationRecordThrifty(m, o);
    }
    forall a, m: Buffer, o: nat
      ensures RestoredAt(APPLICATION_RECORD_CODEC, a, m, o)
    {
      ApplicationRecordRestored(a, m, o);
    }
    forall a, b, m: Buffer, o: nat
      ensures InjectiveAt(APPLICATION_RECORD_CODEC, a, b, m, o)
    {
      ApplicationRecordInjective(a, b, m, o);
    }
    forall a
      ensures NormalAt(APPLICATION_RECORD_CODEC, a)
    {
      ApplicationRecordNormal(a);
    }
  }

  /** So `RestoredIff`, `PrefixFree` and `ReencodingIsStable` hold for each type, and for arrays of it. */
  lemma EveryCodecIsLawful()
    ensures Lawful(STRING_CODEC) && Lawful(QUALIFIED_NAME_CODEC) && Lawful(LOCALIZED_TEXT_CODEC)
    ensures Lawful(EU_INFORMATION_CODEC) && Lawful(AXIS_INFORMATION_CODEC) && Lawful(BYTE_STRING_CODEC)
    ensures Lawful(NODE_ID_CODEC) && Lawful(EXPANDED_NODE_ID_CODEC) && Lawful(EXTENSION_OBJECT_CODEC)
    ensures Lawful(ARGUMENT_CODEC) && Lawful(APPLICATION_RECORD_CODEC)
    ensures Lawful(RANGE_CODEC) && Lawful(GUID_CODEC) && Lawful(U32_CODEC) && Lawful(DOUBLE_CODEC)
  {
    hide Lawful;
    U32IsLawful();
    DoubleIsLawful();
    RangeIsLawful();
    GuidIsLawful();
    StringIsLawful();
    QualifiedNameIsLawful();
    LocalizedTextIsLawful();
    EUInformationIsLawful();
    AxisInformationIsLawful();
    ByteStringIsLawful();
    NodeIdIsLawful();
    ExpandedNodeIdIsLawful();
    ExtensionObjectIsLawful();
    ArgumentIsLawful();
    ApplicationRecordIsLawful();
  }
}
