/**
 What a decoder does with an encoding that was cut short. A string accepts a cut length word as the empty string.
 Axis information is never accepted without its last bytes all the same; of the structures that end in a string, and
 of extension objects, exactly the accepted prefixes are given.
 */
module Prefixes {
  import opened Wrappers
  import opened Bytes
  import opened Wire
  import opened CodecLaws
  import opened StructureCodecs
  import opened NodeCodecs
  import opened RecordCodecs

  /** What was accepted on the first `k` bytes with four to spare is accepted alike on all of them. */
  ghost predicate StableAt<T>(dec: Decoder<T>, m: bytes, k: nat, o: nat)
    requires k <= |m|
  {
    var r := dec(Some(m[..k]), o);
    r.Got? && r.next + 4 <= k ==> dec(Some(m), o) == r
  }

  /** As `StableAt`, with nothing to spare: no length word of a string is read last. */
  ghost predicate FirmAt<T>(dec: Decoder<T>, m: bytes, k: nat, o: nat)
    requires k <= |m|
  {
    var r := dec(Some(m[..k]), o);
    r.Got? ==> dec(Some(m), o) == r
  }

  lemma WordIsFirm(w: nat, m: bytes, k: nat, o: nat)
    requires k <= |m|
    ensures DecWord(w, Some(m[..k]), o).Got? ==> DecWord(w, Some(m), o) == DecWord(w, Some(m[..k]), o)
  {
    if o + w <= k {
      assert m[..k][o..o + w] == m[o..o + w];
    }
  }

  lemma IntegersAreFirm(m: bytes, k: nat, o: nat)
    requires k <= |m|
    ensures FirmAt(DecU8, m, k, o) && FirmAt(DecU32, m, k, o) && FirmAt(DecI32, m, k, o) && FirmAt(DecU64, m, k, o)
  {
    hide DecWord;
    WordIsFirm(1, m, k, o);
    WordIsFirm(4, m, k, o);
    WordIsFirm(8, m, k, o);
  }

  lemma StringIsStable(m: bytes, k: nat, o: nat)
    requires k <= |m|
    ensures StableAt(DecString, m, k, o)
  {
    hide DecWord, DecU32;
    IntegersAreFirm(m, k, o);
    var l := DecI32(Some(m[..k]), o);
    if l.Got? && l.value > 0 && l.next + l.value <= k {
      assert m[..k][l.next..l.next + l.value] == m[l.next..l.next + l.value];
    }
  }

  lemma PartIsStable(present: bool, m: bytes, k: nat, o: nat)
    requires k <= |m|
    ensures
      var r := DecPart(present, Some(m[..k]), o);
      r.Got? && r.next + 4 <= k ==> DecPart(present, Some(m), o) == r
  {
    hide DecString;
    StringIsStable(m, k, o);
  }

  lemma PartAdvances(present: bool, m: Buffer, o: nat)
    ensures o <= DecPart(present, m, o).next
  {
  }

  lemma TextIsStable(m: bytes, k: nat, o: nat)
    requires k <= |m|
    ensures StableAt(DecLocalizedText, m, k, o)
    ensures o <= DecLocalizedText(Some(m[..k]), o).next
  {
    var cut := Some(m[..k]);
    var mask := DecU8(cut, o);
    IntegersAreFirm(m, k, o);
    if mask.Got? {
      hide DecU8, DecPart, HasFlag;
      var locale := DecPart(HasFlag(mask.value, 0x01), cut, mask.next);
      PartIsStable(HasFlag(mask.value, 0x01), m, k, mask.next);
      PartIsStable(HasFlag(mask.value, 0x02), m, k, locale.next);
      PartAdvances(HasFlag(mask.value, 0x01), cut, mask.next);
      PartAdvances(HasFlag(mask.value, 0x02), cut, locale.next);
    }
  }

  lemma UnitsAreStable(m: bytes, k: nat, o: nat)
    requires k <= |m|
    ensures StableAt(DecEUInformation, m, k, o)
  {
    var cut := Some(m[..k]);
    hide DecString, DecLocalizedText;
    var uri := DecString(cut, o);
    StringIsStable(m, k, o);
    var unit := DecI32(cut, uri.next);
    IntegersAreFirm(m, k, uri.next);
    var name := DecLocalizedText(cut, unit.next);
    TextIsStable(m, k, unit.next);
    TextIsStable(m, k, name.next);
  }

  lemma RangeIsFirm(m: bytes, k: nat, o: nat)
    requires k <= |m|
    ensures FirmAt(DecRange, m, k, o)
    ensures DecRange(Some(m[..k]), o).Got? ==> o + 16 <= k
  {
    IntegersAreFirm(m, k, o);
    IntegersAreFirm(m, k, o + 8);
  }

  lemma {:induction false} ItemsAreFirm<T>(dec: Decoder<T>, count: nat, m: bytes, k: nat, o: nat)
    requires k <= |m| && forall p: nat :: FirmAt(dec, m, k, p)
    ensures DecItems(dec, count, Some(m[..k]), o).Got? ==>
              DecItems(dec, count, Some(m), o) == DecItems(dec, count, Some(m[..k]), o)
    decreases count
  {
    if count == 0 {
    } else {
      assert FirmAt(dec, m, k, o);
      var first := dec(Some(m[..k]), o);
      if first.Got? {
        ItemsAreFirm(dec, count - 1, m, k, first.next);
      }
    }
  }

  lemma DoublesAreFirm(m: bytes, k: nat, o: nat)
    requires k <= |m|
    ensures DecArray(DecU64, Some(m[..k]), o).Got? ==> DecArray(DecU64, Some(m), o) == DecArray(DecU64, Some(m[..k]), o)
  {
    hide DecU64;
    forall p: nat
      ensures FirmAt(DecU64, m, k, p)
    {
      IntegersAreFirm(m, k, p);
    }
    IntegersAreFirm(m, k, o);
    var size := DecI32(Some(m[..k]), o);
    if size.Got? && size.value > 0 {
      ItemsAreFirm(DecU64, size.value, m, k, size.next);
    }
  }

  /** However the strings inside are cut and misread, what follows them still runs out of bytes. */
  lemma AxisInformationIsFirm(m: bytes, k: nat, o: nat)
    requires k <= |m|
    ensures FirmAt(DecAxisInformation, m, k, o)
  {
    var cut := Some(m[..k]);
    var units := DecEUInformation(cut, o);
    hide DecEUInformation, DecRange, DecLocalizedText, DecArray;
    UnitsAreStable(m, k, o);
    var range := DecRange(cut, units.next);
    RangeIsFirm(m, k, units.next);
    var title := DecLocalizedText(cut, range.next);
    TextIsStable(m, k, range.next);
    var scale := DecU32(cut, title.next);
    IntegersAreFirm(m, k, title.next);
    DoublesAreFirm(m, k, scale.next);
  }

  /** Of a buffer that decodes as axis information, no shorter piece does. */
  lemma AxisInformationRejectsPrefixes(m: bytes, o: nat, k: nat)
    requires DecAxisInformation(Some(m), o).Got? && o <= k < DecAxisInformation(Some(m), o).next && k <= |m|
    ensures DecAxisInformation(Some(m[..k]), o).Failed?
  {
    AxisInformationIsFirm(m, k, o);
    hide DecAxisInformation;
    AxisThrifty(Some(m[..k]), o);
  }

  lemma AxisEncodingRejectsPrefixes(a: AxisInformation, k: nat)
    ensures EncAxisInformation(a).ok && AxisSized(a) && k < |EncAxisInformation(a).bytes| ==>
              DecAxisInformation(Some(EncAxisInformation(a).bytes[..k]), 0).Failed?
  {
    var e := EncAxisInformation(a).bytes;
    hide EncAxisInformation, DecAxisInformation;
    if EncAxisInformation(a).ok && AxisSized(a) && k < |e| {
      assert e[0..|e|] == e;
      AxisRestored(a, Some(e), 0);
      AxisInformationRejectsPrefixes(e, 0, k);
    }
  }

  // ---------------------------------------------------------------- strings at the end

  /** A string of which the end is missing: empty as long as the length word is cut, refused from then on. */
  lemma StringCut(s: QString, m: bytes, o: nat, k: nat)
    requires k <= |m|
    ensures
      var e := EncString(s);
      e.ok && StringSized(s) && Sits(Some(m), o, e.bytes) && o <= k < o + |e.bytes| ==>
        DecString(Some(m[..k]), o) == if k < o + 4 then Got(Some([]), o) else Failed(o + 4)
  {
    var e := EncString(s).bytes;
    if EncString(s).ok && StringSized(s) && Sits(Some(m), o, e) && o + 4 <= k < o + |e| {
      NarrowFits(|Content(s)|);
      LengthThenContent(if s.None? then -1 else |s.value|, Content(s), Some(m), o);
      IntegersAreFirm(m, k, o);
    }
  }

  /** A string alone: exactly the prefixes that stop inside the length word are accepted, as empty. */
  lemma StringPrefixes(s: QString, k: nat)
    requires EncString(s).ok && StringSized(s) && k < |EncString(s).bytes|
    ensures
      var r := DecString(Some(EncString(s).bytes[..k]), 0);
      (r.Failed? <==> k >= 4) && (k < 4 ==> r == Got(Some([]), 0))
  {
    var e := EncString(s).bytes;
    assert e[0..|e|] == e;
    StringCut(s, e, 0, k);
  }

  /** A qualified name: the prefixes that stop inside the length word of the name. */
  lemma QualifiedNamePrefixes(q: QualifiedName, k: nat)
    requires EncQualifiedName(q).ok && QualifiedNameSized(q) && k < |EncQualifiedName(q).bytes|
    ensures
      var r := DecQualifiedName(Some(EncQualifiedName(q).bytes[..k]), 0);
      && (r.Failed? <==> k < 2 || k >= 6)
      && (2 <= k < 6 ==> r == Got(QualifiedName(q.namespaceIndex, Some([])), 2))
  {
    var e := EncQualifiedName(q).bytes;
    assert e[0..|e|] == e;
    SitsThen(Some(e), 0, EncU16(q.namespaceIndex), EncString(q.name));
    hide EncString, DecString;
    U16Restored(q.namespaceIndex, Some(e), 0);
    StringCut(q.name, e, 2, k);
    WordIsFirm(2, e, k, 0);
  }

  lemma PartCut(s: QString, m: bytes, o: nat, k: nat)
    requires k <= |m|
    ensures
      var e := EncPart(s);
      e.ok && StringSized(s) && Sits(Some(m), o, e.bytes) && o <= k ==>
        DecPart(Content(s) != [], Some(m[..k]), o) ==
        if k >= o + |e.bytes| then Got(ReadPart(s), o + |e.bytes|)
        else if k < o + 4 then Got(Some([]), o)
        else Failed(o + 4)
  {
    hide EncString, DecString;
    var e := EncPart(s);
    if e.ok && StringSized(s) && Sits(Some(m), o, e.bytes) && o + |e.bytes| <= k {
      assert m[..k][o..o + |e.bytes|] == m[o..o + |e.bytes|];
      PartRestored(s, Some(m[..k]), o);
    }
    StringCut(s, m, o, k);
  }

  lemma PartSize(s: QString)
    ensures EncPart(s).ok ==> EncPart(s).bytes == [] || |EncPart(s).bytes| >= 5
  {
  }

  /** A part of which at most the length word is there. */
  function CutPart(s: QString): QString {
    if Content(s) == [] then None else Some([])
  }

  /** A localized text: the prefixes that stop at or inside either length word. */
  lemma TextPrefixes(t: LocalizedText, k: nat)
    requires EncLocalizedText(t).ok && TextSized(t) && k < |EncLocalizedText(t).bytes|
    ensures
      var locale := |EncPart(t.locale).bytes|;
      var r := DecLocalizedText(Some(EncLocalizedText(t).bytes[..k]), 0);
      && (r.Failed? <==> k < 1 || 5 <= k < 1 + locale || k >= 5 + locale)
      && (1 <= k < 5 ==> r == Got(LocalizedText(CutPart(t.locale), CutPart(t.text)), 1))
      && (5 <= 1 + locale <= k < 5 + locale ==> r == Got(LocalizedText(ReadPart(t.locale), Some([])), 1 + locale))
  {
    var e := EncLocalizedText(t).bytes;
    var mask, locale, text := EncU8(TextMask(t)), EncPart(t.locale), EncPart(t.text);
    assert e[0..|e|] == e;
    SitsThen3(Some(e), 0, mask, locale, text);
    hide EncPart, DecPart, TextMask, HasFlag, Written.Then;
    U8Restored(TextMask(t), Some(e), 0);
    WordIsFirm(1, e, k, 0);
    PartCut(t.locale, e, 1, k);
    PartCut(t.text, e, 1, k);
    PartCut(t.text, e, 1 + |locale.bytes|, k);
    PartSize(t.locale);
    PartSize(t.text);
  }

  // ---------------------------------------------------------------- node ids and extension objects

  lemma ByteStringIsFirm(m: bytes, k: nat, o: nat)
    requires k <= |m|
    ensures FirmAt(DecByteString, m, k, o)
  {
    hide DecI32;
    IntegersAreFirm(m, k, o);
    var size := DecI32(Some(m[..k]), o);
    if size.Got? && size.value > 0 && Enough(Some(m[..k]), size.next, size.value) {
      assert m[..k][size.next..size.next + size.value] == m[size.next..size.next + size.value];
    }
  }

  lemma NamespaceIsFirm(form: byte, m: bytes, k: nat, o: nat)
    requires k <= |m|
    ensures
      var r := DecNamespace(form, Some(m[..k]), o);
      r.Got? ==> DecNamespace(form, Some(m), o) == r
  {
    hide DecWord;
    WordIsFirm(1, m, k, o);
    WordIsFirm(2, m, k, o);
  }

  lemma GuidIsFirm(m: bytes, k: nat, o: nat)
    requires k <= |m|
    ensures FirmAt(DecGuid, m, k, o)
  {
    hide DecWord;
    if Enough(Some(m[..k]), o, 16) {
      WordIsFirm(4, m, k, o);
      WordIsFirm(2, m, k, o + 4);
      WordIsFirm(2, m, k, o + 6);
      assert m[..k][o + 8..o + 16] == m[o + 8..o + 16];
    }
  }

  /** What was accepted on the first `k` bytes is read alike from all, unless it is the empty string of a cut length word. */
  lemma StringIsFirm(m: bytes, k: nat, o: nat)
    requires k <= |m|
    ensures
      var r := DecString(Some(m[..k]), o);
      r.Got? ==> DecString(Some(m), o) == r || (r == Got(Some([]), o) && k < o + 4)
  {
    hide DecI32, FromUtf8;
    IntegersAreFirm(m, k, o);
    var l := DecI32(Some(m[..k]), o);
    if l.Got? && l.value > 0 && Enough(Some(m[..k]), l.next, l.value) {
      assert m[..k][l.next..l.next + l.value] == m[l.next..l.next + l.value];
    }
  }

  lemma IdentifierIsFirm(form: byte, m: bytes, k: nat, o: nat)
    requires k <= |m|
    ensures
      var r := DecIdentifier(form, Some(m[..k]), o);
      r.Got? ==> DecIdentifier(form, Some(m), o) == r || (r == Got(Text([]), o) && k < o + 4)
  {
    hide DecWord, DecString, DecByteString, DecGuid;
    WordIsFirm(1, m, k, o);
    WordIsFirm(2, m, k, o);
    WordIsFirm(4, m, k, o);
    StringIsFirm(m, k, o);
    GuidIsFirm(m, k, o);
    ByteStringIsFirm(m, k, o);
  }

  /** Only a text identifier that was read as empty from a cut length word can be a cut one. */
  lemma NodeIdIsFirm(m: bytes, k: nat, o: nat)
    requires k <= |m|
    ensures
      var r := DecNodeId(Some(m[..k]), o);
      r.Got? ==> DecNodeId(Some(m), o) == r || (r.value.id == Text([]) && k < r.next + 4)
  {
    hide DecWord, DecNamespace, DecIdentifier;
    WordIsFirm(1, m, k, o);
    var first := DecU8(Some(m[..k]), o);
    if first.Got? {
      var form := first.value % 0x40;
      NamespaceIsFirm(form, m, k, o + 1);
      IdentifierIsFirm(form, m, k, DecNamespace(form, Some(m[..k]), o + 1).next);
    }
  }

  lemma ObjectIsFirm(m: bytes, k: nat, o: nat)
    requires k <= |m|
    ensures
      var r := DecExtensionObject(Some(m[..k]), o);
      r.Got? ==>
        DecExtensionObject(Some(m), o) == r
        || (r.value.typeId.id == Text([]) && k < DecNodeId(Some(m[..k]), o).next + 4)
  {
    hide DecWord, DecNodeId, DecByteString;
    NodeIdIsFirm(m, k, o);
    var node := DecNodeId(Some(m[..k]), o);
    WordIsFirm(1, m, k, node.next);
    ByteStringIsFirm(m, k, node.next + 1);
  }

  /** The form of a node id is known from its first byte on. */
  lemma FormCut(n: NodeId, m: bytes, k: nat)
    requires EncNodeId(n).ok && Sits(Some(m), 0, EncNodeId(n).bytes) && 1 <= k <= |m|
    ensures DecU8(Some(m[..k]), 0) == Got(ChooseForm(n.ns, n.id), 1) && ChooseForm(n.ns, n.id) < 6
  {
    NodeIdBytes(n);
    var form := ChooseForm(n.ns, n.id);
    FirstByte(EncNodeId(n).bytes, Some(m), 0);
    OneByte(form);
    assert m[..k][0..1] == [form];
    U8Restored(form, Some(m[..k]), 0);
  }

  lemma TextNodeIdParts(n: NodeId, m: bytes)
    requires EncNodeId(n).ok && n.id.Text? && Sits(Some(m), 0, EncNodeId(n).bytes)
    ensures
      var id := EncString(Some(n.id.utf8));
      && id.ok && n.id.utf8 != [] && |EncNodeId(n).bytes| == 3 + |id.bytes|
      && Sits(Some(m), 0, EncU8(0x03).bytes) && Sits(Some(m), 1, EncU16(n.ns).bytes) && Sits(Some(m), 3, id.bytes)
  {
    hide EncString;
    SitsThen3(Some(m), 0, EncU8(0x03), EncU16(n.ns), EncString(Some(n.id.utf8)));
  }

  /** A text node id whose length word is cut is read as the empty one of the same namespace. */
  lemma TextNodeIdCut(n: NodeId, m: bytes, k: nat)
    requires EncNodeId(n).ok && NodeIdSized(n) && n.id.Text? && Sits(Some(m), 0, EncNodeId(n).bytes) && k <= |m|
    ensures
      var r := DecNodeId(Some(m[..k]), 0);
      && (3 <= k < 7 ==> r == Got(NodeId(n.ns, Text([])), 3))
      && (k < 3 || 7 <= k < |EncNodeId(n).bytes| ==> r.Failed?)
  {
    TextNodeIdParts(n, m);
    if k >= 1 {
      FormCut(n, m, k);
      hide EncNodeId, EncString, DecString, DecU8, DecU16, Written.Then;
      U16Restored(n.ns, Some(m), 1);
      NamespaceIsFirm(0x03, m, k, 1);
      StringCut(Some(n.id.utf8), m, 3, k);
    }
  }

  lemma OtherFormCut(n: NodeId, m: bytes, k: nat)
    requires EncNodeId(n).ok && !n.id.Text? && Sits(Some(m), 0, EncNodeId(n).bytes) && k <= |m|
    ensures
      var r := DecNodeId(Some(m[..k]), 0);
      r.Got? ==> !r.value.id.Text?
  {
    if k >= 1 {
      FormCut(n, m, k);
      hide EncNodeId, DecU8, DecU16, DecU32, DecString, DecByteString, DecGuid;
    }
  }

  /** Any other node id without its last bytes is refused. */
  lemma OtherNodeIdCut(n: NodeId, m: bytes, k: nat)
    requires EncNodeId(n).ok && NodeIdSized(n) && !n.id.Text? && Sits(Some(m), 0, EncNodeId(n).bytes) && k <= |m|
    ensures k < |EncNodeId(n).bytes| ==> DecNodeId(Some(m[..k]), 0).Failed?
  {
    OtherFormCut(n, m, k);
    NodeIdIsFirm(m, k, 0);
    NodeIdRestored(n, Some(m), 0);
    NodeIdInside(Some(m[..k]), 0);
    hide EncNodeId, DecNodeId;
  }

  lemma StringHead(t: bytes)
    ensures EncString(Some(t)).ok && StringSized(Some(t)) && t != [] ==>
              |EncString(Some(t)).bytes| >= 5 && EncString(Some(t)).bytes[0] == |t| % 256
  {
    NarrowFits(|t|);
    hide Narrow32, Utf16Size, WellFormed;
    if |t| <= MAX_INT32 {
      assert EncI32(|t|).bytes[0] == |t| % 256;
    }
  }

  /** The length word of a text type id starts with its low byte, behind the form and the namespace. */
  lemma LengthByte(n: NodeId, m: bytes)
    ensures EncNodeId(n).ok && NodeIdSized(n) && n.id.Text? && Sits(Some(m), 0, EncNodeId(n).bytes) ==>
              |m| >= 8 && m[3] == |n.id.utf8| % 256
  {
    if EncNodeId(n).ok && NodeIdSized(n) && n.id.Text? && Sits(Some(m), 0, EncNodeId(n).bytes) {
      TextNodeIdParts(n, m);
      StringHead(n.id.utf8);
      hide EncNodeId, EncString;
      FirstByte(EncString(Some(n.id.utf8)).bytes, Some(m), 3);
    }
  }

  /** What is left of a cut length word is read as the encoding of the body. */
  lemma EncodingCut(m: bytes, k: nat)
    requires 3 <= k < 7 && k <= |m|
    ensures
      var r := DecEncoding(Some(m[..k]), 3);
      && (r.Got? && r.value.NoBody? <==> k >= 4 && m[3] == 0)
      && (r.Got? ==> DecBody(r.value, Some(m[..k]), r.next).Got? == r.value.NoBody?)
  {
    if k >= 4 {
      OneByte(m[3]);
      assert m[..k][3..4] == [m[3]];
      U8Restored(m[3], Some(m[..k]), 3);
    }
  }

  /** A byte string without its last bytes is refused, even one whose single byte was not written. */
  lemma ByteStringCut(b: ByteArray, m: bytes, o: nat, k: nat)
    requires k <= |m|
    ensures
      var e := EncByteString(b);
      e.ok && Sits(Some(m), o, e.bytes) && o <= k < o + |e.bytes| ==> DecByteString(Some(m[..k]), o).Failed?
  {
    var e := EncByteString(b);
    if e.ok && Sits(Some(m), o, e.bytes) && o + 4 <= k < o + |e.bytes| {
      LengthThenContent(|b.value|, b.value, Some(m), o);
      IntegersAreFirm(m, k, o);
    }
  }

  /** Behind a whole type id, every cut is noticed. */
  lemma BodyCut(x: ExtensionObject, m: bytes, k: nat)
    requires EncExtensionObject(x).ok && NodeIdSized(x.typeId) && Sits(Some(m), 0, EncExtensionObject(x).bytes)
    requires |EncNodeId(x.typeId).bytes| <= k < |EncExtensionObject(x).bytes|
    ensures DecExtensionObject(Some(m[..k]), 0).Failed?
  {
    hide EncNodeId, DecNodeId, EncByteString, DecByteString, EncU8;
    var node := EncNodeId(x.typeId);
    SitsThen3(Some(m), 0, node, EncU8(EncodingByte(x.encoding)), EncBody(x.encoding, x.body));
    U8Size(EncodingByte(x.encoding));
    hide Written.Then, EncExtensionObject;
    assert m[..k][0..|node.bytes|] == m[0..|node.bytes|];
    NodeIdRestored(x.typeId, Some(m[..k]), 0);
    EncodingRestored(x.encoding, Some(m), |node.bytes|);
    WordIsFirm(1, m, k, |node.bytes|);
    ByteStringCut(x.body, m, |node.bytes| + 1, k);
  }

  /**
   An extension object: the prefixes that stop inside the length word of a text type id whose low byte, read as the
   encoding, says that there is no body.
   */
  lemma ObjectPrefixes(x: ExtensionObject, k: nat)
    requires EncExtensionObject(x).ok && NodeIdSized(x.typeId) && k < |EncExtensionObject(x).bytes|
    ensures DecExtensionObject(Some(EncExtensionObject(x).bytes[..k]), 0).Got? <==>
              4 <= k < 7 && x.typeId.id.Text? && |x.typeId.id.utf8| % 256 == 0
  {
    var e := EncExtensionObject(x).bytes;
    assert e[0..|e|] == e;
    if k >= |EncNodeId(x.typeId).bytes| {
      BodyCut(x, e, k);
    }
    SitsThen3(Some(e), 0, EncNodeId(x.typeId), EncU8(EncodingByte(x.encoding)), EncBody(x.encoding, x.body));
    hide EncNodeId, DecNodeId, EncExtensionObject, EncBody, DecBody, DecEncoding, Sits, Written.Then;
    if x.typeId.id.Text? {
      TextNodeIdCut(x.typeId, e, k);
    } else {
      OtherNodeIdCut(x.typeId, e, k);
    }
    LengthByte(x.typeId, e);
    if 3 <= k < 7 {
      EncodingCut(e, k);
    }
  }
}
