/** The encoding object itself: a buffer it appends to and an offset it reads from. */
module BinaryDataEncoding {
  import opened Wrappers
  import opened Bytes
  import opened Wire
  import opened DateTimes

  /** What an encode call did to the buffer. Without a buffer every encode fails. */
  ghost predicate Appended(before: Buffer, w: Written, after: Buffer, ok: bool) {
    if before.None? then after.None? && !ok
    else after.Some? && after.value == before.value + w.bytes && ok == w.ok
  }

  /** What a decode call returned, together with the offset it left. */
  function Outcome<T>(r: Option<T>, next: nat): Read<T> {
    match r
    case Some(v) => Got(v, next)
    case None => Failed(next)
  }

  lemma AppendThen(before: Buffer, a: Written, between: Buffer, b: Written, after: Buffer, ok: bool)
    requires Appended(before, a, between, true) && Appended(between, b, after, ok)
    ensures Appended(before, a.Then(b), after, ok)
  {
    assert before.value + a.bytes + b.bytes == before.value + (a.bytes + b.bytes);
  }

  lemma FailureStays()
    ensures forall a: Written, b: Written :: !a.ok ==> a.Then(b) == a
  {
  }

  class BinaryDataEncoding {
    var data: Buffer
    var offset: int

    constructor (buffer: Buffer)
      ensures data == buffer && offset == 0
    {
      data := buffer;
      offset := 0;
    }

    method EnoughData(requiredSize: int) returns (enough: bool)
      ensures enough <==> data.Some? && |data.value| - offset >= requiredSize
    {
      enough := data.Some? && |data.value| - offset >= requiredSize;
    }

    method SetOffset(newOffset: int)
      modifies this`offset
      ensures offset == newOffset
    {
      offset := newOffset;
    }

    method TruncateBufferToOffset()
      modifies this`data
      ensures data.None? <==> old(data).None?
      ensures data.Some? ==> data.value == Truncated(old(data).value, offset)
    {
      if data.None? {
        return;
      }
      if offset < |data.value| - 1 {
        data := Some(Resized(data.value, offset + 1));
      }
    }

    // ---------------------------------------------------------------- decoding

    method DecodeWord(w: nat) returns (r: Option<nat>)
      requires offset >= 0
      modifies this`offset
      ensures offset >= 0 && Outcome(r, offset) == DecWord(w, data, old(offset))
    {
      var enough := EnoughData(w);
      if enough {
        r := Some(FromLittleEndian(data.value[offset..offset + w]));
        offset := offset + w;
      } else {
        r := None;
      }
    }

    method DecodeU8() returns (r: Option<byte>)
      requires offset >= 0
      modifies this`offset
      ensures offset >= 0 && Outcome(r, offset) == DecU8(data, old(offset))
    {
      Widths();
      var v :- DecodeWord(1);
      return Some(v);
    }

    method DecodeU16() returns (r: Option<u16>)
      requires offset >= 0
      modifies this`offset
      ensures offset >= 0 && Outcome(r, offset) == DecU16(data, old(offset))
    {
      Widths();
      var v :- DecodeWord(2);
      return Some(v);
    }

    method DecodeU32() returns (r: Option<u32>)
      requires offset >= 0
      modifies this`offset
      ensures offset >= 0 && Outcome(r, offset) == DecU32(data, old(offset))
    {
      Widths();
      var v :- DecodeWord(4);
      return Some(v);
    }

    method DecodeU64() returns (r: Option<u64>)
      requires offset >= 0
      modifies this`offset
      ensures offset >= 0 && Outcome(r, offset) == DecU64(data, old(offset))
    {
      Widths();
      var v :- DecodeWord(8);
      return Some(v);
    }

    method DecodeI32() returns (r: Option<i32>)
      requires offset >= 0
      modifies this`offset
      ensures offset >= 0 && Outcome(r, offset) == DecI32(data, old(offset))
    {
      var v :- DecodeU32();
      return Some(AsSigned32(v));
    }

    method DecodeI64() returns (r: Option<i64>)
      requires offset >= 0
      modifies this`offset
      ensures offset >= 0 && Outcome(r, offset) == DecI64(data, old(offset))
    {
      var v :- DecodeU64();
      return Some(AsSigned64(v));
    }

    method DecodeString() returns (r: Option<QString>)
      requires offset >= 0
      modifies this`offset
      ensures offset >= 0 && Outcome(r, offset) == DecString(data, old(offset))
    {
      if data.None? { return None; }
      var l := DecodeI32();
      var length := l.GetOr(0);  // the outcome of reading the length is not looked at
      var enough := EnoughData(length);
      if length > 0 && !enough { return None; }
      if length > 0 {
        r := Some(Some(FromUtf8(data.value[offset..offset + length])));
        offset := offset + length;
      } else if length == 0 {
        r := Some(Some([]));
      } else if length == -1 {
        r := Some(None);
      } else {
        r := None;
      }
    }

    method DecodeByteString() returns (r: Option<ByteArray>)
      requires offset >= 0
      modifies this`offset
      ensures offset >= 0 && Outcome(r, offset) == DecByteString(data, old(offset))
    {
      if data.None? { return None; }
      var size :- DecodeI32();
      var enough := EnoughData(size);
      if size > 0 && enough {
        r := Some(Some(data.value[offset..offset + size]));
        offset := offset + size;
      } else if size == 0 {
        r := Some(Some([]));
      } else if size == -1 {
        r := Some(None);
      } else {
        r := None;
      }
    }

    method DecodeQualifiedName() returns (r: Option<QualifiedName>)
      requires offset >= 0
      modifies this`offset
      ensures offset >= 0 && Outcome(r, offset) == DecQualifiedName(data, old(offset))
    {
      hide DecString, DecU16;
      var ns :- DecodeU16();
      var name :- DecodeString();
      return Some(QualifiedName(ns, name));
    }

    method DecodeLocalizedText() returns (r: Option<LocalizedText>)
      requires offset >= 0
      modifies this`offset
      ensures offset >= 0 && Outcome(r, offset) == DecLocalizedText(data, old(offset))
    {
      hide DecString, DecU8;
      var locale, text: QString := None, None;
      var encodingMask :- DecodeU8();
      if HasFlag(encodingMask, 0x01) {
        locale :- DecodeString();
      }
      if HasFlag(encodingMask, 0x02) {
        text :- DecodeString();
      }
      return Some(LocalizedText(locale, text));
    }

    method DecodeEUInformation() returns (r: Option<EUInformation>)
      requires offset >= 0
      modifies this`offset
      ensures offset >= 0 && Outcome(r, offset) == DecEUInformation(data, old(offset))
    {
      hide DecString, DecI32, DecLocalizedText;
      var uri :- DecodeString();
      var unit :- DecodeI32();
      var displayName :- DecodeLocalizedText();
      var description :- DecodeLocalizedText();
      return Some(EUInformation(uri, unit, displayName, description));
    }

    method DecodeRange() returns (r: Option<Range>)
      requires offset >= 0
      modifies this`offset
      ensures offset >= 0 && Outcome(r, offset) == DecRange(data, old(offset))
    {
      hide DecU64;
      var low :- DecodeU64();
      var high :- DecodeU64();
      return Some(Range(low, high));
    }

    method DecodeDoubles() returns (r: Option<seq<Double>>)
      requires offset >= 0
      modifies this`offset
      ensures offset >= 0 && Outcome(r, offset) == DecArray(DecU64, data, old(offset))
    {
      hide DecU64;
      var temp: seq<Double> := [];
      var size :- DecodeI32();
      ghost var start := offset;
      HalfReadStart(DecU64, size, data, start);
      var i := 0;
      while i < size
        invariant offset >= 0 && HalfRead(DecU64, size, data, start, temp, i, offset)
      {
        HalfReadStep(DecU64, size, data, start, temp, i, offset);
        var item :- DecodeU64();
        temp := temp + [item];
        i := i + 1;
      }
      HalfReadEnd(DecU64, size, data, start, temp, i, offset);
      return Some(temp);
    }

    method DecodeU32s() returns (r: Option<seq<u32>>)
      requires offset >= 0
      modifies this`offset
      ensures offset >= 0 && Outcome(r, offset) == DecArray(DecU32, data, old(offset))
    {
      hide DecU32;
      var temp: seq<u32> := [];
      var size :- DecodeI32();
      ghost var start := offset;
      HalfReadStart(DecU32, size, data, start);
      var i := 0;
      while i < size
        invariant offset >= 0 && HalfRead(DecU32, size, data, start, temp, i, offset)
      {
        HalfReadStep(DecU32, size, data, start, temp, i, offset);
        var item :- DecodeU32();
        temp := temp + [item];
        i := i + 1;
      }
      HalfReadEnd(DecU32, size, data, start, temp, i, offset);
      return Some(temp);
    }

    method DecodeLocalizedTexts() returns (r: Option<seq<LocalizedText>>)
      requires offset >= 0
      modifies this`offset
      ensures offset >= 0 && Outcome(r, offset) == DecArray(DecLocalizedText, data, old(offset))
    {
      hide DecLocalizedText;
      var temp: seq<LocalizedText> := [];
      var size :- DecodeI32();
      ghost var start := offset;
      HalfReadStart(DecLocalizedText, size, data, start);
      var i := 0;
      while i < size
        invariant offset >= 0 && HalfRead(DecLocalizedText, size, data, start, temp, i, offset)
      {
        HalfReadStep(DecLocalizedText, size, data, start, temp, i, offset);
        var item :- DecodeLocalizedText();
        temp := temp + [item];
        i := i + 1;
      }
      HalfReadEnd(DecLocalizedText, size, data, start, temp, i, offset);
      return Some(temp);
    }

    method DecodeStrings() returns (r: Option<seq<QString>>)
      requires offset >= 0
      modifies this`offset
      ensures offset >= 0 && Outcome(r, offset) == DecArray(DecString, data, old(offset))
    {
      hide DecString;
      var temp: seq<QString> := [];
      var size :- DecodeI32();
      ghost var start := offset;
      HalfReadStart(DecString, size, data, start);
      var i := 0;
      while i < size
        invariant offset >= 0 && HalfRead(DecString, size, data, start, temp, i, offset)
      {
        HalfReadStep(DecString, size, data, start, temp, i, offset);
        var item :- DecodeString();
        temp := temp + [item];
        i := i + 1;
      }
      HalfReadEnd(DecString, size, data, start, temp, i, offset);
      return Some(temp);
    }

    method DecodeAxisInformation() returns (r: Option<AxisInformation>)
      requires offset >= 0
      modifies this`offset
      ensures offset >= 0 && Outcome(r, offset) == DecAxisInformation(data, old(offset))
    {
      hide DecEUInformation, DecRange, DecLocalizedText, DecU32, DecArray;
      var engineeringUnits :- DecodeEUInformation();
      var range :- DecodeRange();
      var title :- DecodeLocalizedText();
      var axisScaleType :- DecodeU32();
      var axisSteps :- DecodeDoubles();
      return Some(AxisInformation(engineeringUnits, range, title, axisScaleType, axisSteps));
    }

    method DecodeDateTime() returns (r: Option<Option<Instant>>)
      requires offset >= 0
      modifies this`offset
      ensures offset >= 0 && Outcome(r, offset) == DecDateTime(data, old(offset))
    {
      hide DecI64;
      var timestamp :- DecodeI64();
      if timestamp == 0 || timestamp == MAX_INT64 { return Some(None); }
      return Some(Some(UA_EPOCH + Quotient(timestamp, 10000)));
    }

    method DecodeGuid() returns (r: Option<Guid>)
      requires offset >= 0
      modifies this`offset
      ensures offset >= 0 && Outcome(r, offset) == DecGuid(data, old(offset))
    {
      var enough := EnoughData(16);
      if data.None? || !enough { return None; }
      var data1 :- DecodeU32();
      var data2 :- DecodeU16();
      var data3 :- DecodeU16();
      var data4 := data.value[offset..offset + 8];
      offset := offset + 8;
      return Some(Guid(data1, data2, data3, data4));
    }

    method DecodeNodeId() returns (r: Option<NodeId>)
      requires offset >= 0
      modifies this`offset
      ensures offset >= 0 && Outcome(r, offset) == DecNodeId(data, old(offset))
    {
      hide DecString, DecGuid, DecByteString, DecU8, DecU16, DecU32;
      var first :- DecodeU8();
      var identifierType := first % 0x40;
      var ns: u16;
      if identifierType == 0x00 {
        ns := 0;
      } else if identifierType == 0x01 {
        ns :- DecodeU8();
      } else {
        ns :- DecodeU16();
      }
      if identifierType == 0x00 {
        var i :- DecodeU8();
        return Some(NodeId(ns, Numeric(i)));
      } else if identifierType == 0x01 {
        var i :- DecodeU16();
        return Some(NodeId(ns, Numeric(i)));
      } else if identifierType == 0x02 {
        var i :- DecodeU32();
        return Some(NodeId(ns, Numeric(i)));
      } else if identifierType == 0x03 {
        var s :- DecodeString();
        return Some(NodeId(ns, Text(Content(s))));
      } else if identifierType == 0x04 {
        var g :- DecodeGuid();
        return Some(NodeId(ns, Unique(g)));
      } else if identifierType == 0x05 {
        var b :- DecodeByteString();
        return Some(NodeId(ns, Opaque(Content(b))));
      }
      return None;
    }

    method DecodeExpandedNodeId() returns (r: Option<ExpandedNodeId>)
      requires offset >= 0
      modifies this`offset
      ensures offset >= 0 && Outcome(r, offset) == DecExpandedNodeId(data, old(offset))
    {
      hide DecString, DecNodeId, DecU32;
      var enough := EnoughData(1);
      if data.None? || !enough { return None; }
      var hasNamespaceUri := HasFlag(data.value[offset], 0x80);
      var hasServerIndex := HasFlag(data.value[offset], 0x40);
      var nodeId :- DecodeNodeId();
      var namespaceUri: QString := None;
      if hasNamespaceUri {
        namespaceUri :- DecodeString();
      }
      var serverIndex: u32 := 0;
      if hasServerIndex {
        serverIndex :- DecodeU32();
      }
      return Some(ExpandedNodeId(namespaceUri, nodeId, serverIndex));
    }

    method DecodeExtensionObject() returns (r: Option<ExtensionObject>)
      requires offset >= 0
      modifies this`offset
      ensures offset >= 0 && Outcome(r, offset) == DecExtensionObject(data, old(offset))
    {
      hide DecNodeId, DecByteString, DecU8;
      var typeId :- DecodeNodeId();
      var encoding :- DecodeU8();
      if encoding > 2 { return None; }
      if encoding == 0 {
        return Some(ExtensionObject(typeId, NoBody, None));
      }
      var body :- DecodeByteString();
      return Some(ExtensionObject(typeId, if encoding == 1 then ByteString else Xml, body));
    }

    method DecodeArgument() returns (r: Option<Argument>)
      requires offset >= 0
      modifies this`offset
      ensures offset >= 0 && Outcome(r, offset) == DecArgument(data, old(offset))
    {
      hide DecString, DecNodeId, DecI32, DecArray, DecLocalizedText;
      var name :- DecodeString();
      var dataTypeId :- DecodeNodeId();
      var valueRank :- DecodeI32();
      var arrayDimensions :- DecodeU32s();
      var description :- DecodeLocalizedText();
      return Some(Argument(name, dataTypeId, valueRank, arrayDimensions, description));
    }

    method DecodeApplicationRecord() returns (r: Option<ApplicationRecord>)
      requires offset >= 0
      modifies this`offset
      ensures offset >= 0 && Outcome(r, offset) == DecApplicationRecord(data, old(offset))
    {
      hide DecNodeId, DecString, DecU32, DecArray, DecLocalizedText;
      var applicationId :- DecodeNodeId();
      var applicationUri :- DecodeString();
      var applicationType :- DecodeU32();
      var applicationNames :- DecodeLocalizedTexts();
      var productUri :- DecodeString();
      var discoveryUrls :- DecodeStrings();
      var serverCapabilities :- DecodeStrings();
      return Some(ApplicationRecord(applicationId, applicationUri, applicationType, applicationNames,
                                    productUri, discoveryUrls, serverCapabilities));
    }

    // ---------------------------------------------------------------- encoding

    method EncodeWord(w: nat, v: nat) returns (ok: bool)
      modifies this`data
      ensures Appended(old(data), EncWord(w, v), data, ok)
    {
      if data.None? { return false; }
      data := Some(data.value + ToLittleEndian(w, v));
      return true;
    }

    method EncodeI32(v: i32) returns (ok: bool)
      modifies this`data
      ensures Appended(old(data), EncI32(v), data, ok)
    {
      ok := EncodeWord(4, AsUnsigned32(v));
    }

    method EncodeI64(v: i64) returns (ok: bool)
      modifies this`data
      ensures Appended(old(data), EncI64(v), data, ok)
    {
      ok := EncodeWord(8, AsUnsigned64(v));
    }

    method EncodeString(s: QString) returns (ok: bool)
      modifies this`data
      ensures Appended(old(data), EncString(s), data, ok)
    {
      hide EncI32;
      if data.None? || Utf16Size(Content(s)) > MAX_INT32 { return false; }
      var length: i32 := if s.None? then -1 else Narrow32(|s.value|);
      ok := EncodeI32(length);
      if !ok { return; }
      data := Some(data.value + Content(s));
    }

    method EncodeByteString(b: ByteArray) returns (ok: bool)
      modifies this`data
      ensures Appended(old(data), EncByteString(b), data, ok)
    {
      hide EncI32;
      if data.None? || |Content(b)| > MAX_INT32 { return false; }
      var length: i32 := if b.None? then -1 else |b.value|;
      ok := EncodeI32(length);
      if !ok { return; }
      if |Content(b)| > 1 {
        data := Some(data.value + Content(b));
      }
    }

    method EncodeQualifiedName(q: QualifiedName) returns (ok: bool)
      modifies this`data
      ensures Appended(old(data), EncQualifiedName(q), data, ok)
    {
      hide EncString;
      ok := EncodeWord(2, q.namespaceIndex);
      if !ok { return; }
      ok := EncodeString(q.name);
    }

    method EncodeLocalizedText(t: LocalizedText) returns (ok: bool)
      modifies this`data
      ensures Appended(old(data), EncLocalizedText(t), data, ok)
    {
      hide EncString;
      ok := EncodeWord(1, TextMask(t));
      if !ok { return; }
      if Content(t.locale) != [] {
        ok := EncodeString(t.locale);
      }
      if !ok { return; }
      if Content(t.text) != [] {
        ok := EncodeString(t.text);
      }
    }

    method EncodeRange(r: Range) returns (ok: bool)
      modifies this`data
      ensures Appended(old(data), EncRange(r), data, ok)
    {
      ok := EncodeWord(8, r.low);
      if !ok { return; }
      ok := EncodeWord(8, r.high);
    }

    method EncodeEUInformation(u: EUInformation) returns (ok: bool)
      modifies this`data
      ensures Appended(old(data), EncEUInformation(u), data, ok)
    {
      hide EncString, EncI32, EncLocalizedText;
      ok := EncodeString(u.namespaceUri);
      if !ok { return; }
      ok := EncodeI32(u.unitId);
      if !ok { return; }
      ok := EncodeLocalizedText(u.displayName);
      if !ok { return; }
      ok := EncodeLocalizedText(u.description);
    }

    method EncodeDoubles(xs: seq<Double>) returns (ok: bool)
      modifies this`data
      ensures Appended(old(data), EncArray(EncU64, xs), data, ok)
    {
      hide EncI32;
      if data.None? || |xs| > MAX_INT32 { return false; }
      ghost var d0 := data;
      ok := EncodeI32(|xs|);
      if !ok { return; }
      HalfWrittenStart(EncU64, xs, d0, data);
      for i := 0 to |xs|
        invariant ok && HalfWritten(EncU64, xs, i, d0, data)
      {
        ghost var d := data;
        ok := EncodeWord(8, xs[i]);
        HalfWrittenStep(EncU64, xs, i, d0, d, data, ok);
        if !ok { return; }
      }
      assert xs[..|xs|] == xs;
    }

    method EncodeU32s(xs: seq<u32>) returns (ok: bool)
      modifies this`data
      ensures Appended(old(data), EncArray(EncU32, xs), data, ok)
    {
      hide EncI32;
      if data.None? || |xs| > MAX_INT32 { return false; }
      ghost var d0 := data;
      ok := EncodeI32(|xs|);
      if !ok { return; }
      HalfWrittenStart(EncU32, xs, d0, data);
      for i := 0 to |xs|
        invariant ok && HalfWritten(EncU32, xs, i, d0, data)
      {
        ghost var d := data;
        ok := EncodeWord(4, xs[i]);
        HalfWrittenStep(EncU32, xs, i, d0, d, data, ok);
        if !ok { return; }
      }
      assert xs[..|xs|] == xs;
    }

    method EncodeLocalizedTexts(xs: seq<LocalizedText>) returns (ok: bool)
      modifies this`data
      ensures Appended(old(data), EncArray(EncLocalizedText, xs), data, ok)
    {
      hide EncLocalizedText, EncI32;
      if data.None? || |xs| > MAX_INT32 { return false; }
      ghost var d0 := data;
      ok := EncodeI32(|xs|);
      if !ok { return; }
      HalfWrittenStart(EncLocalizedText, xs, d0, data);
      for i := 0 to |xs|
        invariant ok && HalfWritten(EncLocalizedText, xs, i, d0, data)
      {
        ghost var d := data;
        ok := EncodeLocalizedText(xs[i]);
        HalfWrittenStep(EncLocalizedText, xs, i, d0, d, data, ok);
        if !ok { return; }
      }
      assert xs[..|xs|] == xs;
    }

    method EncodeStrings(xs: seq<QString>) returns (ok: bool)
      modifies this`data
      ensures Appended(old(data), EncArray(EncString, xs), data, ok)
    {
      hide EncString, EncI32;
      if data.None? || |xs| > MAX_INT32 { return false; }
      ghost var d0 := data;
      ok := EncodeI32(|xs|);
      if !ok { return; }
      HalfWrittenStart(EncString, xs, d0, data);
      for i := 0 to |xs|
        invariant ok && HalfWritten(EncString, xs, i, d0, data)
      {
        ghost var d := data;
        ok := EncodeString(xs[i]);
        HalfWrittenStep(EncString, xs, i, d0, d, data, ok);
        if !ok { return; }
      }
      assert xs[..|xs|] == xs;
    }

    method EncodeAxisInformation(a: AxisInformation) returns (ok: bool)
      modifies this`data
      ensures Appended(old(data), EncAxisInformation(a), data, ok)
    {
      hide EncEUInformation, EncRange, EncLocalizedText, EncArray;
      ok := EncodeEUInformation(a.engineeringUnits);
      if !ok { return; }
      ok := EncodeRange(a.range);
      if !ok { return; }
      ok := EncodeLocalizedText(a.title);
      if !ok { return; }
      ok := EncodeWord(4, a.axisScaleType);
      if !ok { return; }
      ok := EncodeDoubles(a.axisSteps);
    }

    /** `cutoff` is the instant of noon, less one second, of the last day of 9999 in the local time zone. */
    method EncodeDateTime(src: Instant, cutoff: Instant) returns (ok: bool)
      modifies this`data
      ensures Appended(old(data), EncDateTime(cutoff, src), data, ok)
    {
      if src >= cutoff {
        ok := EncodeI64(MAX_INT64);
        return;
      }
      if src <= UA_EPOCH {
        ok := EncodeI64(0);
        return;
      }
      var timestamp := Wrap64(10000 * (src - UA_EPOCH));
      ok := EncodeI64(timestamp);
    }

    method EncodeGuid(g: Guid) returns (ok: bool)
      modifies this`data
      ensures Appended(old(data), EncGuid(g), data, ok)
    {
      ok := EncodeWord(4, g.data1);
      if !ok { return; }
      ok := EncodeWord(2, g.data2);
      if !ok { return; }
      ok := EncodeWord(2, g.data3);
      if !ok { return; }
      data := Some(data.value + g.data4);
    }

    /** The identifier goes to a buffer of its own first; nothing is appended if it is refused. */
    method EncodeNodeId(n: NodeId) returns (ok: bool)
      modifies this`data
      ensures Appended(old(data), EncNodeId(n), data, ok)
    {
      hide EncString, EncGuid, EncByteString;
      if data.None? || n.Malformed? { return false; }
      var encoder := new BinaryDataEncoding(Some([]));
      var encodingType: byte;
      match n.id {
        case Numeric(value) =>
          if value > 0xFFFF_FFFF { return false; }
          if value <= 255 && n.ns == 0 {
            ok := encoder.EncodeWord(1, value);
            encodingType := 0x00;
          } else if value <= 65535 && n.ns <= 255 {
            ok := encoder.EncodeWord(2, value);
            encodingType := 0x01;
          } else {
            ok := encoder.EncodeWord(4, value);
            encodingType := 0x02;
          }
        case Text(t) =>
          if t == [] || SEMICOLON in t { return false; }
          ok := encoder.EncodeString(Some(t));
          encodingType := 0x03;
        case Unique(g) =>
          if g.IsNull() { return false; }
          ok := encoder.EncodeGuid(g);
          encodingType := 0x04;
        case Opaque(b) =>
          if b == [] { return false; }
          ok := encoder.EncodeByteString(Some(b));
          encodingType := 0x05;
      }
      assert encodingType == ChooseForm(n.ns, n.id);
      ghost var identifier := EncIdentifier(encodingType, n.id);
      assert encoder.data.value == identifier.bytes && ok == identifier.ok;
      hide EncIdentifier, ChooseForm;
      if !ok { return; }
      ghost var d0 := data;
      ok := EncodeWord(1, encodingType);
      if !ok { return; }
      ghost var w1, d1 := EncU8(encodingType), data;
      if encodingType == 0x00 {
      } else if encodingType == 0x01 {
        ok := EncodeWord(1, n.ns);
      } else {
        ok := EncodeWord(2, n.ns);
      }
      AppendThen(d0, w1, d1, EncNamespace(encodingType, n.ns), data, ok);
      if !ok { return; }
      ghost var w2, d2 := w1.Then(EncNamespace(encodingType, n.ns)), data;
      data := Some(data.value + encoder.data.value);
      AppendThen(d0, w2, d2, identifier, data, true);
    }

    /** The flags are patched into the first byte after everything else has been encoded. */
    method EncodeExpandedNodeId(x: ExpandedNodeId) returns (ok: bool)
      modifies this`data
      ensures Appended(old(data), EncExpandedNodeId(x), data, ok)
    {
      hide EncNodeId, EncString, EncExpandedNodeId;
      if data.None? { return false; }
      var encoder := new BinaryDataEncoding(Some([]));
      ok := encoder.EncodeNodeId(x.nodeId);
      NodeIdAllOrNothing(x.nodeId);
      ExpandedBytes(x);
      hide Written.Then;
      if !ok { return; }
      ghost var node, empty := EncNodeId(x.nodeId), Some([]);
      var mask := encoder.data.value[0];
      ghost var d1 := encoder.data;
      if Content(x.namespaceUri) != [] {
        mask := SetFlag(mask, 0x80);
        ok := encoder.EncodeString(x.namespaceUri);
      }
      AppendThen(empty, node, d1, EncPart(x.namespaceUri), encoder.data, ok);
      if !ok { return; }
      ghost var d2 := encoder.data;
      if x.serverIndex != 0 {
        mask := SetFlag(mask, 0x40);
        ok := encoder.EncodeWord(4, x.serverIndex);
      }
      AppendThen(empty, node.Then(EncPart(x.namespaceUri)), d2, EncServerIndex(x.serverIndex), encoder.data, ok);
      if !ok { return; }
      var temp := encoder.data.value[0 := mask];
      data := Some(data.value + temp);
    }

    method EncodeExtensionObject(x: ExtensionObject) returns (ok: bool)
      modifies this`data
      ensures Appended(old(data), EncExtensionObject(x), data, ok)
    {
      hide EncNodeId, EncByteString;
      ok := EncodeNodeId(x.typeId);
      if !ok { return; }
      ok := EncodeWord(1, EncodingByte(x.encoding));
      if !ok { return; }
      if x.encoding != NoBody {
        ok := EncodeByteString(x.body);
      }
    }

    method EncodeArgument(a: Argument) returns (ok: bool)
      modifies this`data
      ensures Appended(old(data), EncArgument(a), data, ok)
    {
      hide EncString, EncNodeId, EncI32, EncArray, EncLocalizedText;
      if data.None? { return false; }
      var encoder := new BinaryDataEncoding(Some([]));
      ok := encoder.EncodeString(a.name);
      if !ok { return; }
      ok := encoder.EncodeNodeId(a.dataTypeId);
      if !ok { return; }
      ok := encoder.EncodeI32(a.valueRank);
      if !ok { return; }
      ok := encoder.EncodeU32s(a.arrayDimensions);
      if !ok { return; }
      ok := encoder.EncodeLocalizedText(a.description);
      if !ok { return; }
      data := Some(data.value + encoder.data.value);
    }

    method EncodeApplicationRecord(a: ApplicationRecord) returns (ok: bool)
      modifies this`data
      ensures Appended(old(data), EncApplicationRecord(a), data, ok)
    {
      hide EncNodeId, EncString, EncArray, EncLocalizedText, Written.Then;
      FailureStays();
      ghost var d0 := data;
      ok := EncodeNodeId(a.applicationId);
      if !ok { return; }
      ghost var d, w := data, EncNodeId(a.applicationId);
      ok := EncodeString(a.applicationUri);
      AppendThen(d0, w, d, EncString(a.applicationUri), data, ok);
      if !ok { return; }
      d, w := data, w.Then(EncString(a.applicationUri));
      ok := EncodeWord(4, a.applicationType);
      AppendThen(d0, w, d, EncU32(a.applicationType), data, ok);
      if !ok { return; }
      d, w := data, w.Then(EncU32(a.applicationType));
      ok := EncodeLocalizedTexts(a.applicationNames);
      AppendThen(d0, w, d, EncArray(EncLocalizedText, a.applicationNames), data, ok);
      if !ok { return; }
      d, w := data, w.Then(EncArray(EncLocalizedText, a.applicationNames));
      ok := EncodeString(a.productUri);
      AppendThen(d0, w, d, EncString(a.productUri), data, ok);
      if !ok { return; }
      d, w := data, w.Then(EncString(a.productUri));
      ok := EncodeStrings(a.discoveryUrls);
      AppendThen(d0, w, d, EncArray(EncString, a.discoveryUrls), data, ok);
      if !ok { return; }
      d, w := data, w.Then(EncArray(EncString, a.discoveryUrls));
      ok := EncodeStrings(a.serverCapabilities);
      AppendThen(d0, w, d, EncArray(EncString, a.serverCapabilities), data, ok);
    }
  }

  /** QByteArray::truncate: a negative size empties the array. */
  function Resized(d: bytes, size: int): bytes
    requires size <= |d|
  {
    if size < 0 then [] else d[..size]
  }

  /** One byte more than the offset is kept; an offset at the last byte or behind it changes nothing. */
  function Truncated(d: bytes, offset: int): bytes {
    if offset >= |d| then d else if offset < 0 then [] else d[..offset + 1]
  }

  /** The end of a buffer that is cut back at `offset` is where `d` ended only in these cases. */
  lemma RollbackIff(d: bytes, e: bytes, offset: int)
    ensures Truncated(d + e, offset) == d <==>
              if e == [] then offset >= |d| - 1 || d == []
              else offset == |d| - 1 || (d == [] && offset < 0)
  {
    assert d + [] == d;
    if offset == |d| - 1 {
      assert (d + e)[..offset + 1] == d;
    }
  }

  /** The documented way to undo a failed encode, setting the offset from before, keeps one byte of it. */
  lemma DocumentedRollbackFails(d: bytes)
    ensures
      var w := EncArray(EncNodeId, [Malformed]);
      !w.ok && w.bytes == [1, 0, 0, 0] && Truncated(d + w.bytes, |d|) == d + [1]
  {
    var w := EncArray(EncNodeId, [Malformed]);
    assert ToLittleEndian(4, 1) == [1] + ([0] + ([0] + ([0] + ToLittleEndian(0, 0))));
    assert EncItems(EncNodeId, [Malformed]) == REFUSED;
    assert w.bytes == [1, 0, 0, 0] + [];
    assert (d + [1, 0, 0, 0])[..|d| + 1] == d + [1];
  }

  lemma NodeIdAllOrNothing(n: NodeId)
    ensures EncNodeId(n).ok ==> |EncNodeId(n).bytes| >= 2
    ensures !EncNodeId(n).ok ==> EncNodeId(n) == REFUSED
  {
  }

  /** An expanded node id is what its three parts append, with a patched first byte, or nothing. */
  lemma ExpandedBytes(x: ExpandedNodeId)
    ensures
      var node, uri := EncNodeId(x.nodeId), EncPart(x.namespaceUri);
      var parts := node.Then(uri).Then(EncServerIndex(x.serverIndex));
      EncExpandedNodeId(x) ==
      if !parts.ok then REFUSED
      else Written(parts.bytes[0 := FlaggedForm(node.bytes[0], Content(x.namespaceUri) != [], x.serverIndex != 0)], true)
    ensures EncNodeId(x.nodeId).ok ==> EncNodeId(x.nodeId).Then(EncPart(x.namespaceUri)).ok == EncPart(x.namespaceUri).ok
  {
    hide EncNodeId, EncPart, FlaggedForm;
  }

  // ---------------------------------------------------------------- array loops

  /** The outcome of reading further items behind those already in `xs`. */
  function Continued<T>(xs: seq<T>, r: Read<seq<T>>): Read<seq<T>> {
    match r
    case Got(ys, next) => Got(xs + ys, next)
    case Failed(next) => Failed(next)
  }

  function Count(size: i32): nat {
    if size < 0 then 0 else size
  }

  /** After `i` rounds the outcome of the whole array hangs on the items still to come. */
  ghost predicate HalfRead<T>(dec: Decoder<T>, size: i32, m: Buffer, start: nat, temp: seq<T>, i: int, at: nat) {
    && 0 <= i <= Count(size)
    && DecItems(dec, Count(size), m, start) == Continued(temp, DecItems(dec, Count(size) - i, m, at))
  }

  lemma HalfReadStart<T>(dec: Decoder<T>, size: i32, m: Buffer, start: nat)
    ensures HalfRead(dec, size, m, start, [], 0, start)
  {
    var r := DecItems(dec, Count(size), m, start);
    if r.Got? {
      assert [] + r.value == r.value;
    }
  }

  lemma HalfReadStep<T>(dec: Decoder<T>, size: i32, m: Buffer, start: nat, temp: seq<T>, i: int, at: nat)
    requires HalfRead(dec, size, m, start, temp, i, at) && i < size
    ensures
      var item := dec(m, at);
      if item.Got? then HalfRead(dec, size, m, start, temp + [item.value], i + 1, item.next)
      else DecItems(dec, Count(size), m, start) == Failed(item.next)
  {
    var item := dec(m, at);
    if item.Got? {
      var rest := DecItems(dec, Count(size) - i - 1, m, item.next);
      if rest.Got? {
        assert temp + ([item.value] + rest.value) == temp + [item.value] + rest.value;
      }
    }
  }

  lemma HalfReadEnd<T>(dec: Decoder<T>, size: i32, m: Buffer, start: nat, temp: seq<T>, i: int, at: nat)
    requires HalfRead(dec, size, m, start, temp, i, at) && i >= size
    ensures DecItems(dec, Count(size), m, start) == Got(temp, at)
  {
    assert temp + [] == temp;
  }

  lemma {:induction false} ItemsConcat<T>(enc: Encoder<T>, xs: seq<T>, ys: seq<T>)
    ensures EncItems(enc, xs + ys) == EncItems(enc, xs).Then(EncItems(enc, ys))
  {
    if xs == [] {
      assert xs + ys == ys;
      assert [] + EncItems(enc, ys).bytes == EncItems(enc, ys).bytes;
    } else {
      ItemsConcat(enc, xs[1..], ys);
      assert (xs + ys)[1..] == xs[1..] + ys;
      var a, b, c := enc(xs[0]).bytes, EncItems(enc, xs[1..]).bytes, EncItems(enc, ys).bytes;
      assert a + (b + c) == a + b + c;
    }
  }

  /** The length word and the first `i` items have been appended. */
  ghost predicate HalfWritten<T>(enc: Encoder<T>, xs: seq<T>, i: nat, before: Buffer, after: Buffer)
    requires i <= |xs| <= MAX_INT32
  {
    Appended(before, EncI32(|xs|).Then(EncItems(enc, xs[..i])), after, true)
  }

  lemma HalfWrittenStart<T>(enc: Encoder<T>, xs: seq<T>, before: Buffer, after: Buffer)
    requires |xs| <= MAX_INT32 && Appended(before, EncI32(|xs|), after, true)
    ensures HalfWritten(enc, xs, 0, before, after)
  {
    AppendThen(before, EncI32(|xs|), after, NOTHING, after, true);
  }

  lemma OneItem<T>(enc: Encoder<T>, x: T)
    ensures EncItems(enc, [x]) == enc(x)
  {
    assert [x][1..] == [];
    assert enc(x).bytes + [] == enc(x).bytes;
  }

  lemma ItemsSnoc<T>(enc: Encoder<T>, xs: seq<T>, i: nat)
    requires i < |xs|
    ensures EncItems(enc, xs[..i + 1]) == EncItems(enc, xs[..i]).Then(enc(xs[i]))
    ensures !EncItems(enc, xs[..i + 1]).ok ==> EncItems(enc, xs) == EncItems(enc, xs[..i + 1])
  {
    hide EncItems;
    OneItem(enc, xs[i]);
    ItemsConcat(enc, xs[..i], [xs[i]]);
    assert xs[..i] + [xs[i]] == xs[..i + 1];
    ItemsConcat(enc, xs[..i + 1], xs[i + 1..]);
    assert xs[..i + 1] + xs[i + 1..] == xs;
  }

  lemma ThenIsAssociative(a: Written, b: Written, c: Written)
    ensures a.Then(b).Then(c) == a.Then(b.Then(c))
  {
    assert a.bytes + b.bytes + c.bytes == a.bytes + (b.bytes + c.bytes);
  }

  lemma HalfWrittenStep<T>(enc: Encoder<T>, xs: seq<T>, i: nat, before: Buffer, between: Buffer, after: Buffer, ok: bool)
    requires i < |xs| <= MAX_INT32 && HalfWritten(enc, xs, i, before, between)
    requires Appended(between, enc(xs[i]), after, ok)
    ensures
      if ok then HalfWritten(enc, xs, i + 1, before, after)
      else Appended(before, EncI32(|xs|).Then(EncItems(enc, xs)), after, false)
  {
    hide EncI32, EncItems;
    var length, done := EncI32(|xs|), EncItems(enc, xs[..i]);
    AppendThen(before, length.Then(done), between, enc(xs[i]), after, ok);
    ThenIsAssociative(length, done, enc(xs[i]));
    ItemsSnoc(enc, xs, i);
  }
}
