# Verified model of the OPC UA client core

The project models four connected parts of the client and proves what they promise, or exactly when they keep it.

- **Binary data encoding.** `Wire.dfy` gives the values, the bytes an encode call appends (also when it fails halfway)
  and the outcome of a decode call on arbitrary bytes. `BinaryDataEncoding.dfy` is the object with its buffer and offset;
  each method is proved against `Wire`. `CodecLaws.dfy` says what makes an encoder and a decoder belong together
  (restoration, injectivity, minimality, normal forms), derives the consequences once for all types, and lifts everything to arrays.
  `StructureCodecs.dfy`, `NodeCodecs.dfy` and `RecordCodecs.dfy` prove the laws type by type. `WireForms.dfy` gives the wire
  forms byte by byte, which values are encoded and which bytes are accepted; `Unicode.dfy` derives well-formed UTF-8 and
  QString sizes from code points. `Prefixes.dfy` treats cut
  encodings, `Messages.dfy` values of different types in a row, `DateTimes.dfy` tick arithmetic, `NodeIdStrings.dfy` the text
  of node ids.
- **Node handle registry.** `NodeRegistry.dfy` is the registry object with its wrapping counter and search loop,
  `NodeRuns.dfy` proves routing and uniqueness over whole runs.
- **Node identity.** `NodeText.dfy` prints, splits and resolves node ids; `NodeIdentity.dfy` and `UniversalNode.dfy` are the
  universal node as a value and as an object with signals.
- **Path resolution.** `TargetSelection.dfy` is the choice among browse results, `PathSteps.dfy` and `PathResolver.dfy` the
  nested resolvers, `PathRefinement.dfy` their refinement of a plain recursion.

Where the code does less than its documentation or a caller would expect, the model follows the code:

- A byte string of one byte is announced but not written (`src/opcua/client/qopcuabinarydataencoding.h:751`). It is never read
  back. A string that starts with U+FEFF comes back without it. A value is restored in all contexts exactly if it contains
  neither and no string is longer than 2^31-1 bytes; encodings are prefix-free whether or not a string starts with U+FEFF.
- A string whose length word is cut reads as empty (`src/opcua/client/qopcuabinarydataencoding.h:156`). `Prefixes.dfy`
  gives exactly the prefixes of strings, names, texts and extension objects that are accepted for that reason.
- `truncateBufferToOffset` keeps one byte more than its documentation says; the documented rollback works only if nothing was
  appended.
- `setMembers` announces every change with `nodeChanged`, but a name or index that is only invalidated by its counterpart is
  not announced by its own signal.
- The documentation calls partial and multiple matches of a relative path errors
  (`src/declarative_opcua/opcuarelativenodeid.cpp:53`). A single partial match is used, remote matches beside a local one are
  skipped, and of several local targets the last one is used if it alone has a readable id. `DocumentedRuleIff` gives exactly
  the results on which the rule holds. With several local targets the order matters exactly if one of them is named.
- An error is documented to come with an empty node (`src/declarative_opcua/opcuapathresolver.cpp:58`), but a start node that
  cannot be created is emitted along with its error, and a single result with an unreadable id is a success with an empty node.
- Read and write items with a number as namespace lose their identifier, because `splitNodeIdAndNamespace` fails without a
  place for the index, although its documentation says that only the assignment is skipped
  (`src/declarative_opcua/universalnode.cpp:366`).
- The copy constructor of `UniversalNode` takes the flag of the index from the name. Resolvers pass nodes by value, so
  the refinement of the path recursion needs a table that names every index, and `PassedOnIff` shows that it does.

Strings of the codec are optional UTF-8 byte sequences, a missing one being the null string; the `utf8` part of a codec says
that they are well-formed, as the UTF-8 form of any QString is. An absent buffer stands for a null buffer pointer. Doubles
are their 64-bit patterns. In the resolver, the answers of the surroundings (deleted members,
node creation, start of a browse) are arbitrary functions of the level; the replies are arbitrary values. The local time zone
enters through the cutoff instant of the year 9999, which may be anywhere within a day of its UTC value.

## Model

| member | source | states |
|---|---|---|
| CodecLaws.RestoredIff | src/opcua/client/qopcuabinarydataencoding.h:584-1055 | for any lawful codec and any value it encodes: decoding gives the value back, with exact consumption, in every buffer that holds the encoding, if and only if the value fits (inside it no string over 2^31-1 bytes, no string that starts with U+FEFF, no one-byte byte string) |
| CodecLaws.RestoredInContext | src/opcua/client/qopcuabinarydataencoding.h:106-582 | for every value whose announced bytes are written: what is read with an arbitrary prefix before and suffix behind the encoding, which is the normal form if the value fits |
| CodecLaws.PrefixFree | src/opcua/client/qopcuabinarydataencoding.h:584-1055 | for all values whose announced bytes are written, also those with U+FEFF in front: no encoding is a prefix of another one unless both stand for the same normal form; so encodings are injective |
| CodecLaws.ReencodingIsStable | src/opcua/client/qopcuabinarydataencoding.h:106-1055 | normal forms encode to the same bytes and are stable; so is what was read back of a fitting value |
| RecordCodecs.EveryCodecIsLawful | src/opcua/client/qopcuabinarydataencoding.h:106-1055 | restoration, injectivity, minimality among well-formed UTF-8 and normal forms hold for quint32, double, Range, Guid, String, QualifiedName, LocalizedText, EUInformation, AxisInformation, ByteString, NodeId, ExpandedNodeId, ExtensionObject, Argument and ApplicationRecordDataType |
| CodecLaws.ArrayIsLawful | src/opcua/client/qopcuabinarydataencoding.h:968-999 | arrays inherit all laws from any lawful element codec |
| CodecLaws.ArrayRestored | src/opcua/client/qopcuabinarydataencoding.h:968-999 | an array whose elements are written whole comes back element by element and consumes what was written, for every length the encoder accepts |
| CodecLaws.FixedArrayExtent | src/opcua/client/qopcuabinarydataencoding.h:968-984 | an array of fixed-width elements is accepted exactly when its length word and count * width bytes are present, and takes exactly those; a negative count takes the length word alone |
| CodecLaws.FixedArrayRejectsPrefixes | src/opcua/client/qopcuabinarydataencoding.h:968-984 | cutting bytes off an accepted array of fixed-width elements makes it unacceptable |
| StructureCodecs.IntegersAreFixedWidth | src/opcua/client/qopcuabinarydataencoding.h:106-127 | reading an integer takes its width if that many bytes are there and fails otherwise |
| Bytes.WordRoundTrip | src/opcua/client/qopcuabinarydataencoding.h:593-594 | the little-endian form of a number that fits its width reads back as the number |
| Bytes.BytesRoundTrip | src/opcua/client/qopcuabinarydataencoding.h:117-122 | any bytes read as a number are the little-endian form of that number |
| Bytes.LeastSignificantFirst | src/opcua/client/qopcuabinarydataencoding.h:593-594 | byte i of the little-endian form has weight 256^i |
| Bytes.FormIsTheLowBits | src/opcua/client/qopcuabinarydataencoding.h:405 | removing the two flag bits is the remainder modulo 0x40 |
| Bytes.UriFlagIsABit | src/opcua/client/qopcuabinarydataencoding.h:480 | testing and setting 0x80 on numbers agrees with the bit operations |
| Bytes.ServerFlagIsABit | src/opcua/client/qopcuabinarydataencoding.h:481 | testing and setting 0x40 on numbers agrees with the bit operations |
| Bytes.TextFlagsAreBits | src/opcua/client/qopcuabinarydataencoding.h:203-208 | testing the LocalizedText mask on numbers agrees with the bit operations |
| StructureCodecs.StringRestored | src/opcua/client/qopcuabinarydataencoding.h:148-178 | every string of at most 2^31-1 UTF-8 bytes comes back, a leading U+FEFF dropped, null and empty kept apart |
| StructureCodecs.MarkIsLost | src/opcua/client/qopcuabinarydataencoding.h:164 | a string that starts with U+FEFF comes back without it in every context, because the conversion takes it for a byte order mark |
| StructureCodecs.StringThrifty | src/opcua/client/qopcuabinarydataencoding.h:148-178 | no accepted uncut form of a string in well-formed UTF-8 is shorter than its encoding |
| StructureCodecs.QualifiedNameRestored | src/opcua/client/qopcuabinarydataencoding.h:180-193 | index and name come back, a leading U+FEFF dropped, and the offset stops behind them |
| StructureCodecs.TextRestored | src/opcua/client/qopcuabinarydataencoding.h:195-214 | both parts come back, empty ones as null and a leading U+FEFF dropped |
| StructureCodecs.TextThrifty | src/opcua/client/qopcuabinarydataencoding.h:195-214 | no accepted uncut form of a localized text in well-formed UTF-8 is shorter than its encoding |
| StructureCodecs.UnitsRestored | src/opcua/client/qopcuabinarydataencoding.h:216-238 | engineering units come back, up to empty text parts and leading U+FEFF |
| StructureCodecs.UnitsThrifty | src/opcua/client/qopcuabinarydataencoding.h:216-238 | no accepted uncut form of engineering units in well-formed UTF-8 is shorter than its encoding |
| StructureCodecs.AxisRestored | src/opcua/client/qopcuabinarydataencoding.h:288-314 | axis information comes back, up to empty text parts and leading U+FEFF |
| StructureCodecs.AxisThrifty | src/opcua/client/qopcuabinarydataencoding.h:288-314 | no accepted uncut form of axis information in well-formed UTF-8 is shorter than its encoding |
| NodeCodecs.ByteStringRestored | src/opcua/client/qopcuabinarydataencoding.h:372-396 | every byte string except one of a single byte comes back, null and empty kept apart |
| NodeCodecs.OneByteIsNeverRestored | src/opcua/client/qopcuabinarydataencoding.h:751-752 | the encoding of a one-byte array is the length word 1 alone: decoding takes the next foreign byte or fails, in every context |
| NodeCodecs.NodeIdRestored | src/opcua/client/qopcuabinarydataencoding.h:398-465 | every encodable node id comes back from its form, a leading U+FEFF of a text dropped, unless its identifier is a single opaque byte |
| NodeCodecs.FlaggedNodeIdRestored | src/opcua/client/qopcuabinarydataencoding.h:398-465 | the node id decoder sees the same node id whatever the two high bits of the first byte are |
| NodeCodecs.FlaggedNodeIdInjective | src/opcua/client/qopcuabinarydataencoding.h:756-864 | whatever the two high bits of the first byte: two encodable node ids with the same bytes are equal |
| NodeCodecs.NodeIdIsShortest | src/opcua/client/qopcuabinarydataencoding.h:756-864 | of all byte strings in well-formed UTF-8 decoded to an encodable node id, the encoder writes a shortest one, and strictly less for the identifiers that are not read back |
| NodeCodecs.NumericWireForms | src/opcua/client/qopcuabinarydataencoding.h:797-816 | the two-, four- and seven-byte numeric forms byte by byte, for every namespace and identifier |
| NodeCodecs.NumericReencoding | src/opcua/client/qopcuabinarydataencoding.h:398-442 | any bytes read as a numeric node id re-encode to no more bytes, which read as the same node id |
| NodeCodecs.FlagsAreIndependent | src/opcua/client/qopcuabinarydataencoding.h:877-891 | form, URI flag and server flag share the first byte without disturbing each other |
| NodeCodecs.ExpandedNodeIdRestored | src/opcua/client/qopcuabinarydataencoding.h:467-502 | URI, node id and server index return through the patched first byte with exact consumption, up to leading U+FEFF |
| NodeCodecs.ExpandedNodeIdThrifty | src/opcua/client/qopcuabinarydataencoding.h:866-895 | no accepted uncut form of an expanded node id in well-formed UTF-8 is shorter than its encoding |
| RecordCodecs.ExtensionObjectRestored | src/opcua/client/qopcuabinarydataencoding.h:529-554 | an extension object comes back, up to a leading U+FEFF of a text type id; without a body, what the body member held is not carried |
| RecordCodecs.ExtensionObjectThrifty | src/opcua/client/qopcuabinarydataencoding.h:929-942 | no accepted uncut form of an extension object in well-formed UTF-8 is shorter than its encoding |
| RecordCodecs.ArgumentRestored | src/opcua/client/qopcuabinarydataencoding.h:556-582 | an argument comes back, up to empty text parts of its description and leading U+FEFF |
| RecordCodecs.ArgumentThrifty | src/opcua/client/qopcuabinarydataencoding.h:944-966 | no accepted uncut form of an argument in well-formed UTF-8 is shorter than its encoding |
| RecordCodecs.ApplicationRecordRestored | src/opcua/client/qopcuabinarydataencoding.h:1001-1035 | an application record comes back, up to empty parts of its names and leading U+FEFF |
| RecordCodecs.ApplicationRecordThrifty | src/opcua/client/qopcuabinarydataencoding.h:1037-1055 | no accepted uncut form of an application record in well-formed UTF-8 is shorter than its encoding |
| Prefixes.AxisInformationIsFirm | src/opcua/client/qopcuabinarydataencoding.h:288-314 | axis information accepted on a cut buffer is read alike from the whole buffer, however strings inside were cut |
| Prefixes.AxisInformationRejectsPrefixes | src/opcua/client/qopcuabinarydataencoding.h:288-314 | of any bytes accepted as axis information no strict prefix is accepted |
| Prefixes.AxisEncodingRejectsPrefixes | src/opcua/client/qopcuabinarydataencoding.h:698-712 | every strict prefix of an axis information encoding is rejected, whatever its strings of at most 2^31-1 bytes are |
| Prefixes.StringPrefixes | src/opcua/client/qopcuabinarydataencoding.h:156-170 | a strict prefix of a string encoding is rejected if and only if it has at least four bytes; a shorter one reads as empty |
| Prefixes.StringCut | src/opcua/client/qopcuabinarydataencoding.h:156-170 | a string whose end is missing, at any offset of a buffer: empty while the length word is cut, refused from then on |
| Prefixes.QualifiedNamePrefixes | src/opcua/client/qopcuabinarydataencoding.h:180-193 | a strict prefix of a qualified name is rejected if and only if it has fewer than two or at least six bytes; the others read as an empty name |
| Prefixes.TextPrefixes | src/opcua/client/qopcuabinarydataencoding.h:195-214 | a strict prefix of a localized text is rejected if and only if it is empty or ends behind the start of a content; the others stop at or inside a length word, and their readings are given |
| Prefixes.ByteStringIsFirm | src/opcua/client/qopcuabinarydataencoding.h:372-396 | a byte string accepted on a cut buffer is read alike from the whole one |
| Prefixes.NodeIdIsFirm | src/opcua/client/qopcuabinarydataencoding.h:398-465 | so is a node id, unless its text identifier was read as empty from a cut length word |
| Prefixes.ObjectIsFirm | src/opcua/client/qopcuabinarydataencoding.h:529-554 | so is an extension object, unless the text identifier of its type was read as empty from a cut length word |
| Prefixes.ObjectPrefixes | src/opcua/client/qopcuabinarydataencoding.h:529-554 | a strict prefix of an extension object is accepted if and only if it has four to six bytes and the type id is a text of a multiple of 256 bytes, the low byte of whose length is read as the encoding without a body; this holds for every body, also one of a single byte |
| Messages.PairIsLawful | tests/auto/qopcuaclient/tst_client.cpp:207-321 | two lawful types one behind the other are lawful: values encoded in a row are read in the same row, for all types and lengths, and tell such rows apart |
| Messages.AppendedIsRestored | tests/auto/qopcuaclient/tst_client.cpp:207-321 | decoding at the offset where an encode began reads the value and ends at the end of the data; a fitting value is read as its normal form |
| Messages.ThereAndBack | tests/auto/qopcuaclient/tst_client.cpp:229-321 | node id, expanded node id, extension object and argument through one encoding object: encoding appends, and decoding from the old end reads all four with the data used up, in normal form if they fit |
| Wire.EncNodeId | src/opcua/client/qopcuabinarydataencoding.h:756-864 | a refused node id appends nothing |
| Wire.EncExpandedNodeId | src/opcua/client/qopcuabinarydataencoding.h:866-895 | a refused expanded node id appends nothing |
| Wire.EncArgument | src/opcua/client/qopcuabinarydataencoding.h:944-966 | a refused argument appends nothing, whichever member was refused |
| Wire.DecString | src/opcua/client/qopcuabinarydataencoding.h:148-178 | on arbitrary bytes the offset never moves back nor beyond the end |
| Wire.DecNodeId | src/opcua/client/qopcuabinarydataencoding.h:398-465 | on arbitrary bytes the offset never moves back nor beyond the end |
| Wire.DecExpandedNodeId | src/opcua/client/qopcuabinarydataencoding.h:467-502 | on arbitrary bytes the offset never moves back nor beyond the end |
| Wire.DecAxisInformation | src/opcua/client/qopcuabinarydataencoding.h:288-314 | on arbitrary bytes the offset never moves back nor beyond the end |
| Wire.DecExtensionObject | src/opcua/client/qopcuabinarydataencoding.h:529-554 | on arbitrary bytes the offset never moves back nor beyond the end |
| Wire.DecArgument | src/opcua/client/qopcuabinarydataencoding.h:556-582 | on arbitrary bytes the offset never moves back nor beyond the end |
| Wire.DecApplicationRecord | src/opcua/client/qopcuabinarydataencoding.h:1001-1035 | on arbitrary bytes the offset never moves back nor beyond the end |
| Wire.ArrayInside | src/opcua/client/qopcuabinarydataencoding.h:968-984 | array decoding keeps the offset inside for any element decoder that does |
| WireForms.StringIsEncodedIff | src/opcua/client/qopcuabinarydataencoding.h:609-623 | a string is encoded if and only if its QString has at most 2^31-1 UTF-16 units |
| WireForms.ByteStringIsEncodedIff | src/opcua/client/qopcuabinarydataencoding.h:740-754 | a byte string is encoded if and only if it has at most 2^31-1 bytes |
| WireForms.ArrayIsEncodedIff | src/opcua/client/qopcuabinarydataencoding.h:986-999 | an array is encoded if and only if its count fits a qint32 and every element is encoded |
| WireForms.TextIsEncodedIff | src/opcua/client/qopcuabinarydataencoding.h:635-652 | a localized text is encoded if and only if both parts are |
| WireForms.UnitsAreEncodedIff | src/opcua/client/qopcuabinarydataencoding.h:664-676 | engineering units are encoded if and only if the URI and both texts are |
| WireForms.AxisIsEncodedIff | src/opcua/client/qopcuabinarydataencoding.h:698-712 | axis information is encoded if and only if units and title are and the steps can be counted |
| WireForms.NodeIdIsEncodedIff | src/opcua/client/qopcuabinarydataencoding.h:756-864 | a node id is encoded if and only if its string splits and the identifier is a 32-bit number, a text that is neither empty nor has a semicolon, a guid that is not null, or an opaque that is not empty, of at most 2^31-1 units or bytes |
| WireForms.ExpandedIsEncodedIff | src/opcua/client/qopcuabinarydataencoding.h:866-895 | an expanded node id is encoded if and only if its node id and its URI are |
| WireForms.ObjectIsEncodedIff | src/opcua/client/qopcuabinarydataencoding.h:929-942 | an extension object is encoded if and only if its type id and the body it carries are |
| WireForms.ArgumentIsEncodedIff | src/opcua/client/qopcuabinarydataencoding.h:944-966 | an argument is encoded if and only if name, data type and description are and the dimensions can be counted |
| WireForms.RecordIsEncodedIff | src/opcua/client/qopcuabinarydataencoding.h:1037-1055 | an application record is encoded if and only if all its members and list elements are and the lists can be counted |
| WireForms.StringIsWritten | src/opcua/client/qopcuabinarydataencoding.h:609-623 | the bytes of a string against its wire form: the null string is FF FF FF FF, any other one its length and its UTF-8 |
| WireForms.ByteStringIsWritten | src/opcua/client/qopcuabinarydataencoding.h:740-754 | the bytes of a byte string against its wire form, the body of a single byte missing |
| WireForms.QualifiedNameIsWritten | src/opcua/client/qopcuabinarydataencoding.h:625-633 | the bytes of a qualified name: index, then name |
| WireForms.TextIsWritten | src/opcua/client/qopcuabinarydataencoding.h:635-652 | the bytes of a localized text in its four cases: mask 1 for the locale, 2 for the text, the locale first |
| WireForms.UnitsAreWritten | src/opcua/client/qopcuabinarydataencoding.h:664-676 | the bytes of engineering units: URI, unit, display name, description |
| WireForms.RangeIsWritten | src/opcua/client/qopcuabinarydataencoding.h:654-662 | the bytes of a range: low, then high |
| WireForms.ArrayIsWritten | src/opcua/client/qopcuabinarydataencoding.h:986-999 | the bytes of an array: its count, then its elements, for any element encoder with a wire form |
| WireForms.AxisIsWritten | src/opcua/client/qopcuabinarydataencoding.h:698-712 | the bytes of axis information: units, range, title, scale, steps |
| WireForms.GuidIsWritten | src/opcua/client/qopcuabinarydataencoding.h:724-738 | the bytes of a guid: three numbers with the low byte first, then eight bytes as they are |
| WireForms.NodeIdIsWritten | src/opcua/client/qopcuabinarydataencoding.h:756-864 | the bytes of a node id in its six forms: 0, 1 and 2 numeric, 3 text, 4 guid, 5 opaque |
| WireForms.ExpandedIsWritten | src/opcua/client/qopcuabinarydataencoding.h:866-895 | the bytes of an expanded node id: the node id with 0x80 added for a URI and 0x40 for a server index, then these |
| WireForms.ObjectIsWritten | src/opcua/client/qopcuabinarydataencoding.h:929-942 | the bytes of an extension object: type id, 0, 1 or 2 for the encoding, body |
| WireForms.ArgumentIsWritten | src/opcua/client/qopcuabinarydataencoding.h:944-966 | the bytes of an argument: name, data type, rank, dimensions, description |
| WireForms.RecordIsWritten | src/opcua/client/qopcuabinarydataencoding.h:1037-1055 | the bytes of an application record: id, URI, type, names, product, urls, capabilities |
| WireForms.PublishedStrings | src/opcua/client/qopcuabinarydataencoding.h:148-178 | the examples of sections 5.2.2.4 and 5.2.2.6 of OPC UA Part 6, byte by byte |
| WireForms.PublishedNodeIds | src/opcua/client/qopcuabinarydataencoding.h:797-816 | the two- and four-byte examples of section 5.2.2.9 of OPC UA Part 6, byte by byte |
| WireForms.TextIdForm | src/opcua/client/qopcuabinarydataencoding.h:818-825 | a short text node id byte by byte, for every namespace and text |
| WireForms.SampleUnits | src/opcua/client/qopcuabinarydataencoding.h:664-676 | concrete engineering units byte by byte |
| WireForms.SampleObject | src/opcua/client/qopcuabinarydataencoding.h:929-942 | concrete extension objects of all three encodings byte by byte |
| WireForms.StringIsAcceptedIff | src/opcua/client/qopcuabinarydataencoding.h:148-178 | on arbitrary bytes: which are accepted as a string, as what value, and how far they are read |
| WireForms.ByteStringIsAcceptedIff | src/opcua/client/qopcuabinarydataencoding.h:372-396 | on arbitrary bytes: which are accepted as a byte string, as what value, and how far they are read |
| WireForms.EmptyCounts | src/opcua/client/qopcuabinarydataencoding.h:968-984 | a count of zero or less is an empty list, a missing one a failure |
| WireForms.GuidIsAcceptedIff | src/opcua/client/qopcuabinarydataencoding.h:333-370 | sixteen bytes are accepted as the guid with that wire form, fewer are refused |
| WireForms.NodeIdIsAcceptedIff | src/opcua/client/qopcuabinarydataencoding.h:398-465 | on arbitrary bytes: form and namespace literally, and every identifier that can be read accepted, also in a longer form than needed |
| WireForms.MaskIsReadModuloFour | src/opcua/client/qopcuabinarydataencoding.h:195-214 | the upper six bits of the mask of a localized text change nothing |
| WireForms.ObjectIsAcceptedIff | src/opcua/client/qopcuabinarydataencoding.h:529-554 | on arbitrary bytes: exactly the encodings 0, 1 and 2 are accepted, with a body for the latter two |
| Unicode.WellFormedIff | src/opcua/client/qopcuabinarydataencoding.h:164 | well-formed UTF-8 is exactly what some Unicode scalar values are written as |
| Unicode.SizeIsUnits | src/opcua/client/qopcuabinarydataencoding.h:615 | the size of the QString a text stands for counts one unit for each code point, and two from 0x10000 on |
| Unicode.MarkIsDroppedOnce | src/opcua/client/qopcuabinarydataencoding.h:164 | EF BB BF, the form of U+FEFF, is dropped in front of any text, once; any other text is read as it is |
| BinaryDataEncoding.BinaryDataEncoding.TruncateBufferToOffset | src/opcua/client/qopcuabinarydataencoding.cpp:236-243 | one byte more than the offset is kept; no buffer or an offset at or behind the last byte changes nothing |
| BinaryDataEncoding.RollbackIff | src/opcua/client/qopcuabinarydataencoding.cpp:229-243 | setting an offset and truncating after an append restores the old buffer exactly for the offset of its last byte, or if nothing was appended |
| BinaryDataEncoding.DocumentedRollbackFails | src/opcua/client/qopcuabinarydataencoding.cpp:233-234 | the documented rollback with the offset from before keeps one byte of a failed array encode |
| BinaryDataEncoding.BinaryDataEncoding.DecodeWord | src/opcua/client/qopcuabinarydataencoding.h:106-127 | succeeds, fails and moves the offset as specified; touches nothing but the offset, also without a buffer |
| BinaryDataEncoding.BinaryDataEncoding.DecodeString | src/opcua/client/qopcuabinarydataencoding.h:148-178 | succeeds, fails and moves the offset as specified; touches nothing but the offset, also without a buffer |
| BinaryDataEncoding.BinaryDataEncoding.DecodeByteString | src/opcua/client/qopcuabinarydataencoding.h:372-396 | succeeds, fails and moves the offset as specified; touches nothing but the offset, also without a buffer |
| BinaryDataEncoding.BinaryDataEncoding.DecodeQualifiedName | src/opcua/client/qopcuabinarydataencoding.h:180-193 | succeeds, fails and moves the offset as specified; touches nothing but the offset, also without a buffer |
| BinaryDataEncoding.BinaryDataEncoding.DecodeLocalizedText | src/opcua/client/qopcuabinarydataencoding.h:195-214 | succeeds, fails and moves the offset as specified; touches nothing but the offset, also without a buffer |
| BinaryDataEncoding.BinaryDataEncoding.DecodeEUInformation | src/opcua/client/qopcuabinarydataencoding.h:216-238 | succeeds, fails and moves the offset as specified; touches nothing but the offset, also without a buffer |
| BinaryDataEncoding.BinaryDataEncoding.DecodeRange | src/opcua/client/qopcuabinarydataencoding.h:240-254 | succeeds, fails and moves the offset as specified; touches nothing but the offset, also without a buffer |
| BinaryDataEncoding.BinaryDataEncoding.DecodeDoubles | src/opcua/client/qopcuabinarydataencoding.h:968-984 | succeeds, fails and moves the offset as specified; touches nothing but the offset, also without a buffer |
| BinaryDataEncoding.BinaryDataEncoding.DecodeU32s | src/opcua/client/qopcuabinarydataencoding.h:968-984 | succeeds, fails and moves the offset as specified; touches nothing but the offset, also without a buffer |
| BinaryDataEncoding.BinaryDataEncoding.DecodeLocalizedTexts | src/opcua/client/qopcuabinarydataencoding.h:968-984 | succeeds, fails and moves the offset as specified; touches nothing but the offset, also without a buffer |
| BinaryDataEncoding.BinaryDataEncoding.DecodeStrings | src/opcua/client/qopcuabinarydataencoding.h:968-984 | succeeds, fails and moves the offset as specified; touches nothing but the offset, also without a buffer |
| BinaryDataEncoding.BinaryDataEncoding.DecodeAxisInformation | src/opcua/client/qopcuabinarydataencoding.h:288-314 | succeeds, fails and moves the offset as specified; touches nothing but the offset, also without a buffer |
| BinaryDataEncoding.BinaryDataEncoding.DecodeDateTime | src/opcua/client/qopcuabinarydataencoding.h:504-517 | succeeds, fails and moves the offset as specified; touches nothing but the offset, also without a buffer |
| BinaryDataEncoding.BinaryDataEncoding.DecodeGuid | src/opcua/client/qopcuabinarydataencoding.h:332-370 | succeeds, fails and moves the offset as specified; touches nothing but the offset, also without a buffer |
| BinaryDataEncoding.BinaryDataEncoding.DecodeNodeId | src/opcua/client/qopcuabinarydataencoding.h:398-465 | succeeds, fails and moves the offset as specified; touches nothing but the offset, also without a buffer |
| BinaryDataEncoding.BinaryDataEncoding.DecodeExpandedNodeId | src/opcua/client/qopcuabinarydataencoding.h:467-502 | succeeds, fails and moves the offset as specified; touches nothing but the offset, also without a buffer |
| BinaryDataEncoding.BinaryDataEncoding.DecodeExtensionObject | src/opcua/client/qopcuabinarydataencoding.h:529-554 | succeeds, fails and moves the offset as specified; touches nothing but the offset, also without a buffer |
| BinaryDataEncoding.BinaryDataEncoding.DecodeArgument | src/opcua/client/qopcuabinarydataencoding.h:556-582 | succeeds, fails and moves the offset as specified; touches nothing but the offset, also without a buffer |
| BinaryDataEncoding.BinaryDataEncoding.DecodeApplicationRecord | src/opcua/client/qopcuabinarydataencoding.h:1001-1035 | succeeds, fails and moves the offset as specified; touches nothing but the offset, also without a buffer |
| BinaryDataEncoding.BinaryDataEncoding.EncodeWord | src/opcua/client/qopcuabinarydataencoding.h:584-596 | appends, or appends in part and fails, as specified; the old buffer stays a prefix and the offset is untouched |
| BinaryDataEncoding.BinaryDataEncoding.EncodeString | src/opcua/client/qopcuabinarydataencoding.h:609-623 | appends, or appends in part and fails, as specified; the old buffer stays a prefix and the offset is untouched |
| BinaryDataEncoding.BinaryDataEncoding.EncodeByteString | src/opcua/client/qopcuabinarydataencoding.h:740-754 | appends, or appends in part and fails, as specified; the old buffer stays a prefix and the offset is untouched |
| BinaryDataEncoding.BinaryDataEncoding.EncodeQualifiedName | src/opcua/client/qopcuabinarydataencoding.h:625-633 | appends, or appends in part and fails, as specified; the old buffer stays a prefix and the offset is untouched |
| BinaryDataEncoding.BinaryDataEncoding.EncodeLocalizedText | src/opcua/client/qopcuabinarydataencoding.h:635-652 | appends, or appends in part and fails, as specified; the old buffer stays a prefix and the offset is untouched |
| BinaryDataEncoding.BinaryDataEncoding.EncodeRange | src/opcua/client/qopcuabinarydataencoding.h:654-662 | appends, or appends in part and fails, as specified; the old buffer stays a prefix and the offset is untouched |
| BinaryDataEncoding.BinaryDataEncoding.EncodeEUInformation | src/opcua/client/qopcuabinarydataencoding.h:664-676 | appends, or appends in part and fails, as specified; the old buffer stays a prefix and the offset is untouched |
| BinaryDataEncoding.BinaryDataEncoding.EncodeDoubles | src/opcua/client/qopcuabinarydataencoding.h:986-999 | appends, or appends in part and fails, as specified; the old buffer stays a prefix and the offset is untouched |
| BinaryDataEncoding.BinaryDataEncoding.EncodeU32s | src/opcua/client/qopcuabinarydataencoding.h:986-999 | appends, or appends in part and fails, as specified; the old buffer stays a prefix and the offset is untouched |
| BinaryDataEncoding.BinaryDataEncoding.EncodeLocalizedTexts | src/opcua/client/qopcuabinarydataencoding.h:986-999 | appends, or appends in part and fails, as specified; the old buffer stays a prefix and the offset is untouched |
| BinaryDataEncoding.BinaryDataEncoding.EncodeStrings | src/opcua/client/qopcuabinarydataencoding.h:986-999 | appends, or appends in part and fails, as specified; the old buffer stays a prefix and the offset is untouched |
| BinaryDataEncoding.BinaryDataEncoding.EncodeAxisInformation | src/opcua/client/qopcuabinarydataencoding.h:698-712 | appends, or appends in part and fails, as specified; the old buffer stays a prefix and the offset is untouched |
| BinaryDataEncoding.BinaryDataEncoding.EncodeDateTime | src/opcua/client/qopcuabinarydataencoding.h:897-919 | appends, or appends in part and fails, as specified; the old buffer stays a prefix and the offset is untouched |
| BinaryDataEncoding.BinaryDataEncoding.EncodeGuid | src/opcua/client/qopcuabinarydataencoding.h:724-738 | appends, or appends in part and fails, as specified; the old buffer stays a prefix and the offset is untouched |
| BinaryDataEncoding.BinaryDataEncoding.EncodeNodeId | src/opcua/client/qopcuabinarydataencoding.h:756-864 | appends, or appends in part and fails, as specified; the old buffer stays a prefix and the offset is untouched |
| BinaryDataEncoding.BinaryDataEncoding.EncodeExpandedNodeId | src/opcua/client/qopcuabinarydataencoding.h:866-895 | appends, or appends in part and fails, as specified; the old buffer stays a prefix and the offset is untouched |
| BinaryDataEncoding.BinaryDataEncoding.EncodeExtensionObject | src/opcua/client/qopcuabinarydataencoding.h:929-942 | appends, or appends in part and fails, as specified; the old buffer stays a prefix and the offset is untouched |
| BinaryDataEncoding.BinaryDataEncoding.EncodeArgument | src/opcua/client/qopcuabinarydataencoding.h:944-966 | appends, or appends in part and fails, as specified; the old buffer stays a prefix and the offset is untouched |
| BinaryDataEncoding.BinaryDataEncoding.EncodeApplicationRecord | src/opcua/client/qopcuabinarydataencoding.h:1037-1055 | appends, or appends in part and fails, as specified; the old buffer stays a prefix and the offset is untouched |
| DateTimes.TicksFit | src/opcua/client/qopcuabinarydataencoding.h:915-917 | between the limits the tick count does not overflow, is neither sentinel and stands for the instant |
| DateTimes.DateTimeRestoredIff | src/opcua/client/qopcuabinarydataencoding.h:897-919 | an instant comes back exactly if it lies strictly between 1601 and the cutoff; any other comes back as no date, with exact consumption |
| DateTimes.Reencoding | src/opcua/client/qopcuabinarydataencoding.h:504-517 | re-encoding any decoded tick count: 0 if negative, the upper sentinel from the cutoff on, otherwise t - t mod 10000 |
| DateTimes.LimitsFromTheCalendar | src/opcua/client/qopcuabinarydataencoding.h:515 | 1601-01-01 and 9999-12-31 11:59:59 as milliseconds follow from the Gregorian calendar |
| DateTimes.SampleTicks | src/opcua/client/qopcuabinarydataencoding.h:908-915 | 1970 is written as 116444736000000000 ticks, and a millisecond as 10000 |
| DateTimes.SentinelBytes | src/opcua/client/qopcuabinarydataencoding.h:900-913 | instants up to 1601 are eight zero bytes, instants from the cutoff on seven FF and 7F |
| DateTimes.SampleInstants | src/opcua/client/qopcuabinarydataencoding.h:511-516 | literal ticks around zero, 1970 and both sentinels, and the instants they stand for |
| NodeIdStrings.PrintedSplitsIff | src/opcua/client/qopcuatype.cpp:690-721 | the text a decoded node id is printed as splits back exactly if its identifier is neither empty nor has a semicolon |
| NodeIdStrings.UnreadablePrefixIsNamespaceZero | src/opcua/client/qopcuatype.cpp:699-705 | a first part that is not an index is accepted and read as namespace 0 |
| NodeIdStrings.UnprefixedIsNamespaceZero | src/opcua/client/qopcuatype.cpp:694-721 | a text without a semicolon is split if and only if it is one of the four kinds, an equals sign and something behind, in namespace 0 |
| NodeIdStrings.RefusedStrings | src/opcua/client/qopcuatype.cpp:694-705 | an index beyond 65535 is refused, and so is any text with two semicolons |
| NodeIdStrings.NumericTextThroughBytes | src/opcua/client/qopcuabinarydataencoding.h:424-442 | a numeric node id text through bytes and back to text stands for the same node id |
| NodeRegistry.SearchBound | src/opcua/client/qopcuaclientimpl.cpp:62-70 | the search for a free handle passes at most as many values as handles are live, from every counter value |
| NodeRegistry.AheadIsInjective | src/opcua/client/qopcuaclientimpl.cpp:63 | fewer than 2^64 increments of the wrapping counter never repeat a value |
| NodeRegistry.FirstFreeIsUnique | src/opcua/client/qopcuaclientimpl.cpp:62-70 | from a given counter and set of live handles the search has one result |
| NodeRegistry.ClientImpl.RegisterNode | src/opcua/client/qopcuaclientimpl.cpp:57-71 | terminates; refuses exactly a full registry; otherwise takes the first free value behind the counter, stores it in the node, and keeps every entry equal to its node's handle if and only if the node had no entry |
| NodeRegistry.ClientImpl.UnregisterNode | src/opcua/client/qopcuaclientimpl.cpp:73-76 | removes exactly the entry under the node's stored handle |
| NodeRegistry.ClientImpl.Target | src/opcua/client/qopcuaclientimpl.cpp:103-165 | a reply goes to the live node registered under its handle, which knows that handle, and to nobody otherwise |
| NodeRegistry.NodeImpl.Destroy | src/plugins/opcua/open62541/qopen62541node.cpp:63-69 | a dying node removes the entry of its handle before it is gone |
| NodeRuns.StepKeepsConsistency | src/opcua/client/qopcuaclientimpl.cpp:57-76 | every step keeps each entry and each stored handle in the history, and the history in counting order, also when a node registers twice |
| NodeRuns.StepKeepsLinks | src/opcua/client/qopcuaclientimpl.cpp:57-76 | every step but a second registration keeps each entry equal to the handle its node stores |
| NodeRuns.RoutingIsSafe | src/opcua/client/qopcuaclientimpl.cpp:57-165 | in every run a reply reaches only a live node that was issued the handle; if no node registers twice, that node stores it and no other handle reaches the node |
| NodeRuns.DeadStaySilent | src/opcua/client/qopcuaclientimpl.cpp:103-165 | no reply ever reaches a node after its death |
| NodeRuns.UnregisteredStaySilent | src/opcua/client/qopcuaclientimpl.cpp:73-165 | no reply reaches a deregistered node until it registers again |
| NodeRuns.IssuedOnceIff | src/opcua/client/qopcuaclientimpl.cpp:57-71 | in every run no handle has been issued twice if and only if the counter has moved at most 2^64 times |
| NodeRuns.LateReplyIsSafe | src/opcua/client/qopcuaclientimpl.cpp:57-165 | up to then a late reply reaches the node its handle was issued to or nobody, never a newer node |
| NodeRuns.OnlyOwnEntryIsRemoved | src/opcua/client/qopcuaclientimpl.cpp:73-76 | before the counter comes round, deregistering removes no other node's entry, even for a node that was refused a handle |
| NodeText.DecimalRoundTrip | src/declarative_opcua/universalnode_p.h:114-116 | printed decimals read back as the number |
| NodeText.SplitUndoesCreateIff | src/declarative_opcua/universalnode.cpp:369-391 | splitting undoes printing if and only if the identifier has no semicolon; otherwise it fails |
| NodeText.SplitNodeIdIff | src/declarative_opcua/universalnode.cpp:369-391 | a text splits into an index and an identifier if and only if it is ns=, a number that reads as the index, the only semicolon and the identifier |
| NodeText.NumbersAreRead | src/declarative_opcua/universalnode.cpp:98-104 | a printed number reads back up to 2^32-1 and is refused beyond; other texts are no numbers; printed numbers have no leading zero |
| NodeText.SampleTexts | src/declarative_opcua/universalnode_p.h:114-116 | concrete node texts, one with a negative index |
| NodeText.NamelessKeepsIndex | src/declarative_opcua/universalnode.cpp:405-421 | without a namespace name a printed node id keeps its index as a signed number, and a text that does not split is put in namespace 0 |
| NodeText.NameReplacesIndex | src/declarative_opcua/universalnode.cpp:405-421 | with a namespace name the first index of a listed one replaces any index of the id, and an unlisted one gives nothing |
| NodeText.NamelessItemsAreKept | src/declarative_opcua/opcuaconnection.cpp:484-491 | an item with an empty namespace keeps a whole node id, and puts any other text in namespace 0 |
| NodeText.ExpandedWithoutLookup | src/opcua/client/qopcuaclient.cpp:500-530 | without a URI the id is handed back; with a URI on another server or not in the table nothing is |
| NodeText.IndexedItemsShareANode | src/declarative_opcua/opcuaconnection.cpp:484-496 | with a number as namespace every read or write item, whatever its node id, gets the same non-empty node text with an empty identifier |
| NodeText.ItemKeepsIdentifierIff | src/declarative_opcua/opcuaconnection.cpp:484-491 | a printed node id given with a number as namespace keeps its identifier if and only if that is empty; given with a listed name it always does |
| NodeText.SplitTwo | src/declarative_opcua/universalnode.cpp:372-373 | a text splits into two given parts if and only if it is these parts with the only separator between them |
| NodeText.ResolveNamespaceNameToIndex | src/declarative_opcua/universalnode.cpp:178-199 | a non-empty listed name gives its first position, anything else gives none |
| NodeText.ResolversAgreeIff | src/opcua/client/qopcuaclient.cpp:500-542 | for a URI on the local server both resolvers return the same text if and only if the URI is not listed or the node id has a readable index |
| NodeText.ResolversDisagree | src/opcua/client/qopcuaclient.cpp:500-542 | a concrete id without an index on which one resolver fails and the other one succeeds |
| NodeText.ResolvedText | src/declarative_opcua/universalnode.cpp:405-421 | for printed node ids both resolvers agree, are empty exactly for an unlisted URI, and otherwise name its first index |
| NodeIdentity.ChangeIsNotifiedExactly | src/declarative_opcua/universalnode.cpp:315-360 | nodeChanged is emitted once and last if any of the four members changed, and otherwise no signal at all |
| NodeIdentity.NamespaceSignalsIff | src/declarative_opcua/universalnode.cpp:324-352 | the name and the index signal miss exactly the changes that only invalidate the counterpart |
| NodeIdentity.SilentInvalidations | src/declarative_opcua/universalnode.cpp:324-352 | a concrete lost name and a concrete lost index with all signals emitted, none of which is their own |
| NodeIdentity.MembersAre | src/declarative_opcua/universalnode.cpp:315-360 | every member after setMembers in closed form: what is set wins, a new index drops the name and a new name the index |
| NodeIdentity.OtherSignalsIff | src/declarative_opcua/universalnode.cpp:348-356 | the identifier is announced if and only if it changed, the namespace if and only if its name or its index is announced |
| NodeIdentity.SignalOrder | src/declarative_opcua/universalnode.cpp:340-360 | a concrete change with all five signals in their order |
| NodeIdentity.NamespaceIsSet | src/declarative_opcua/universalnode.cpp:98-104 | setNamespace: a number sets the low 16 bits as index, any other text the name |
| NodeIdentity.NamespaceIndexIsSet | src/declarative_opcua/universalnode.cpp:111-114 | setNamespace with an index: index valid, name dropped unless nothing changed |
| NodeIdentity.NodeIdentifierIsSet | src/declarative_opcua/universalnode.cpp:121-131 | setNodeIdentifier: a printed node id sets index and identifier, any text that does not split the identifier alone |
| NodeIdentity.IndexIsResolved | src/declarative_opcua/universalnode.cpp:141-161 | a valid index in range gets the name of the table, and nothing else changes |
| NodeIdentity.NameIsResolved | src/declarative_opcua/universalnode.cpp:163-176 | a listed name gets its first index, made valid, and nothing else changes |
| NodeIdentity.NamespaceIsResolved | src/declarative_opcua/universalnode.cpp:133-139 | resolveNamespace looks up a missing index by name, a missing name by index, and leaves a node with both alone |
| NodeIdentity.QualifiedNameIsTaken | src/declarative_opcua/universalnode.cpp:240-243 | from a qualified name: its index and name, a namespace name dropped unless it belongs to the index |
| NodeIdentity.ExpandedNodeIdIsTaken | src/declarative_opcua/universalnode.cpp:245-248 | from an expanded node id: its URI and id, the index invalid unless the name stays |
| NodeIdentity.TargetIsTaken | src/declarative_opcua/universalnode.cpp:250-259 | from a browse target: its URI if it has one, index and identifier of an id that splits, no identifier of one that does not |
| NodeIdentity.NodeIdTypeIsTaken | src/declarative_opcua/universalnode.cpp:265-270 | from a node id type: what it has is taken, what it has not is kept |
| NodeIdentity.NodeIsTaken | src/declarative_opcua/universalnode.cpp:272-276 | from a universal node: name and identifier always, the index if it is valid |
| NodeIdentity.CoherenceIff | src/declarative_opcua/universalnode.cpp:310-360 | a coherent node stays coherent under setMembers if and only if a given pair of index and name matches the table |
| NodeIdentity.OperationKeepsCoherence | src/declarative_opcua/universalnode.cpp:98-176 | every operation with a coherent source keeps a node coherent with the table |
| NodeIdentity.RunsKeepCoherence | src/declarative_opcua/universalnode.cpp:98-360 | every sequence of such operations keeps it coherent |
| NodeIdentity.ResolvedNodePrintsFirstIndex | src/declarative_opcua/universalnode.cpp:163-176 | resolving a node known by a listed name makes it print the first index of that name |
| NodeIdentity.ResolutionIsIdempotent | src/declarative_opcua/universalnode.cpp:133-139 | resolving again changes nothing and emits nothing |
| NodeIdentity.CopyIsFaithfulIff | src/declarative_opcua/universalnode.cpp:78-84 | a copy equals its original if and only if name and valid index go together or both are missing; copying twice is copying once |
| NodeIdentity.UnfaithfulCopies | src/declarative_opcua/universalnode.cpp:78-84 | what the copy constructor makes of a nameless index and of an unresolved name |
| NodeIdentity.CopyIsCoherentIff | src/declarative_opcua/universalnode.cpp:78-84 | a copy is coherent with the table if and only if the table has its name at its index, whether or not that index was valid |
| NodeIdentity.CopyBreaksCoherence | src/declarative_opcua/universalnode.cpp:78-84 | a concrete coherent node whose copy contradicts the table |
| NodeIdentity.FromNodeIsFaithfulIff | src/declarative_opcua/universalnode.cpp:272-276 | from(UniversalNode) takes over its source if and only if that has a valid index or nothing stale remains |
| UniversalNode.UniversalNode.SetMembers | src/declarative_opcua/universalnode.cpp:315-360 | sets and invalidates the members in the order of the source and emits each signal once, after all members are set |
| UniversalNode.UniversalNode.SetNamespace | src/declarative_opcua/universalnode.cpp:98-104 | the new members and the emitted signals are those of the operation's specification |
| UniversalNode.UniversalNode.SetNamespaceIndex | src/declarative_opcua/universalnode.cpp:111-114 | the new members and the emitted signals are those of the operation's specification |
| UniversalNode.UniversalNode.SetNodeIdentifier | src/declarative_opcua/universalnode.cpp:121-131 | the new members and the emitted signals are those of the operation's specification |
| UniversalNode.UniversalNode.ResolveNamespace | src/declarative_opcua/universalnode.cpp:133-139 | the new members and the emitted signals are those of the operation's specification |
| UniversalNode.UniversalNode.ResolveNamespaceIndexToName | src/declarative_opcua/universalnode.cpp:141-161 | the new members and the emitted signals are those of the operation's specification |
| UniversalNode.UniversalNode.ResolveNamespaceNameToIndex | src/declarative_opcua/universalnode.cpp:163-176 | the new members and the emitted signals are those of the operation's specification |
| UniversalNode.UniversalNode.FromQualifiedName | src/declarative_opcua/universalnode.cpp:240-243 | the new members and the emitted signals are those of the operation's specification |
| UniversalNode.UniversalNode.FromExpandedNodeId | src/declarative_opcua/universalnode.cpp:245-248 | the new members and the emitted signals are those of the operation's specification |
| UniversalNode.UniversalNode.FromTarget | src/declarative_opcua/universalnode.cpp:250-259 | the new members and the emitted signals are those of the operation's specification |
| UniversalNode.UniversalNode.FromNodeIdType | src/declarative_opcua/universalnode.cpp:265-270 | the new members and the emitted signals are those of the operation's specification |
| UniversalNode.UniversalNode.FromNode | src/declarative_opcua/universalnode.cpp:272-276 | the new members and the emitted signals are those of the operation's specification |
| UniversalNode.UniversalNode.Assign | src/declarative_opcua/universalnode.cpp:301-308 | takes over all four members and emits nothing |
| UniversalNode.UniversalNode.FullNodeId | src/declarative_opcua/universalnode.cpp:278-294 | empty exactly without a valid index or an identifier; otherwise a text that splits back into both unless the identifier has a semicolon |
| UniversalNode.UniversalNode.CopyOf | src/declarative_opcua/universalnode.cpp:78-84 | a copy made by the copy constructor |
| TargetSelection.SelectTarget | src/declarative_opcua/opcuapathresolver.cpp:188-230 | the selection of the source, including its early return and its message, for any number of results |
| TargetSelection.SelectIsJudged | src/declarative_opcua/opcuapathresolver.cpp:203-230 | with two or more results: a named local target followed by no other local target is chosen; followed by one, it is an error; without one, the message tells whether a remote target was seen |
| TargetSelection.CleanSelection | src/declarative_opcua/opcuapathresolver.cpp:203-230 | if all ids are well formed: the unique fully resolved local target, the multiple-nodes error, or failure if there is none |
| TargetSelection.CleanSelectionIgnoresOrder | src/declarative_opcua/opcuapathresolver.cpp:203-230 | any permutation of well-formed results is selected alike |
| TargetSelection.OrderIsIgnoredIff | src/declarative_opcua/opcuapathresolver.cpp:203-230 | for arbitrary results: all permutations give the very same selection if and only if it is not the case that exactly one of several local targets is named |
| TargetSelection.AmbiguousDependsOnOrder | src/declarative_opcua/opcuapathresolver.cpp:214-219 | in that case some order succeeds and another one fails |
| TargetSelection.AnAmbiguousPair | src/declarative_opcua/opcuapathresolver.cpp:214-219 | a concrete pair of targets, one order of which is used and the other refused |
| TargetSelection.ChosenIff | src/declarative_opcua/opcuapathresolver.cpp:188-230 | a target is used if and only if it is a single local result, or the last local one of several results and alone in being named |
| TargetSelection.ChosenIsMatchedIff | src/declarative_opcua/opcuarelativenodeid.cpp:53-55 | a selection is backed by a fully matched local target if and only if there were several results or the single one was fully resolved |
| TargetSelection.DocumentedRuleIff | src/declarative_opcua/opcuarelativenodeid.cpp:53-55 | that a target is used if and only if the path fully matches exactly one, as documented, holds on exactly the results given by a condition on the number, the remote targets and the names; then the matched target is the one used |
| TargetSelection.PartialMatchIsUsed | src/declarative_opcua/opcuapathresolver.cpp:193-201 | every single local partial match is used although it is documented as an error |
| TargetSelection.SampleRefusals | src/declarative_opcua/opcuapathresolver.cpp:188-230 | the messages for no results, a single remote one, only partial ones, and a remote one beside a partial one |
| TargetSelection.APartialMatch | src/declarative_opcua/opcuapathresolver.cpp:193-201 | a concrete partial match and the node that is used |
| PathSteps.Emit | src/declarative_opcua/opcuapathresolver.cpp:132-149 | one emission unwinds some topmost resolvers, once each and in order, until a browse is outstanding or nobody is left |
| PathSteps.StartResolving | src/declarative_opcua/opcuapathresolver.cpp:96-132 | at most 51 resolvers are created; what has emitted has emitted once, innermost first |
| PathSteps.BrowsePathFinished | src/declarative_opcua/opcuapathresolver.cpp:174-236 | a reply makes at least its resolver emit |
| PathSteps.ExactlyOnce | src/declarative_opcua/opcuapathresolver.cpp:96-236 | whatever the graph, the surroundings and the replies: at most 51 resolvers, none emits twice, and after at most 51 replies each has emitted exactly once, the outermost last |
| PathSteps.ErrorsReachTheTop | src/declarative_opcua/opcuapathresolver.cpp:145-149 | an error reaches the outermost resolver within the same event, as an error, and unchanged if nothing is deleted |
| PathSteps.LongChainsFail | src/declarative_opcua/opcuapathresolver.cpp:117-123 | more than 51 relative ids in a row end in an error of the outermost resolver, with nobody left and no browse outstanding |
| PathSteps.CyclesFail | src/declarative_opcua/opcuapathresolver.cpp:117-123 | a chain that runs into a cycle, at any distance, ends in an error of the outermost resolver, with nobody left and no browse outstanding |
| PathSteps.StartFailures | src/declarative_opcua/opcuapathresolver.cpp:96-123 | the error with which a starting resolver gives up, cause by cause in their order, at depth 50 among them |
| PathSteps.StartNodeFailures | src/declarative_opcua/opcuapathresolver.cpp:134-172 | the node and error with which a resolver with a start node gives up, and the node id it browses from otherwise |
| PathSteps.ReplyOutcomes | src/declarative_opcua/opcuapathresolver.cpp:174-235 | the node and error a reply makes the waiting resolver emit |
| PathSteps.OutermostSuccessIff | src/declarative_opcua/opcuapathresolver.cpp:188-235 | the outermost resolver emits success if and only if a good reply selects a target, and then a node with an identifier if and only if there were several results or the id of the single one splits |
| PathSteps.CascadesFail | src/declarative_opcua/opcuapathresolver.cpp:134-172 | when an emission wakes further resolvers, all they emit in the same event are errors |
| PathSteps.RunSucceedsIff | src/declarative_opcua/opcuapathresolver.cpp:96-236 | in every run the outermost resolver emits success if and only if some reply finds it alone and selects a target |
| PathSteps.AnEmptySuccess | src/declarative_opcua/opcuapathresolver.cpp:193-201 | a concrete single result that ends in success with the empty node |
| PathSteps.ErrorIsEmptyIff | src/declarative_opcua/opcuapathresolver.cpp:151-158 | the error about a start node that cannot be created carries the empty node, as documented, if and only if that start has neither a name nor an identifier |
| PathSteps.AnErrorWithANode | src/declarative_opcua/opcuapathresolver.cpp:151-158 | a concrete start node that is emitted along with its error |
| PathSteps.RunsTell | src/declarative_opcua/opcuapathresolver.cpp:57-58 | in every run all errors carry the empty node except those about a start node that cannot be created, and all successes carry an identifier if every single local result has one |
| PathRefinement.ResolversRefineWalk | src/declarative_opcua/opcuapathresolver.cpp:96-236 | for a chain of at most 51 relative ids ending at an absolute node with an identifier and a valid index or a listed name, the outermost resolver emits the node, or the error, of the plain recursion of browse and select from that index and identifier |
| PathRefinement.StartIsResolved | src/declarative_opcua/universalnode.cpp:265-270 | an absolute start node with an identifier is resolved to its valid index, or else the first index of its listed name, and has no place otherwise |
| PathRefinement.PlacelessChainFails | src/declarative_opcua/opcuapathresolver.cpp:151-158 | a chain that ends at a start node without a place fails before any browse |
| PathRefinement.OneReply | src/declarative_opcua/opcuapathresolver.cpp:174-236 | one clean reply either finishes the outermost resolver or makes the level below browse from the place just found |
| PathRefinement.PassedOnIff | src/declarative_opcua/universalnode.cpp:78-84 | the copy handed to the level below keeps a target's index if and only if the table names it; otherwise that level cannot create its node |
| PathResolver.PathResolver.Emit | src/declarative_opcua/opcuapathresolver.cpp:98-101 | terminates and leaves exactly the stack, outstanding browse and emissions of the specified step |
| PathResolver.PathResolver.StartNodeResolved | src/declarative_opcua/opcuapathresolver.cpp:134-172 | terminates and leaves exactly the stack, outstanding browse and emissions of the specified step |
| PathResolver.PathResolver.StartResolving | src/declarative_opcua/opcuapathresolver.cpp:96-132 | terminates and leaves exactly the stack, outstanding browse and emissions of the specified step |
| PathResolver.PathResolver.BrowsePathFinished | src/declarative_opcua/opcuapathresolver.cpp:174-236 | terminates and leaves exactly the stack, outstanding browse and emissions of the specified step |

## Left out

- CodecLaws.Lawful: minimality is stated with four bytes to spare behind the value, because a string whose length word is cut is read from fewer bytes than it is written with.
- PathRefinement.ResolversRefineWalk: assumes that the targets that can be used come without a URI, with an id that splits and an index the table names, that the backend is a function of node id and path, and that nothing is deleted; exactly-once and termination need none of this.
- Conversion between UTF-16 and UTF-8, base64 and UUID text: identifiers other than numbers enter the codec as bytes or Guid values.
- Wire.DecString: carries malformed UTF-8 unchanged, where QString::fromUtf8 replaces each malformed byte by U+FFFD.
- StructureCodecs.StringThrifty: only for decoded strings in well-formed UTF-8; QString::fromUtf8 replaces malformed bytes by three-byte characters, which can make the encoding longer than what was read, and this replacement is not modelled.
- StructureCodecs.TextThrifty: only for well-formed UTF-8, as StringThrifty.
- StructureCodecs.UnitsThrifty: only for well-formed UTF-8, as StringThrifty.
- StructureCodecs.AxisThrifty: only for well-formed UTF-8, as StringThrifty.
- NodeCodecs.NodeIdIsShortest: only for well-formed UTF-8, as StringThrifty.
- NodeCodecs.ExpandedNodeIdThrifty: only for well-formed UTF-8, as StringThrifty.
- RecordCodecs.ExtensionObjectThrifty: only for well-formed UTF-8, as StringThrifty.
- RecordCodecs.ArgumentThrifty: only for well-formed UTF-8, as StringThrifty.
- RecordCodecs.ApplicationRecordThrifty: only for well-formed UTF-8, as StringThrifty.
- Plain bool and single integer reads of other widths, StatusCode, ComplexNumber, DoubleComplexNumber and XValue: they would only add more pairs of fixed-width members.
- Two encoding objects working on one shared buffer, and the buffer inside an extension object: each object owns its buffer here.
- Buffers longer than 2^31-1 bytes, where the int offset would overflow, and negative offsets while decoding.
- Invalid QDateTime values as input of an encode.
- Whitespace and signs in QString::toUInt, and the meaning of floating-point values.
- Logging, signal and slot machinery, deferred deletion of objects, and the destruction of the target object that owns a resolver.
- Conversion of relative path elements for the backend: a path is handed on as it is.
- The remaining constructors of UniversalNode and its conversions to QualifiedName and ExpandedNodeId: one call of setMembers or one guarded copy each.
- QOpcUaClientPrivate, connections, value nodes, attribute cache, discovery, requests and results: event plumbing and data holders.
