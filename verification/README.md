# AIT codec model

A Dafny model of TSDuck's codec for the DVB Application Information Table (AIT), as implemented in `src/libtsduck/dtv/tables/tsAIT.cpp`. The AIT is defined in clause 5.3.4 of ETSI TS 102 809.

The model covers four pieces:

- **The table id extension.** It packs the test application flag into bit 15 and the low 15 bits of the application type into bits 0-14. Unpacking reverses this.
- **The segmenting serializer.** It writes the common descriptor list first. When that list needs several sections, each of those sections is closed with a zero application loop length. Applications follow in identifier order. A new section is opened before an application when fewer than 9 bytes remain. It is also opened when the whole application does not fit and the section already holds more than its 4-byte minimum. An application that starts a fresh section is written with the longest run of whole descriptors that fits. Each flush backpatches the 12-bit application_loop_length.
- **The deserializer.** It reads each section's common descriptor list, the reserved bits, the loop length and the application loop, and merges everything into one table. A buffer underflow is an error. So is a loop that does not end exactly where the loop length says; the source calls that a user error.
- **The XML decoder.** Attributes are checked against their ranges. Each application needs an identifier child. The first invalid application makes the whole decode fail. A later application with the same identifier replaces an earlier one. The XML encoder is modelled as well, so the round trip can be stated.

## Modules

| module | file | contents |
|---|---|---|
| `Results` | results.dfy | `Option` and `Result`, usable with `:-` |
| `Bytes` | bytes.dfy | bounded integer types; big-endian 16/32-bit fields; the 4-reserved-bit + 12-bit length field |
| `Descriptors` | descriptors.dfy | descriptors as opaque tag-length-value records; lists with a length prefix; the partial list writer (`FitIndex`) and the list reader |
| `Ait` | ait.dfy | the table value; the identity extension; `ClearContent`; iteration in identifier order; storing entries into the map |
| `Sections` | sections.dfy | the section payload layout and its reference encoding |
| `Serializer` | serializer.dfy | `serializePayload` and `addSection`, over a writer value holding the emitted payloads, the payload in progress and the saved offset |
| `Deserializer` | deserializer.dfy | `deserializePayload` and reassembly of a whole table |
| `RoundTrip` | roundtrip.dfy | what a serialized table deserializes to |
| `XmlCodec` | xml.dfy | the validation logic of `analyzeXML`, and the XML form `buildXML` produces |

### Parameters of the model

- `cap` is the serializer's payload capacity. `serializePayload` (`tsAIT.cpp:146`) writes into a buffer that the generic table code sizes, and that code is not part of this model. The model allows any capacity from 13 to 4084 (`ValidCapacity`):
  - 13 is the 4-byte minimum payload plus the 9-byte fixed part of an application;
  - 4084 is the largest payload of a long section (ISO/IEC 13818-1): 4096 bytes minus the 8-byte header and the 4-byte CRC.
- `DescriptorMerge` says what the deserializer does with a descriptor list read for a table or application that already holds one: `Append` or `Replace`. The list reader that decides this is not part of this model.
- `CommonDescsFit` requires every common descriptor to fit in a section next to the two length fields. Without it, the source's common-descriptor loop would not make progress. A descriptor is at most 257 bytes, so it holds for every capacity of 261 or more (`Serializer.CommonDescsFitFrom`).

### Behaviour of the code worth noting

- An application element may have several `application_identifier` children. The code takes the first and ignores the others (`tsAIT.cpp:316`).
- `deserializePayload` does not check that all sections share one table id extension. Each section overwrites the flag and the type (`tsAIT.cpp:114-116`).

## Model

| member | source | states |
|---|---|---|
| Ait.TableIdExtension | src/libtsduck/dtv/tables/tsAIT.cpp:88-91 | bit 15 of the extension is the test flag; bits 0-14 are the application type modulo 0x8000 |
| Ait.IdExtensionRoundTrip | src/libtsduck/dtv/tables/tsAIT.cpp:114-116 | unpacking a packed extension always recovers the flag, and recovers the application type if and only if it is at most 0x7FFF |
| Ait.TestFlagOf | src/libtsduck/dtv/tables/tsAIT.cpp:115 | the test flag is set exactly when bit 15 of the extension is set |
| Ait.ApplicationTypeOf | src/libtsduck/dtv/tables/tsAIT.cpp:116 | the application type is the extension with bit 15 cleared, so it is at most 0x7FFF |
| Ait.IdExtensionUnpackPack | src/libtsduck/dtv/tables/tsAIT.cpp:114-116 | every 16-bit extension is the packing of its unpacked fields, and the unpacked type fits in 15 bits |
| Ait.ClearContent | src/libtsduck/dtv/tables/tsAIT.cpp:98-104 | the cleared table has extension 0 and empty descriptor and application collections; version and current flag are kept |
| Ait.SortedEntries | src/libtsduck/dtv/tables/tsAIT.cpp:176 | the applications in iteration order: their identifiers are the map's keys in ascending order, and each entry carries the map's application for its identifier |
| Ait.SortedEntriesDistinct | src/libtsduck/dtv/tables/tsAIT.cpp:176 | iterating over the application map never yields an identifier twice |
| Ait.PutAllSortedEntries | src/libtsduck/dtv/tables/tsAIT.cpp:176 | storing the applications again, in iteration order, rebuilds the same map |
| Ait.PutAllContents | src/libtsduck/dtv/tables/tsAIT.cpp:327 | after storing entries, a key is present if and only if it was present before or some entry carries it; it maps to the last entry carrying it, and other keys keep their old values |
| Descriptors.FitIndex | src/libtsduck/dtv/tables/tsAIT.cpp:156 | the partial list writer writes the longest run of whole descriptors from the start index that fits the budget: one more descriptor would not fit |
| Descriptors.FitIndexWhole | src/libtsduck/dtv/tables/tsAIT.cpp:156 | when the rest of the list fits the budget, the partial writer writes all of it |
| Descriptors.ReadListWithLength | src/libtsduck/dtv/tables/tsAIT.cpp:119 | a list read succeeds only within the buffer; its length field is the byte size of the list read, and reading resumes right after it |
| Descriptors.ReadListWithLengthSound | src/libtsduck/dtv/tables/tsAIT.cpp:119 | the bytes an accepted list is read from are exactly that list's encoding |
| Descriptors.ReadListAt | src/libtsduck/dtv/tables/tsAIT.cpp:119 | a list written with its length is read back as itself, ending just after it |
| Descriptors.ListSizeZero | src/libtsduck/dtv/tables/tsAIT.cpp:184 | only the empty list has binary size 0; every descriptor takes at least 2 bytes |
| Sections.EntrySizeMinimal | src/libtsduck/dtv/tables/tsAIT.cpp:184 | an application's size is at least 9 bytes plus 2 per descriptor, and exactly 9 when it has no descriptor |
| Deserializer.ReadEntry | src/libtsduck/dtv/tables/tsAIT.cpp:128-132 | an application read takes the 32-bit organisation id, the 16-bit application id and the control code, then one descriptor list, and consumes exactly 9 bytes plus the list's size |
| Deserializer.ReadEntriesAt | src/libtsduck/dtv/tables/tsAIT.cpp:127-133 | the application loop reads back exactly the applications written, in order, and stops at the end of the payload |
| Deserializer.ParsePayload | src/libtsduck/dtv/tables/tsAIT.cpp:119-138 | an accepted payload has the size of the reference encoding of its content, and both 12-bit length fields hold the byte sizes of the parts they announce |
| Deserializer.ParseLaidOut | src/libtsduck/dtv/tables/tsAIT.cpp:119-138 | a well-formed payload yields its content exactly when its loop length matches the applications' size, and a user error otherwise |
| Deserializer.ParsePayloadRoundTrip | src/libtsduck/dtv/tables/tsAIT.cpp:111-139 | reading the encoding of any section content that fits in a section gives that content back |
| Deserializer.ParseRejectsWrongLoopLength | src/libtsduck/dtv/tables/tsAIT.cpp:136-138 | a payload whose reads all succeed but whose loop length is wrong is rejected with a user error |
| Deserializer.InsertEntry | src/libtsduck/dtv/tables/tsAIT.cpp:130-132 | a repeated identifier keeps its map slot, takes the new control code and merges the descriptor lists; every other application is unchanged |
| Deserializer.InsertEntriesFresh | src/libtsduck/dtv/tables/tsAIT.cpp:127-133 | applications with new and distinct identifiers are stored as read, whichever merge mode applies |
| Deserializer.InsertEntriesReplace | src/libtsduck/dtv/tables/tsAIT.cpp:127-133 | in Replace mode, a later application with the same identifier replaces the earlier one outright |
| Deserializer.DeserializePayload | src/libtsduck/dtv/tables/tsAIT.cpp:111-139 | a section is accepted exactly when its payload reads without error; the table then takes the section's extension, and its version and current flag are untouched |
| Deserializer.Deserialize | src/libtsduck/dtv/tables/tsAIT.cpp:111-139 | a whole table deserializes exactly when every one of its sections reads without error |
| Deserializer.DeserializeContents | src/libtsduck/dtv/tables/tsAIT.cpp:111-139 | deserializing encoded sections takes the identity fields from the extension, merges the common lists in section order and stores every application in order |
| Deserializer.MergeAllModes | src/libtsduck/dtv/tables/tsAIT.cpp:119 | appending keeps every section's common descriptors in order; replacing keeps only the last section's |
| Serializer.AddSection | src/libtsduck/dtv/tables/tsAIT.cpp:210-235 | the flushed payload is the payload in progress with four 1-bits and the 12-bit distance from the end of the reserved field to the write offset written over that field; a non-final flush opens a section holding an empty list and a fresh reservation |
| Serializer.BackpatchEncodes | src/libtsduck/dtv/tables/tsAIT.cpp:215-220 | backpatching a payload that holds a descriptor slice and some applications gives the reference encoding of exactly that content |
| Serializer.DescriptorPhase | src/libtsduck/dtv/tables/tsAIT.cpp:153-169 | the common descriptor loop keeps the sections already emitted, emits only sections within capacity, and leaves a payload with room for the loop length |
| Serializer.DescriptorStep | src/libtsduck/dtv/tables/tsAIT.cpp:159-168 | while descriptors remain, the section closed carries the slice written and a zero loop length, and writing resumes from the index returned |
| Serializer.DescriptorPhaseContents | src/libtsduck/dtv/tables/tsAIT.cpp:153-169 | the sections of the common descriptor phase carry no application, and their slices plus the slice in progress are the whole remaining list, in order |
| Serializer.LoopStartContents | src/libtsduck/dtv/tables/tsAIT.cpp:171-173 | after the descriptor phase the loop length is reserved right after the common list of the section in progress |
| Serializer.MakeRoom | src/libtsduck/dtv/tables/tsAIT.cpp:179-191 | a new section is opened exactly when fewer than 9 bytes remain, or when the application does not fit and the section is past its 4-byte minimum; afterwards the fixed part fits, and the whole application fits unless the section is fresh |
| Serializer.TruncationPoint | src/libtsduck/dtv/tables/tsAIT.cpp:195-198 | wherever an application is written, the partial writer cuts its descriptors where a fresh section would |
| Serializer.TruncatedFits | src/libtsduck/dtv/tables/tsAIT.cpp:198 | the application as written never overflows the section |
| Serializer.WriteEntry | src/libtsduck/dtv/tables/tsAIT.cpp:195-198 | writing an application appends exactly the encoding of its truncated form and stays within capacity |
| Serializer.SerializeEntry | src/libtsduck/dtv/tables/tsAIT.cpp:176-199 | one loop turn flushes the section exactly when a new one must be opened, then appends the application's truncated encoding; an application at the start of a fresh section is never moved |
| Serializer.SerializeEntries | src/libtsduck/dtv/tables/tsAIT.cpp:176-199 | the application loop keeps every section already emitted, and every section and the payload in progress stay within capacity |
| Serializer.EntryStep | src/libtsduck/dtv/tables/tsAIT.cpp:176-199 | one loop turn either extends the section in progress with the application, or emits that section's encoding and starts a section holding only the application |
| Serializer.EntriesPhase | src/libtsduck/dtv/tables/tsAIT.cpp:176-202 | the application loop and the final flush emit sections that carry every application once, in iteration order |
| Serializer.Serialize | src/libtsduck/dtv/tables/tsAIT.cpp:146-203 | serialization yields at least one section; every section carries the table's extension and fits the capacity |
| Serializer.SerializeContents | src/libtsduck/dtv/tables/tsAIT.cpp:146-203 | the sections are encodings of contents that together carry the whole common list, in order, and every application in identifier order, each cut only as far as a fresh section requires |
| RoundTrip.TruncationsSorted | src/libtsduck/dtv/tables/tsAIT.cpp:176-198 | truncating the applications in iteration order equals iterating over the truncated map |
| RoundTrip.TruncateAppsIdempotent | src/libtsduck/dtv/tables/tsAIT.cpp:198 | a truncated application always fits in a fresh section, so truncating twice changes nothing |
| RoundTrip.TruncateAppsWhole | src/libtsduck/dtv/tables/tsAIT.cpp:198 | when every application's descriptors fit in a fresh section, nothing is truncated |
| RoundTrip.MergeAllSuffix | src/libtsduck/dtv/tables/tsAIT.cpp:119 | the merged common list always ends the original list, and is the whole list in Append mode or when there is one section |
| RoundTrip.SerializeDeserialize | src/libtsduck/dtv/tables/tsAIT.cpp:111-203 | deserializing a serialized table always succeeds; it recovers the flag, the application type modulo 0x8000 and the applications as written, the common list in Append mode or when one section suffices, and at least a suffix of it otherwise |
| RoundTrip.SerializeDeserializeLossless | src/libtsduck/dtv/tables/tsAIT.cpp:111-203 | a table whose application type fits in 15 bits and whose applications fit in a section survives the round trip in Append mode unchanged, apart from version and current flag |
| RoundTrip.SerializeEmpty | src/libtsduck/dtv/tables/tsAIT.cpp:202 | an empty table yields exactly one section: an empty common list and a zero loop length |
| XmlCodec.GetInt | src/libtsduck/dtv/tables/tsAIT.cpp:306 | an integer attribute is accepted when it is absent and optional (taking the default), or present and in range; nothing else is accepted |
| XmlCodec.GetBool | src/libtsduck/dtv/tables/tsAIT.cpp:307-308 | a boolean attribute is accepted when it is absent and optional (taking the default), or present and well-formed |
| XmlCodec.AnalyzeApplication | src/libtsduck/dtv/tables/tsAIT.cpp:316-324 | an application decodes if and only if its control code is a byte, its descriptors decode and its identifier child exists with in-range ids; the entry carries those values |
| XmlCodec.AnalyzeApplications | src/libtsduck/dtv/tables/tsAIT.cpp:313-329 | the application loop succeeds if and only if every application is valid |
| XmlCodec.AnalyzeApplicationsPutAll | src/libtsduck/dtv/tables/tsAIT.cpp:313-329 | valid applications are stored one after the other, each at its identifier |
| XmlCodec.AnalyzeXml | src/libtsduck/dtv/tables/tsAIT.cpp:302-331 | the decode succeeds if and only if the element is valid, with version 0 and flags true by default and the required application type as given |
| XmlCodec.AnalyzeXmlLastWins | src/libtsduck/dtv/tables/tsAIT.cpp:326-328 | an identifier is in the decoded table if and only if some application carries it, and it holds the last application carrying it |
| XmlCodec.ToXml | src/libtsduck/dtv/tables/tsAIT.cpp:278-295 | the XML form is valid exactly when the version and application type are in range; it has one application element per application, each decoding to one of the table's applications, and no two share an identifier |
| XmlCodec.XmlRoundTrip | src/libtsduck/dtv/tables/tsAIT.cpp:278-295 | the XML form of a table decodes to the table itself if its version is at most 31 and its application type at most 0x7FFF, and is rejected otherwise |
| XmlCodec.ApplicationsRoundTrip | src/libtsduck/dtv/tables/tsAIT.cpp:286-294 | the application elements written for a map decode back to that map |

## Left out

- `DisplaySection` (human-readable output) is not modelled. The 9-byte loop guard it uses only governs display.
- The RIST plugin is network input/output over a library that is not part of this model.
- The PSI buffer's bit cursor, error flag and read/write state stack are modelled as a writer value with one saved offset. The deserializer reads at explicit offsets.
- Descriptors are opaque records of at most 257 bytes: a tag, a length byte and the body. Their contents and the descriptor classes are not modelled.
- The XML library is not modelled: an element is given by its attribute values, and each descriptor list by the outcome of decoding it (`Option`). The formatting of `buildXML` is not modelled either.
- Error messages and the order in which attribute errors are reported are left out. The model records only success or failure.
- On a failed XML decode the source leaves a partly filled table behind. The model returns `None` instead.
- The section header (table id, version, section numbers, CRC) is written and checked by the generic table code, which is not part of this model. A section here is its table id extension and its payload. The check that all sections share one extension belongs to the same generic code.
- When an application read runs out of data, the source may already have inserted a half-read entry. The model returns an error instead; the source marks such a table invalid.
- The behaviour of the unseen descriptor list reader on a repeated key is the `DescriptorMerge` parameter.
- Descriptors.ReadListWithLength: assumes that the unseen list reader (called at `tsAIT.cpp:119` and `:132`) sets the buffer error when the records do not exactly fill the declared length. That covers a record running past it, or a length running past the buffer. The reader might instead keep the whole records and only report failure without setting the error. The "exactly when" of `Deserializer.DeserializePayload` and `Deserializer.Deserialize` rests on this assumption.
- Serializer.Serialize: requires `ValidCapacity` and `CommonDescsFit`. The source has no such precondition. The capacity comes from the generic table code, and `CommonDescsFit` holds for every capacity of 261 or more, because a descriptor is at most 257 bytes.
- Deserializer.Deserialize: starts from `ClearContent` of the target. Reading the version and current flag from the section header is left to the generic table code, so they keep the target's values.
- XmlCodec.AnalyzeXml: starts from an empty application map, as after the caller clears the table.
