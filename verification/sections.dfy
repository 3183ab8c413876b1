/** The AIT section payload layout shared by the serializer and the
    deserializer:

      common descriptor list with length (16-bit length field + records)
      4 reserved bits, 12-bit application_loop_length
      applications: organization_id (32), application_id (16),
                    application_control_code (8), descriptor list with length

    The section header, which carries the table id extension, version and
    section numbers, is written by generic code; here a section is only its
    table id extension and its payload. */
module Sections {
  import opened Bytes
  import opened Descriptors
  import opened Ait

  /** Largest payload a long section can carry: ISO/IEC 13818-1 limits a
      private section to 4096 bytes, of which the long header takes 8 and
      the CRC 4. The capacity the serializer actually gets is set by the
      generic table code, which is not part of this model. */
  const MaxPayloadSize: nat := 4084

  /** An empty common descriptor list plus the application_loop_length. */
  const PayloadMinSize: nat := 4

  /** Fixed part of one application: ids, control code and the length field
      of its descriptor list. */
  const EntryFixedSize: nat := 9

  datatype Section = Section(tableIdExtension: uint16, payload: seq<byte>)

  /** What one section carries, logically: a slice of the common
      descriptor list and a run of applications. */
  datatype Content = Content(descs: seq<Descriptor>, entries: seq<Entry>)

  /** Wire size of an application entry (`9 + descs.binarySize()`). */
  function EntrySize(e: Entry): nat
  {
    EntryFixedSize + ListSize(e.descs)
  }

  function EncodeEntry(e: Entry): (b: seq<byte>)
  {
    U32(e.key.organizationId) + U16(e.key.applicationId) + [e.controlCode] + ListWithLength(e.descs)
  }

  function EncodeEntries(es: seq<Entry>): seq<byte>
  {
    if es == [] then [] else EncodeEntry(es[0]) + EncodeEntries(es[1..])
  }

  /** Reference encoding of one section payload. */
  function EncodeSection(c: Content): seq<byte>
  {
    ListWithLength(c.descs) + LengthField(|EncodeEntries(c.entries)|) + EncodeEntries(c.entries)
  }

  function AllDescs(cs: seq<Content>): seq<Descriptor>
  {
    if cs == [] then [] else cs[0].descs + AllDescs(cs[1..])
  }

  function AllEntries(cs: seq<Content>): seq<Entry>
  {
    if cs == [] then [] else cs[0].entries + AllEntries(cs[1..])
  }

  function Payloads(cs: seq<Content>): (ps: seq<seq<byte>>)
    ensures |ps| == |cs|
    ensures forall i :: 0 <= i < |cs| ==> ps[i] == EncodeSection(cs[i])
  {
    if cs == [] then [] else [EncodeSection(cs[0])] + Payloads(cs[1..])
  }

  /** Sections of one table: every payload under the same extension. */
  function Stamp(ext: uint16, ps: seq<seq<byte>>): (ss: seq<Section>)
    ensures |ss| == |ps|
    ensures forall i :: 0 <= i < |ps| ==> ss[i] == Section(ext, ps[i])
  {
    if ps == [] then [] else [Section(ext, ps[0])] + Stamp(ext, ps[1..])
  }

  lemma {:induction false} EncodeEntrySize(e: Entry)
    ensures |EncodeEntry(e)| == EntrySize(e)
  {
    EncodeListSize(e.descs);
  }

  /** An application takes at least its 9 fixed bytes, and exactly 9
      when it has no descriptor. */
  lemma {:induction false} EntrySizeMinimal(e: Entry)
    ensures EntrySize(e) >= EntryFixedSize + 2 * |e.descs|
    ensures EntrySize(e) == EntryFixedSize <==> e.descs == []
  {
    ListSizeZero(e.descs);
  }

  lemma {:induction false} EncodeEntriesAppend(a: seq<Entry>, b: seq<Entry>)
    ensures EncodeEntries(a + b) == EncodeEntries(a) + EncodeEntries(b)
  {
    if a == [] {
      assert a + b == b;
    } else {
      assert (a + b)[1..] == a[1..] + b;
      EncodeEntriesAppend(a[1..], b);
    }
  }

  lemma {:induction false} EncodeSectionSize(c: Content)
    ensures |EncodeSection(c)| == 4 + ListSize(c.descs) + |EncodeEntries(c.entries)|
  {
    EncodeListSize(c.descs);
  }

  lemma {:induction false} AllDescsAppend(a: seq<Content>, b: seq<Content>)
    ensures AllDescs(a + b) == AllDescs(a) + AllDescs(b)
  {
    if a == [] {
      assert a + b == b;
    } else {
      assert (a + b)[1..] == a[1..] + b;
      AllDescsAppend(a[1..], b);
    }
  }

  lemma {:induction false} AllEntriesAppend(a: seq<Content>, b: seq<Content>)
    ensures AllEntries(a + b) == AllEntries(a) + AllEntries(b)
  {
    if a == [] {
      assert a + b == b;
    } else {
      assert (a + b)[1..] == a[1..] + b;
      AllEntriesAppend(a[1..], b);
    }
  }

  /** One content in front of others. */
  lemma {:induction false} ConsContents(c: Content, cs: seq<Content>)
    ensures AllDescs([c] + cs) == c.descs + AllDescs(cs)
    ensures AllEntries([c] + cs) == c.entries + AllEntries(cs)
    ensures Payloads([c] + cs) == [EncodeSection(c)] + Payloads(cs)
  {
    assert ([c] + cs)[1..] == cs;
  }

  lemma {:induction false} PayloadsAppend(a: seq<Content>, b: seq<Content>)
    ensures Payloads(a + b) == Payloads(a) + Payloads(b)
  {
  }
}
