/** The reassembling deserializer: reads each section payload of a table
    and merges what it carries into one table. Any read error makes the
    result an error, as it makes the implementation's table invalid. */
module Deserializer {
  import opened Bytes
  import opened Results
  import opened Descriptors
  import opened Ait
  import opened Sections

  /** How a descriptor list read from a section is combined with the list
      the table already holds. The list reader of the implementation is not
      part of this model, so both behaviours are kept as a parameter. */
  datatype DescriptorMerge = Append | Replace

  function Merge(held: seq<Descriptor>, read: seq<Descriptor>, mode: DescriptorMerge): seq<Descriptor>
  {
    match mode
    case Append => held + read
    case Replace => read
  }

  /** Reads one application: 4 + 2 + 1 bytes of fixed fields, then one
      descriptor list with length. */
  function ReadEntry(p: seq<byte>, off: nat): (r: Result<Parsed<Entry>, ReadError>)
    ensures r.Ok? ==> off + EntryFixedSize <= |p|
    ensures r.Ok? ==> r.value.value.key == Key(GetU32(p, off), GetU16(p, off + 4))
    ensures r.Ok? ==> r.value.value.controlCode == p[off + 6]
    ensures r.Ok? ==> ListSize(r.value.value.descs) == GetLength12(p, off + 7)
    ensures r.Ok? ==> r.value.next == off + EntrySize(r.value.value) <= |p|
  {
    if off + 7 > |p| then Err(BufferError)
    else
      match ReadListWithLength(p, off + 7)
      case Err(err) => Err(err)
      case Ok(list) => Ok(Parsed(Entry(Key(GetU32(p, off), GetU16(p, off + 4)), p[off + 6], list.value), list.next))
  }

  /** The application loop of the implementation: reads applications until
      the end of the payload or the first error. */
  function ReadEntries(p: seq<byte>, off: nat): (r: Result<Parsed<seq<Entry>>, ReadError>)
    requires off <= |p|
    ensures r.Ok? ==> r.value.next == |p|
    decreases |p| - off
  {
    if off == |p| then Ok(Parsed([], off))
    else
      match ReadEntry(p, off)
      case Err(err) => Err(err)
      case Ok(e) =>
        match ReadEntries(p, e.next)
        case Err(err) => Err(err)
        case Ok(rest) => Ok(Parsed([e.value] + rest.value, rest.next))
  }

  /** Reads one section payload. It fails with a buffer error when data is
      missing, and with a user error when the applications read do not end
      exactly where application_loop_length says the loop ends. An
      accepted payload has the size of the reference encoding of its
      content, and both its length fields give the sizes of the parts they
      announce. */
  function ParsePayload(p: seq<byte>): (r: Result<Content, ReadError>)
    ensures r.Ok? ==> && |p| == 4 + ListSize(r.value.descs) + |EncodeEntries(r.value.entries)|
                      && |p| == |EncodeSection(r.value)|
                      && GetLength12(p, 0) == ListSize(r.value.descs)
                      && GetLength12(p, 2 + ListSize(r.value.descs)) == |EncodeEntries(r.value.entries)|
  {
    match ReadListWithLength(p, 0)
    case Err(err) => Err(err)
    case Ok(list) =>
      var off := list.next;
      if off + 2 > |p| then Err(BufferError)
      else
        match ReadEntries(p, off + 2)
        case Err(err) => Err(err)
        case Ok(apps) =>
          if apps.next != off + 2 + GetLength12(p, off) then Err(UserError)
          else
            ReadEntriesSize(p, off + 2);
            AcceptedSizes(p, list, apps);
            Ok(Content(list.value, apps.value))
  }

  /** The sizes in a payload whose common list and application loop were
      read, the loop ending where its length field says. */
  lemma {:induction false} AcceptedSizes(p: seq<byte>, list: Parsed<seq<Descriptor>>, apps: Parsed<seq<Entry>>)
    requires list.next == 2 + ListSize(list.value) && list.next + 2 <= |p|
    requires GetLength12(p, 0) == ListSize(list.value)
    requires |p| == list.next + 2 + |EncodeEntries(apps.value)|
    requires |p| == list.next + 2 + GetLength12(p, list.next)
    ensures var c := Content(list.value, apps.value);
            && |p| == 4 + ListSize(c.descs) + |EncodeEntries(c.entries)|
            && |p| == |EncodeSection(c)|
            && GetLength12(p, 0) == ListSize(c.descs)
            && GetLength12(p, 2 + ListSize(c.descs)) == |EncodeEntries(c.entries)|
  {
    EncodeSectionSize(Content(list.value, apps.value));
  }

  /** Stores one application at its key. A key seen before keeps its map
      slot: its control code is overwritten and its descriptor list merged;
      a new key starts from an empty list. */
  function InsertEntry(apps: map<Key, Application>, e: Entry, mode: DescriptorMerge): (r: map<Key, Application>)
    ensures r.Keys == apps.Keys + {e.key}
    ensures r[e.key].controlCode == e.controlCode
    ensures r[e.key].descs == Merge(if e.key in apps then apps[e.key].descs else [], e.descs, mode)
    ensures forall k :: k in apps && k != e.key ==> r[k] == apps[k]
  {
    var held := if e.key in apps then apps[e.key].descs else [];
    apps[e.key := Application(e.controlCode, Merge(held, e.descs, mode))]
  }

  function InsertEntries(apps: map<Key, Application>, es: seq<Entry>, mode: DescriptorMerge): map<Key, Application>
    decreases |es|
  {
    if es == [] then apps else InsertEntries(InsertEntry(apps, es[0], mode), es[1..], mode)
  }

  /** Deserializes one section into the table: the identity fields come
      from the section's table id extension. */
  function DeserializePayload(t: Table, s: Section, mode: DescriptorMerge): (r: Result<Table, ReadError>)
    ensures r.Ok? <==> ParsePayload(s.payload).Ok?
    ensures r.Ok? ==> && r.value.version == t.version && r.value.isCurrent == t.isCurrent
                      && IdExtensionOf(r.value) == s.tableIdExtension
  {
    var c :- ParsePayload(s.payload);
    IdExtensionUnpackPack(s.tableIdExtension);
    Ok(t.(applicationType := ApplicationTypeOf(s.tableIdExtension),
          testApplicationFlag := TestFlagOf(s.tableIdExtension),
          descs := Merge(t.descs, c.descs, mode),
          applications := InsertEntries(t.applications, c.entries, mode)))
  }

  function DeserializeFrom(t: Table, sections: seq<Section>, mode: DescriptorMerge): (r: Result<Table, ReadError>)
    decreases |sections|
  {
    if sections == [] then Ok(t)
    else
      var t1 :- DeserializePayload(t, sections[0], mode);
      DeserializeFrom(t1, sections[1..], mode)
  }

  /** Deserializes a whole table into `into`: its content is cleared, then
      each section is merged in order. */
  function Deserialize(into: Table, sections: seq<Section>, mode: DescriptorMerge): (r: Result<Table, ReadError>)
    ensures r.Ok? <==> forall i :: 0 <= i < |sections| ==> ParsePayload(sections[i].payload).Ok?
  {
    DeserializeSucceeds(ClearContent(into), sections, mode);
    DeserializeFrom(ClearContent(into), sections, mode)
  }

  // ---------------------------------------------------------------------
  // Properties
  // ---------------------------------------------------------------------

  /** The applications read fill the loop exactly: their reference
      encodings have the loop's size. */
  lemma {:induction false} ReadEntriesSize(p: seq<byte>, off: nat)
    requires off <= |p|
    ensures var r := ReadEntries(p, off);
            r.Ok? ==> |p| == off + |EncodeEntries(r.value.value)|
    decreases |p| - off
  {
    if off < |p| {
      var e := ReadEntry(p, off);
      if e.Ok? {
        ReadEntriesSize(p, e.value.next);
        var rest := ReadEntries(p, e.value.next);
        if rest.Ok? {
          EncodeEntrySize(e.value.value);
          var es := [e.value.value] + rest.value.value;
          assert es[1..] == rest.value.value;
          assert ReadEntries(p, off).value.value == es;
        }
      }
    }
  }

  /** Deserialization succeeds exactly when every section reads without
      error; the version and current flag are never touched. */
  lemma {:induction false} DeserializeSucceeds(t: Table, sections: seq<Section>, mode: DescriptorMerge)
    ensures var r := DeserializeFrom(t, sections, mode);
            && (r.Ok? <==> forall i :: 0 <= i < |sections| ==> ParsePayload(sections[i].payload).Ok?)
            && (r.Ok? ==> r.value.version == t.version && r.value.isCurrent == t.isCurrent)
    decreases |sections|
  {
    if sections != [] {
      var r1 := DeserializePayload(t, sections[0], mode);
      if r1.Ok? {
        DeserializeSucceeds(r1.value, sections[1..], mode);
        assert forall i :: 1 <= i < |sections| ==> sections[i] == sections[1..][i - 1];
      }
    }
  }

  /** Application `e` is written at offset `off` of `p`. */
  predicate EntryAt(p: seq<byte>, off: nat, e: Entry)
  {
    && off + EntrySize(e) <= |p|
    && GetU32(p, off) == e.key.organizationId
    && GetU16(p, off + 4) == e.key.applicationId
    && p[off + 6] == e.controlCode
    && ListAt(p, off + 7, e.descs)
  }

  /** An application read back from where it lies is itself, and the read
      ends just after it. */
  lemma {:induction false} ReadEntryAt(p: seq<byte>, off: nat, e: Entry)
    requires EntryAt(p, off, e)
    ensures ReadEntry(p, off) == Ok(Parsed(e, off + EntrySize(e)))
  {
    ReadListAt(p, off + 7, e.descs);
  }

  /** An application written inside any surrounding bytes lies where the
      reader expects it. */
  lemma {:induction false} EntryLayout(pre: seq<byte>, e: Entry, suf: seq<byte>)
    requires ListSize(e.descs) <= MaxLength12
    ensures EntryAt(pre + EncodeEntry(e) + suf, |pre|, e)
  {
    EntryFields(pre, e, suf);
    EntryList(pre, e, suf);
  }

  /** The fixed fields of a written application. */
  lemma {:induction false} EntryFields(pre: seq<byte>, e: Entry, suf: seq<byte>)
    ensures var p := pre + EncodeEntry(e) + suf;
            && |pre| + EntrySize(e) <= |p|
            && GetU32(p, |pre|) == e.key.organizationId
            && GetU16(p, |pre| + 4) == e.key.applicationId
            && p[|pre| + 6] == e.controlCode
  {
    var p := pre + EncodeEntry(e) + suf;
    var o := e.key.organizationId;
    var a := e.key.applicationId;
    var rest := U16(a) + [e.controlCode] + ListWithLength(e.descs) + suf;
    EncodeEntrySize(e);
    assert p == pre + U32(o) + rest;
    U32Read(pre, o, rest);
    assert p == (pre + U32(o)) + U16(a) + ([e.controlCode] + ListWithLength(e.descs) + suf);
    U16Read(pre + U32(o), a, [e.controlCode] + ListWithLength(e.descs) + suf);
    assert p[|pre| + 6] == e.controlCode;
  }

  /** The descriptor list of a written application. */
  lemma {:induction false} EntryList(pre: seq<byte>, e: Entry, suf: seq<byte>)
    requires ListSize(e.descs) <= MaxLength12
    ensures ListAt(pre + EncodeEntry(e) + suf, |pre| + 7, e.descs)
  {
    var o := e.key.organizationId;
    var a := e.key.applicationId;
    var head := pre + U32(o) + U16(a) + [e.controlCode];
    assert pre + EncodeEntry(e) + suf == head + ListWithLength(e.descs) + suf;
    ListLayout(head, e.descs, suf);
  }

  /** Applications `es` are written one after the other from offset `off`
      to the end of `p`. */
  predicate EntriesAt(p: seq<byte>, off: nat, es: seq<Entry>)
    decreases |es|
  {
    if es == [] then off == |p|
    else EntryAt(p, off, es[0]) && EntriesAt(p, off + EntrySize(es[0]), es[1..])
  }

  /** Reading the application loop back from where it lies gives every
      application, in order, and ends at the end of the payload. */
  lemma {:induction false} ReadEntriesAt(p: seq<byte>, off: nat, es: seq<Entry>)
    requires off <= |p|
    requires EntriesAt(p, off, es)
    ensures ReadEntries(p, off) == Ok(Parsed(es, |p|))
    decreases |es|
  {
    if es != [] {
      var mid := off + EntrySize(es[0]);
      ReadEntryAt(p, off, es[0]);
      ReadEntriesAt(p, mid, es[1..]);
      ReadEntriesStep(p, off, mid, es, |p|);
    }
  }

  /** An application loop written after any leading bytes lies where the
      reader expects it. */
  lemma {:induction false} EntriesLayout(pre: seq<byte>, es: seq<Entry>)
    requires |pre| + |EncodeEntries(es)| <= MaxPayloadSize
    ensures EntriesAt(pre + EncodeEntries(es), |pre|, es)
    decreases |es|
  {
    if es == [] {
      assert pre + EncodeEntries(es) == pre;
    } else {
      var e := es[0];
      var tail := EncodeEntries(es[1..]);
      var mid := pre + EncodeEntry(e);
      EncodeEntrySize(e);
      ConcatAssoc(pre, EncodeEntry(e), tail);
      EntriesLayout(mid, es[1..]);
      EntryLayout(pre, e, tail);
      EntriesCons(mid + tail, |pre|, es);
    }
  }

  lemma {:induction false} EntriesCons(p: seq<byte>, off: nat, es: seq<Entry>)
    requires es != []
    requires EntryAt(p, off, es[0]) && EntriesAt(p, off + EntrySize(es[0]), es[1..])
    ensures EntriesAt(p, off, es)
  {
  }

  /** One turn of the application loop. */
  lemma {:induction false} ReadEntriesStep(p: seq<byte>, off: nat, mid: nat, es: seq<Entry>, end: nat)
    requires off < |p| && mid <= |p| && es != []
    requires ReadEntry(p, off) == Ok(Parsed(es[0], mid))
    requires ReadEntries(p, mid) == Ok(Parsed(es[1..], end))
    ensures ReadEntries(p, off) == Ok(Parsed(es, end))
  {
    assert [es[0]] + es[1..] == es;
  }

  /** Where the parts of a payload lie: the common descriptor list with its
      length, the application loop length `n`, then the loop itself. */
  predicate LaidOut(p: seq<byte>, ds: seq<Descriptor>, n: nat, es: seq<Entry>)
  {
    && |p| == 4 + ListSize(ds) + |EncodeEntries(es)|
    && ListAt(p, 0, ds)
    && GetLength12(p, 2 + ListSize(ds)) == n
    && EntriesAt(p, 4 + ListSize(ds), es)
  }

  lemma {:induction false} PayloadLayout(ds: seq<Descriptor>, n: nat, es: seq<Entry>)
    requires ListSize(ds) <= MaxLength12 && n <= MaxLength12
    requires 4 + ListSize(ds) + |EncodeEntries(es)| <= MaxPayloadSize
    ensures LaidOut(ListWithLength(ds) + LengthField(n) + EncodeEntries(es), ds, n, es)
  {
    var head := ListWithLength(ds);
    var ents := EncodeEntries(es);
    ListWithLengthSize(ds);
    ConcatAssoc(head, LengthField(n), ents);
    LeadingList(ds, LengthField(n) + ents);
    LengthFieldRead(head, n, ents);
    EntriesLayout(head + LengthField(n), es);
  }

  lemma {:induction false} LeadingList(ds: seq<Descriptor>, rest: seq<byte>)
    requires ListSize(ds) <= MaxLength12
    ensures ListAt(ListWithLength(ds) + rest, 0, ds)
  {
    ListLayout([], ds, rest);
    assert [] + ListWithLength(ds) + rest == ListWithLength(ds) + rest;
  }

  /** How a payload with that layout reads: its content when the loop
      length is right, a user error otherwise. */
  lemma {:induction false} ParseLaidOut(p: seq<byte>, ds: seq<Descriptor>, n: nat, es: seq<Entry>)
    requires LaidOut(p, ds, n, es)
    ensures ParsePayload(p) == if n == |EncodeEntries(es)| then Ok(Content(ds, es)) else Err(UserError)
  {
    var off := 4 + ListSize(ds);
    assert ListAt(p, 0, ds) && EntriesAt(p, off, es) && off <= |p|;
    ReadListAt(p, 0, ds);
    ReadEntriesAt(p, off, es);
    ParsePayloadFrom(p, ds, n, es);
  }

  /** The payload reader, given what its two reads return. */
  lemma {:induction false} ParsePayloadFrom(p: seq<byte>, ds: seq<Descriptor>, n: nat, es: seq<Entry>)
    requires 4 + ListSize(ds) <= |p|
    requires ReadListWithLength(p, 0) == Ok(Parsed(ds, 2 + ListSize(ds)))
    requires GetLength12(p, 2 + ListSize(ds)) == n
    requires ReadEntries(p, 4 + ListSize(ds)) == Ok(Parsed(es, |p|))
    ensures ParsePayload(p) == if |p| == 4 + ListSize(ds) + n then Ok(Content(ds, es)) else Err(UserError)
  {
  }

  /** Reading the reference encoding of a section gives its content back. */
  lemma {:induction false} ParsePayloadRoundTrip(c: Content)
    requires |EncodeSection(c)| <= MaxPayloadSize
    ensures ParsePayload(EncodeSection(c)) == Ok(c)
  {
    EncodeSectionSize(c);
    PayloadLayout(c.descs, |EncodeEntries(c.entries)|, c.entries);
    ParseLaidOut(EncodeSection(c), c.descs, |EncodeEntries(c.entries)|, c.entries);
  }

  /** A section whose applications do not end where its loop length says is
      rejected with a user error, even though every read succeeds. */
  lemma {:induction false} ParseRejectsWrongLoopLength(c: Content, n: nat)
    requires |EncodeSection(c)| <= MaxPayloadSize
    requires n <= MaxLength12 && n != |EncodeEntries(c.entries)|
    ensures ParsePayload(ListWithLength(c.descs) + LengthField(n) + EncodeEntries(c.entries)) == Err(UserError)
  {
    var ents := EncodeEntries(c.entries);
    EncodeSectionSize(c);
    PayloadLayout(c.descs, n, c.entries);
    ParseLaidOut(ListWithLength(c.descs) + LengthField(n) + ents, c.descs, n, c.entries);
  }

  lemma {:induction false} InsertEntriesAppend(m: map<Key, Application>, a: seq<Entry>, b: seq<Entry>, mode: DescriptorMerge)
    ensures InsertEntries(m, a + b, mode) == InsertEntries(InsertEntries(m, a, mode), b, mode)
    decreases |a|
  {
    if a == [] {
      assert a + b == b;
    } else {
      assert (a + b)[1..] == a[1..] + b;
      InsertEntriesAppend(InsertEntry(m, a[0], mode), a[1..], b, mode);
    }
  }

  /** Storing applications whose keys are new and distinct does not depend
      on how descriptor lists are merged: it is plain storing. */
  lemma {:induction false} InsertEntriesFresh(m: map<Key, Application>, es: seq<Entry>, mode: DescriptorMerge)
    requires DistinctKeys(es)
    requires forall i :: 0 <= i < |es| ==> es[i].key !in m
    ensures InsertEntries(m, es, mode) == PutAll(m, es)
    decreases |es|
  {
    if es != [] {
      var m' := InsertEntry(m, es[0], mode);
      assert Merge([], es[0].descs, mode) == es[0].descs by {
        assert [] + es[0].descs == es[0].descs;
      }
      assert m' == m[es[0].key := Application(es[0].controlCode, es[0].descs)];
      assert forall i :: 0 <= i < |es| - 1 ==> es[1..][i] == es[i + 1];
      InsertEntriesFresh(m', es[1..], mode);
    }
  }

  /** In replace mode, storing is plain storing whatever the keys. */
  lemma {:induction false} InsertEntriesReplace(m: map<Key, Application>, es: seq<Entry>)
    ensures InsertEntries(m, es, Replace) == PutAll(m, es)
    decreases |es|
  {
    if es != [] {
      InsertEntriesReplace(InsertEntry(m, es[0], Replace), es[1..]);
    }
  }

  /** Merging common descriptor lists section after section. */
  function MergeAll(held: seq<Descriptor>, cs: seq<Content>, mode: DescriptorMerge): seq<Descriptor>
    decreases |cs|
  {
    if cs == [] then held else MergeAll(Merge(held, cs[0].descs, mode), cs[1..], mode)
  }

  /** Appending section by section keeps every slice, in order; replacing
      keeps only the last section's slice. */
  lemma {:induction false} MergeAllModes(held: seq<Descriptor>, cs: seq<Content>)
    ensures MergeAll(held, cs, Append) == held + AllDescs(cs)
    ensures cs != [] ==> MergeAll(held, cs, Replace) == cs[|cs| - 1].descs
    decreases |cs|
  {
    if cs != [] {
      MergeAllModes(held + cs[0].descs, cs[1..]);
      MergeAllModes(cs[0].descs, cs[1..]);
      assert held + (cs[0].descs + AllDescs(cs[1..])) == (held + cs[0].descs) + AllDescs(cs[1..]);
      if |cs| > 1 {
        assert cs[1..][|cs[1..]| - 1] == cs[|cs| - 1];
      }
    }
  }

  /** Deserializing encoded sections merges their contents in order: the
      identity fields come from the table id extension, the common lists are
      merged and the applications stored one after the other. */
  lemma {:induction false} DeserializeContents(t: Table, ext: uint16, cs: seq<Content>, mode: DescriptorMerge)
    requires |cs| >= 1
    requires forall i :: 0 <= i < |cs| ==> |EncodeSection(cs[i])| <= MaxPayloadSize
    ensures DeserializeFrom(t, Stamp(ext, Payloads(cs)), mode)
            == Ok(t.(applicationType := ApplicationTypeOf(ext),
                     testApplicationFlag := TestFlagOf(ext),
                     descs := MergeAll(t.descs, cs, mode),
                     applications := InsertEntries(t.applications, AllEntries(cs), mode)))
    decreases |cs|
  {
    var ss := Stamp(ext, Payloads(cs));
    ParsePayloadRoundTrip(cs[0]);
    var t1 := t.(applicationType := ApplicationTypeOf(ext),
                 testApplicationFlag := TestFlagOf(ext),
                 descs := Merge(t.descs, cs[0].descs, mode),
                 applications := InsertEntries(t.applications, cs[0].entries, mode));
    assert DeserializePayload(t, ss[0], mode) == Ok(t1);
    assert AllEntries(cs) == cs[0].entries + AllEntries(cs[1..]);
    InsertEntriesAppend(t.applications, cs[0].entries, AllEntries(cs[1..]), mode);
    if |cs| == 1 {
      assert ss[1..] == [];
      assert AllEntries(cs[1..]) == [];
    } else {
      assert ss[1..] == Stamp(ext, Payloads(cs[1..]));
      DeserializeContents(t1, ext, cs[1..], mode);
    }
  }
}
