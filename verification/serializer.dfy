/** The segmenting serializer: writes a table into as many section payloads
    as needed, none larger than the capacity `cap`.

    The buffer of the implementation is modelled by a `Writer`: the payloads
    already emitted, the payload being written, and the one saved write
    offset that the implementation pushes before reserving the
    application_loop_length field and swaps back to when it patches it. */
module Serializer {
  import opened Bytes
  import opened Descriptors
  import opened Ait
  import opened Sections

  datatype Writer = Writer(sections: seq<seq<byte>>, cur: seq<byte>, mark: nat)

  /** Capacities for which no write can fail: a fresh section (empty common
      list plus reserved loop length) always leaves room for the fixed part
      of one application, and 12-bit length fields cannot overflow. The
      capacity the implementation gets is set by the generic table code,
      which sizes the buffer handed to the serializer. */
  predicate ValidCapacity(cap: nat)
  {
    PayloadMinSize + EntryFixedSize <= cap <= MaxPayloadSize
  }

  /** Each common descriptor fits in a section next to the two length
      fields; without it the common-descriptor loop would never make
      progress. Descriptors are at most 257 bytes, so it holds for every
      capacity of 261 or more (`CommonDescsFitFrom`). */
  predicate CommonDescsFit(descs: seq<Descriptor>, cap: nat)
  {
    forall i :: 0 <= i < |descs| ==> Size(descs[i]) + PayloadMinSize <= cap
  }

  lemma {:induction false} CommonDescsFitFrom(descs: seq<Descriptor>, cap: nat)
    requires 2 + 0xFF + PayloadMinSize <= cap
    ensures CommonDescsFit(descs, cap)
  {
  }

  predicate SectionsFit(ss: seq<seq<byte>>, cap: nat)
  {
    forall i :: 0 <= i < |ss| ==> |ss[i]| <= cap
  }

  /** The writer inside the application loop: the loop length field has
      been reserved at `mark` and the payload is within capacity. */
  predicate InLoop(w: Writer, cap: nat)
  {
    && ValidCapacity(cap)
    && SectionsFit(w.sections, cap)
    && PayloadMinSize <= |w.cur| <= cap
    && w.mark + 2 <= |w.cur|
  }

  /** The start of every section after a flush in the application loop:
      an empty common descriptor list and a reserved loop length. */
  const FreshPayload: seq<byte> := LengthField(0) + LengthField(0)

  /** The payload with the 12-bit loop length written over the two bytes
      reserved at `mark`. */
  function Backpatch(cur: seq<byte>, mark: nat): seq<byte>
    requires mark + 2 <= |cur|
  {
    cur[..mark] + LengthField(|cur| - mark - 2) + cur[mark + 2..]
  }

  /** Closes the current section: patches application_loop_length, emits
      the payload and, unless it is the last one, opens the next section. */
  function AddSection(w: Writer, last: bool): (r: Writer)
    requires w.mark + 2 <= |w.cur| <= MaxPayloadSize
    ensures |r.sections| == |w.sections| + 1 && r.sections[..|w.sections|] == w.sections
    ensures var s := r.sections[|w.sections|];
            && |s| == |w.cur|
            && (forall i :: 0 <= i < |s| && (i < w.mark || w.mark + 2 <= i) ==> s[i] == w.cur[i])
            && s[w.mark] / 0x10 == 0xF
            && GetLength12(s, w.mark) == |w.cur| - (w.mark + 2)
    ensures last ==> r.cur == []
    ensures !last ==> r.cur == FreshPayload && r.mark == 2
  {
    var s := Backpatch(w.cur, w.mark);
    LengthFieldRead(w.cur[..w.mark], |w.cur| - w.mark - 2, w.cur[w.mark + 2..]);
    if last then Writer(w.sections + [s], [], 0)
    else Writer(w.sections + [s], FreshPayload, 2)
  }

  /** The common descriptor phase: starting at index `start`, writes as
      many common descriptors as fit, and while some remain, closes the
      section with a zero loop length and continues in a new one. The
      result is the section in progress, holding the last slice of the
      list, with the saved offset at its end. */
  function DescriptorPhase(sections: seq<seq<byte>>, descs: seq<Descriptor>, start: nat, cap: nat): (r: Writer)
    requires ValidCapacity(cap) && CommonDescsFit(descs, cap) && SectionsFit(sections, cap)
    requires start <= |descs|
    ensures |sections| <= |r.sections| && r.sections[..|sections|] == sections
    ensures SectionsFit(r.sections, cap)
    ensures 2 <= |r.cur| && |r.cur| + 2 <= cap && r.mark == |r.cur|
    decreases |descs| - start
  {
    var next := FitIndex(descs, start, cap - PayloadMinSize);
    var cur := ListWithLength(descs[start..next]);
    ListWithLengthSize(descs[start..next]);
    if next >= |descs| then Writer(sections, cur, |cur|)
    else
      var r := DescriptorPhase(sections + [cur + LengthField(0)], descs, next, cap);
      assert (sections + [cur + LengthField(0)])[..|sections|] == sections;
      r
  }

  /** An application is moved to a new section when fewer than 9 bytes
      remain, or when it does not fit and the section holds more than the
      4-byte minimum. */
  predicate Opens(size: nat, e: Entry, cap: nat)
  {
    || cap - size < EntryFixedSize
    || (EntrySize(e) > cap - size && size > PayloadMinSize)
  }

  /** What is written of an application: its descriptor list cut to the
      longest run of whole descriptors that fits in a fresh section. */
  function Truncate(e: Entry, cap: nat): (r: Entry)
    requires ValidCapacity(cap)
  {
    Entry(e.key, e.controlCode, e.descs[..FitIndex(e.descs, 0, cap - PayloadMinSize - EntryFixedSize)])
  }

  function Truncations(es: seq<Entry>, cap: nat): (r: seq<Entry>)
    requires ValidCapacity(cap)
    ensures |r| == |es|
  {
    if es == [] then [] else [Truncate(es[0], cap)] + Truncations(es[1..], cap)
  }

  /** The budget the partial writer gets for an application whose fixed
      part starts at payload offset `size` truncates exactly as a fresh
      section would. */
  lemma {:induction false} TruncationPoint(e: Entry, size: nat, cap: nat)
    requires ValidCapacity(cap)
    requires PayloadMinSize <= size <= cap - EntryFixedSize
    requires EntrySize(e) <= cap - size || size == PayloadMinSize
    ensures FitIndex(e.descs, 0, cap - size - EntryFixedSize)
            == FitIndex(e.descs, 0, cap - PayloadMinSize - EntryFixedSize)
  {
    if size != PayloadMinSize {
      assert e.descs[0..] == e.descs;
      FitIndexWhole(e.descs, 0, cap - size - EntryFixedSize);
      FitIndexWhole(e.descs, 0, cap - PayloadMinSize - EntryFixedSize);
    }
  }

  /** The checks made before an application is written: a new section is
      opened when `Opens` holds, and afterwards the fixed part fits and the
      whole application fits unless the section is fresh. */
  function MakeRoom(w: Writer, e: Entry, cap: nat): (r: Writer)
    requires InLoop(w, cap)
    ensures InLoop(r, cap)
    ensures |r.cur| + EntryFixedSize <= cap
    ensures EntrySize(e) <= cap - |r.cur| || |r.cur| == PayloadMinSize
    ensures Opens(|w.cur|, e, cap) ==> r == Writer(w.sections + [Backpatch(w.cur, w.mark)], FreshPayload, 2)
    ensures !Opens(|w.cur|, e, cap) ==> r == w
  {
    var w1 := if cap - |w.cur| < EntryFixedSize then AddSection(w, false) else w;
    if EntrySize(e) > cap - |w1.cur| && |w1.cur| > PayloadMinSize then AddSection(w1, false) else w1
  }

  /** Writes the fixed part of an application and as much of its
      descriptor list as fits. */
  function WriteEntry(w: Writer, e: Entry, cap: nat): (r: Writer)
    requires InLoop(w, cap) && |w.cur| + EntryFixedSize <= cap
    requires EntrySize(e) <= cap - |w.cur| || |w.cur| == PayloadMinSize
    ensures InLoop(r, cap)
    ensures r.sections == w.sections && r.mark == w.mark
    ensures r.cur == w.cur + EncodeEntry(Truncate(e, cap))
  {
    var fixed := w.cur + U32(e.key.organizationId) + U16(e.key.applicationId) + [e.controlCode];
    var next := FitIndex(e.descs, 0, cap - |fixed| - 2);
    WrittenEntry(w.cur, e, cap);
    Writer(w.sections, fixed + ListWithLength(e.descs[..next]), w.mark)
  }

  /** The bytes `WriteEntry` appends are the encoding of the truncated
      application, and they fit. */
  lemma {:induction false} WrittenEntry(cur: seq<byte>, e: Entry, cap: nat)
    requires ValidCapacity(cap) && PayloadMinSize <= |cur| && |cur| + EntryFixedSize <= cap
    requires EntrySize(e) <= cap - |cur| || |cur| == PayloadMinSize
    ensures var fixed := cur + U32(e.key.organizationId) + U16(e.key.applicationId) + [e.controlCode];
            var next := FitIndex(e.descs, 0, cap - |fixed| - 2);
            && fixed + ListWithLength(e.descs[..next]) == cur + EncodeEntry(Truncate(e, cap))
            && |cur + EncodeEntry(Truncate(e, cap))| <= cap
  {
    FixedSize(cur, e);
    TruncationPoint(e, |cur|, cap);
    WrittenBytes(cur, e, Truncate(e, cap).descs);
    TruncatedFits(e, |cur|, cap);
    EncodeEntrySize(Truncate(e, cap));
  }

  lemma {:induction false} FixedSize(cur: seq<byte>, e: Entry)
    ensures |cur + U32(e.key.organizationId) + U16(e.key.applicationId) + [e.controlCode]| == |cur| + 7
  {
  }

  lemma {:induction false} WrittenBytes(cur: seq<byte>, e: Entry, ds: seq<Descriptor>)
    ensures cur + U32(e.key.organizationId) + U16(e.key.applicationId) + [e.controlCode] + ListWithLength(ds)
            == cur + EncodeEntry(Entry(e.key, e.controlCode, ds))
  {
  }

  /** A truncated application fits after offset `size` whenever the whole
      application does, or the section is fresh. */
  lemma {:induction false} TruncatedFits(e: Entry, size: nat, cap: nat)
    requires ValidCapacity(cap)
    requires PayloadMinSize <= size <= cap - EntryFixedSize
    requires EntrySize(e) <= cap - size || size == PayloadMinSize
    ensures size + EntrySize(Truncate(e, cap)) <= cap
  {
    var next := FitIndex(e.descs, 0, cap - PayloadMinSize - EntryFixedSize);
    assert e.descs[0..next] == e.descs[..next];
    if size != PayloadMinSize {
      TruncationPoint(e, size, cap);
    }
  }

  /** Writes one application, opening a new section first when needed. An
      application that starts a fresh section is never moved again; it is
      at most truncated by the partial descriptor writer. */
  function SerializeEntry(w: Writer, e: Entry, cap: nat): (r: Writer)
    requires InLoop(w, cap)
    ensures InLoop(r, cap)
    ensures Opens(|w.cur|, e, cap) ==> r.sections == w.sections + [Backpatch(w.cur, w.mark)]
    ensures !Opens(|w.cur|, e, cap) ==> r.sections == w.sections
    ensures r.cur == (if Opens(|w.cur|, e, cap) then FreshPayload else w.cur) + EncodeEntry(Truncate(e, cap))
    ensures r.mark == if Opens(|w.cur|, e, cap) then 2 else w.mark
    ensures |w.cur| == PayloadMinSize ==> r.sections == w.sections
  {
    WriteEntry(MakeRoom(w, e, cap), e, cap)
  }

  function SerializeEntries(w: Writer, es: seq<Entry>, cap: nat): (r: Writer)
    requires InLoop(w, cap)
    ensures InLoop(r, cap)
    ensures |w.sections| <= |r.sections| && r.sections[..|w.sections|] == w.sections
    decreases |es|
  {
    if es == [] then w else SerializeEntries(SerializeEntry(w, es[0], cap), es[1..], cap)
  }

  /** Serializes a table into sections: the common descriptor phase, the
      reservation of application_loop_length, the applications in key
      order, and exactly one final flush. */
  function Serialize(t: Table, cap: nat): (r: seq<Section>)
    requires ValidCapacity(cap) && CommonDescsFit(t.descs, cap)
    ensures |r| >= 1
    ensures forall i :: 0 <= i < |r| ==> r[i].tableIdExtension == IdExtensionOf(t) && |r[i].payload| <= cap
  {
    var w := SerializeEntries(StartLoop(t.descs, cap), SortedEntries(t.applications), cap);
    Stamp(IdExtensionOf(t), AddSection(w, true).sections)
  }

  /** The writer after the common descriptor phase, with
      application_loop_length reserved at the end of the list. */
  function StartLoop(descs: seq<Descriptor>, cap: nat): (r: Writer)
    requires ValidCapacity(cap) && CommonDescsFit(descs, cap)
    ensures InLoop(r, cap)
  {
    var w0 := DescriptorPhase([], descs, 0, cap);
    Writer(w0.sections, w0.cur + LengthField(0), |w0.cur|)
  }

  // ---------------------------------------------------------------------
  // What the serializer writes, section by section
  // ---------------------------------------------------------------------

  /** The payload in progress holds the common descriptors `d`, a reserved
      loop length at `mark`, and the applications `done`. */
  predicate Holds(w: Writer, d: seq<Descriptor>, done: seq<Entry>)
  {
    && w.cur == ListWithLength(d) + LengthField(0) + EncodeEntries(done)
    && w.mark == 2 + ListSize(d)
  }

  /** Patching the reserved field of such a payload gives the reference
      encoding of its content. */
  lemma {:induction false} BackpatchEncodes(w: Writer, d: seq<Descriptor>, done: seq<Entry>)
    requires Holds(w, d, done) && w.mark + 2 <= |w.cur|
    ensures Backpatch(w.cur, w.mark) == EncodeSection(Content(d, done))
  {
    ListWithLengthSize(d);
    var a := ListWithLength(d);
    var b := EncodeEntries(done);
    assert w.cur[..w.mark] == a;
    assert w.cur[w.mark + 2..] == b;
  }

  /** One application step either extends the section in progress or
      emits it and starts a fresh one holding just this application. */
  lemma {:induction false} EntryStep(w: Writer, e: Entry, cap: nat, d: seq<Descriptor>, done: seq<Entry>)
    requires InLoop(w, cap) && Holds(w, d, done)
    ensures var r := SerializeEntry(w, e, cap);
            if Opens(|w.cur|, e, cap) then
              r.sections == w.sections + [EncodeSection(Content(d, done))] && Holds(r, [], [Truncate(e, cap)])
            else
              r.sections == w.sections && Holds(r, d, done + [Truncate(e, cap)])
  {
    var r := SerializeEntry(w, e, cap);
    var t := Truncate(e, cap);
    var et := EncodeEntry(t);
    assert EncodeEntries([t]) == et + EncodeEntries([]);
    if Opens(|w.cur|, e, cap) {
      BackpatchEncodes(w, d, done);
      assert r.cur == FreshPayload + et;
      assert ListWithLength([]) == LengthField(0);
      assert EncodeEntries([t]) == et;
    } else {
      EncodeEntriesAppend(done, [t]);
      assert r.cur == w.cur + et;
      ConcatAssoc(ListWithLength(d) + LengthField(0), EncodeEntries(done), et);
    }
  }

  lemma {:induction false} LastSection(w: Writer, d: seq<Descriptor>, done: seq<Entry>) returns (cs: seq<Content>)
    requires w.mark + 2 <= |w.cur| <= MaxPayloadSize && Holds(w, d, done)
    ensures AddSection(w, true).sections == w.sections + Payloads(cs)
    ensures AllDescs(cs) == d && AllEntries(cs) == done
  {
    BackpatchEncodes(w, d, done);
    cs := [Content(d, done)];
    assert AllDescs(cs) == d + AllDescs([]);
    assert AllEntries(cs) == done + AllEntries([]);
  }

  /** The application loop, from a section in progress holding `d` and
      `done`, emits sections whose contents carry `d` once, then exactly the
      (possibly truncated) applications in order. */
  lemma {:induction false} EntriesPhase(w: Writer, es: seq<Entry>, cap: nat, d: seq<Descriptor>, done: seq<Entry>)
    returns (cs: seq<Content>)
    requires InLoop(w, cap) && Holds(w, d, done)
    ensures AddSection(SerializeEntries(w, es, cap), true).sections == w.sections + Payloads(cs)
    ensures AllDescs(cs) == d
    ensures AllEntries(cs) == done + Truncations(es, cap)
    decreases |es|
  {
    if es == [] {
      cs := LastSection(w, d, done);
    } else {
      var t := Truncate(es[0], cap);
      var w' := SerializeEntry(w, es[0], cap);
      assert SerializeEntries(w, es, cap) == SerializeEntries(w', es[1..], cap);
      EntryStep(w, es[0], cap, d, done);
      assert Truncations(es, cap) == [t] + Truncations(es[1..], cap);
      if Opens(|w.cur|, es[0], cap) {
        var cs' := EntriesPhase(w', es[1..], cap, [], [t]);
        cs := [Content(d, done)] + cs';
        ConsContents(Content(d, done), cs');
        ConcatAssoc(w.sections, [EncodeSection(Content(d, done))], Payloads(cs'));
      } else {
        cs := EntriesPhase(w', es[1..], cap, d, done + [t]);
        ConcatAssoc(done, [t], Truncations(es[1..], cap));
      }
    }
  }

  /** The common descriptor phase emits sections without applications
      whose descriptor slices, followed by the slice left in the section in
      progress, are the list from `start` on. */
  lemma {:induction false} DescriptorPhaseContents(sections: seq<seq<byte>>, descs: seq<Descriptor>, start: nat, cap: nat)
    returns (tops: seq<Content>, last: seq<Descriptor>)
    requires ValidCapacity(cap) && CommonDescsFit(descs, cap) && SectionsFit(sections, cap)
    requires start <= |descs|
    ensures var r := DescriptorPhase(sections, descs, start, cap);
            && r.sections == sections + Payloads(tops)
            && r.cur == ListWithLength(last)
    ensures AllEntries(tops) == []
    ensures AllDescs(tops) + last == descs[start..]
    decreases |descs| - start
  {
    var next := FitIndex(descs, start, cap - PayloadMinSize);
    var chunk := descs[start..next];
    if next >= |descs| {
      tops, last := [], chunk;
      assert sections + [] == sections;
    } else {
      var emitted := DescriptorStep(sections, descs, start, cap);
      var tops', last' := DescriptorPhaseContents(sections + [emitted], descs, next, cap);
      tops, last := [Content(chunk, [])] + tops', last';
      ConsContents(Content(chunk, []), tops');
      assert AllEntries(tops) == [] + AllEntries(tops');
      ConcatAssoc(chunk, AllDescs(tops'), last');
      ConcatAssoc(sections, [emitted], Payloads(tops'));
    }
  }

  /** One turn of the common descriptor loop when descriptors remain: the
      section emitted is the reference encoding of the slice written, with
      no application. */
  lemma {:induction false} DescriptorStep(sections: seq<seq<byte>>, descs: seq<Descriptor>, start: nat, cap: nat) returns (emitted: seq<byte>)
    requires ValidCapacity(cap) && CommonDescsFit(descs, cap) && SectionsFit(sections, cap)
    requires start <= |descs|
    requires FitIndex(descs, start, cap - PayloadMinSize) < |descs|
    ensures var next := FitIndex(descs, start, cap - PayloadMinSize);
            && emitted == EncodeSection(Content(descs[start..next], []))
            && |emitted| <= cap
            && DescriptorPhase(sections, descs, start, cap) == DescriptorPhase(sections + [emitted], descs, next, cap)
            && descs[start..] == descs[start..next] + descs[next..]
  {
    var next := FitIndex(descs, start, cap - PayloadMinSize);
    var chunk := descs[start..next];
    ListWithLengthSize(chunk);
    emitted := ListWithLength(chunk) + LengthField(0);
    assert emitted == EncodeSection(Content(chunk, []));
  }

  /** After the common descriptor phase, the sections emitted carry no
      application, and their descriptor slices followed by the one in the
      payload in progress are the whole list. */
  lemma {:induction false} LoopStartContents(descs: seq<Descriptor>, cap: nat) returns (tops: seq<Content>, last: seq<Descriptor>)
    requires ValidCapacity(cap) && CommonDescsFit(descs, cap)
    ensures StartLoop(descs, cap).sections == Payloads(tops)
    ensures Holds(StartLoop(descs, cap), last, [])
    ensures AllEntries(tops) == [] && AllDescs(tops) + last == descs
  {
    tops, last := DescriptorPhaseContents([], descs, 0, cap);
    ListWithLengthSize(last);
    assert descs[0..] == descs;
    assert [] + Payloads(tops) == Payloads(tops);
  }

  /** The serializer's output is the reference encoding of a sequence of
      section contents that, put together, carry the whole common
      descriptor list and every application in key order, each truncated
      only as far as a fresh section requires. */
  lemma {:induction false} SerializeContents(t: Table, cap: nat) returns (cs: seq<Content>)
    requires ValidCapacity(cap) && CommonDescsFit(t.descs, cap)
    ensures Serialize(t, cap) == Stamp(IdExtensionOf(t), Payloads(cs))
    ensures AllDescs(cs) == t.descs
    ensures AllEntries(cs) == Truncations(SortedEntries(t.applications), cap)
  {
    var es := SortedEntries(t.applications);
    var tops, last := LoopStartContents(t.descs, cap);
    var rest := EntriesPhase(StartLoop(t.descs, cap), es, cap, last, []);
    cs := tops + rest;
    PayloadsAppend(tops, rest);
    AllDescsAppend(tops, rest);
    AllEntriesAppend(tops, rest);
    assert [] + Truncations(es, cap) == Truncations(es, cap);
  }
}
