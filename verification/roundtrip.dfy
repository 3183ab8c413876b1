/** What a serialized table deserializes to. The serializer never loses an
    application and never cuts a descriptor, but an application whose
    descriptor list does not fit in a fresh section is written with the
    longest prefix of whole descriptors that does; the application type
    keeps only its low 15 bits in the table id extension. */
module RoundTrip {
  import opened Bytes
  import opened Results
  import opened Descriptors
  import opened Ait
  import opened Sections
  import opened Serializer
  import opened Deserializer

  /** Room left for the descriptors of an application in a fresh section. */
  function ApplicationBudget(cap: nat): nat
    requires ValidCapacity(cap)
  {
    cap - PayloadMinSize - EntryFixedSize
  }

  /** The applications as the serializer writes them: the same keys and
      control codes, each descriptor list cut where a fresh section ends. */
  function TruncateApps(apps: map<Key, Application>, cap: nat): (r: map<Key, Application>)
    requires ValidCapacity(cap)
    ensures r.Keys == apps.Keys
  {
    map k | k in apps :: Application(apps[k].controlCode, apps[k].descs[..FitIndex(apps[k].descs, 0, ApplicationBudget(cap))])
  }

  /** Every application's descriptor list fits in a fresh section. */
  predicate ApplicationsFit(apps: map<Key, Application>, cap: nat)
    requires ValidCapacity(cap)
  {
    forall k :: k in apps ==> ListSize(apps[k].descs) <= ApplicationBudget(cap)
  }

  lemma {:induction false} TruncationsAt(es: seq<Entry>, cap: nat)
    requires ValidCapacity(cap)
    ensures forall i :: 0 <= i < |es| ==> Truncations(es, cap)[i] == Truncate(es[i], cap)
    decreases |es|
  {
    if es != [] {
      TruncationsAt(es[1..], cap);
      var ts := Truncations(es, cap);
      forall i | 0 <= i < |es| ensures ts[i] == Truncate(es[i], cap) {
        if i > 0 {
          assert ts[i] == Truncations(es[1..], cap)[i - 1];
          assert es[1..][i - 1] == es[i];
        }
      }
    }
  }

  /** Truncating the applications in iteration order is iterating over the
      truncated map. */
  lemma {:induction false} TruncationsSorted(apps: map<Key, Application>, cap: nat)
    requires ValidCapacity(cap)
    ensures Truncations(SortedEntries(apps), cap) == SortedEntries(TruncateApps(apps, cap))
  {
    SameKeysSameOrder(apps, TruncateApps(apps, cap));
    TruncationsOf(apps, SortedEntries(apps), SortedEntries(TruncateApps(apps, cap)), cap);
  }

  /** Entries of a map, truncated, are the entries of the truncated map
      with the same keys in the same order. */
  lemma {:induction false} TruncationsOf(apps: map<Key, Application>, es: seq<Entry>, us: seq<Entry>, cap: nat)
    requires ValidCapacity(cap)
    requires KeysOf(es) == KeysOf(us)
    requires forall i :: 0 <= i < |es| ==> es[i].key in apps && apps[es[i].key] == Application(es[i].controlCode, es[i].descs)
    requires forall i :: 0 <= i < |us| ==>
               us[i].key in TruncateApps(apps, cap) && TruncateApps(apps, cap)[us[i].key] == Application(us[i].controlCode, us[i].descs)
    ensures Truncations(es, cap) == us
  {
    var ts := Truncations(es, cap);
    TruncationsAt(es, cap);
    forall i | 0 <= i < |ts| ensures ts[i] == us[i] {
      assert KeysOf(us)[i] == KeysOf(es)[i];
      TruncatedEntry(apps, cap, es[i]);
    }
  }

  /** Maps with the same keys iterate in the same key order. */
  lemma {:induction false} SameKeysSameOrder(a: map<Key, Application>, b: map<Key, Application>)
    requires a.Keys == b.Keys
    ensures KeysOf(SortedEntries(a)) == KeysOf(SortedEntries(b))
  {
  }

  /** An application of the map, truncated, is the truncated map's entry
      at its key. */
  lemma {:induction false} TruncatedEntry(apps: map<Key, Application>, cap: nat, e: Entry)
    requires ValidCapacity(cap)
    requires e.key in apps && apps[e.key] == Application(e.controlCode, e.descs)
    ensures var tapps := TruncateApps(apps, cap);
            && e.key in tapps
            && tapps[e.key] == Application(Truncate(e, cap).controlCode, Truncate(e, cap).descs)
  {
  }

  /** Truncation changes nothing when every list fits. */
  lemma {:induction false} TruncateAppsWhole(apps: map<Key, Application>, cap: nat)
    requires ValidCapacity(cap) && ApplicationsFit(apps, cap)
    ensures TruncateApps(apps, cap) == apps
  {
    forall k | k in apps ensures TruncateApps(apps, cap)[k] == apps[k] {
      var ds := apps[k].descs;
      assert ds[0..] == ds;
      FitIndexWhole(ds, 0, ApplicationBudget(cap));
      assert ds[..|ds|] == ds;
    }
  }

  /** A truncated application always fits in a fresh section, and
      truncating again changes nothing. */
  lemma {:induction false} TruncateAppsIdempotent(apps: map<Key, Application>, cap: nat)
    requires ValidCapacity(cap)
    ensures ApplicationsFit(TruncateApps(apps, cap), cap)
    ensures TruncateApps(TruncateApps(apps, cap), cap) == TruncateApps(apps, cap)
  {
    var tapps := TruncateApps(apps, cap);
    forall k | k in tapps ensures ListSize(tapps[k].descs) <= ApplicationBudget(cap) {
      var ds := apps[k].descs;
      assert ds[0..FitIndex(ds, 0, ApplicationBudget(cap))] == tapps[k].descs;
    }
    TruncateAppsWhole(tapps, cap);
  }

  /** The last slice of a sequence of contents ends the whole common list. */
  lemma {:induction false} LastDescsSuffix(cs: seq<Content>)
    requires cs != []
    ensures |cs[|cs| - 1].descs| <= |AllDescs(cs)|
    ensures cs[|cs| - 1].descs == AllDescs(cs)[|AllDescs(cs)| - |cs[|cs| - 1].descs|..]
  {
    var n := |cs| - 1;
    assert cs == cs[..n] + [cs[n]];
    AllDescsAppend(cs[..n], [cs[n]]);
    assert AllDescs([cs[n]]) == cs[n].descs + AllDescs([]);
  }

  /** `d` is a suffix of `all`. */
  predicate EndsWith(all: seq<Descriptor>, d: seq<Descriptor>)
  {
    |d| <= |all| && d == all[|all| - |d|..]
  }

  /** Serializing a table then deserializing its sections into any table
      yields the serialized table's identity fields (the application type
      reduced to 15 bits), the version and current flag of the target, and
      the applications as written. In Append mode the common list comes back
      whole; in Replace mode only its last section's slice, which is the
      whole list when the table took a single section. */
  lemma {:induction false} SerializeDeserialize(into: Table, t: Table, cap: nat, mode: DescriptorMerge)
    requires ValidCapacity(cap) && CommonDescsFit(t.descs, cap)
    ensures var r := Deserialize(into, Serialize(t, cap), mode);
            && r.Ok?
            && r.value.version == into.version
            && r.value.isCurrent == into.isCurrent
            && r.value.applicationType == t.applicationType % 0x8000
            && r.value.testApplicationFlag == t.testApplicationFlag
            && r.value.applications == TruncateApps(t.applications, cap)
            && EndsWith(t.descs, r.value.descs)
            && (mode == Append || |Serialize(t, cap)| == 1 ==> r.value.descs == t.descs)
  {
    var cs := SerializedContents(t, cap);
    DeserializeEncoded(into, IdExtensionOf(t), cs, mode);
    MergeAllSuffix(cs, t.descs, mode);
    IdExtensionRoundTrip(t.testApplicationFlag, t.applicationType);
    PutAllSortedEntries(TruncateApps(t.applications, cap));
  }

  /** The contents of the sections a table is serialized into: together
      they carry the common list and the applications as written, in
      iteration order, and each one is encoded within a section's room. */
  lemma {:induction false} SerializedContents(t: Table, cap: nat) returns (cs: seq<Content>)
    requires ValidCapacity(cap) && CommonDescsFit(t.descs, cap)
    ensures |cs| >= 1
    ensures Serialize(t, cap) == Stamp(IdExtensionOf(t), Payloads(cs))
    ensures forall i :: 0 <= i < |cs| ==> |EncodeSection(cs[i])| <= MaxPayloadSize
    ensures AllDescs(cs) == t.descs
    ensures AllEntries(cs) == SortedEntries(TruncateApps(t.applications, cap))
    ensures DistinctKeys(AllEntries(cs))
  {
    cs := SerializeContents(t, cap);
    var ss := Serialize(t, cap);
    forall i | 0 <= i < |cs| ensures |EncodeSection(cs[i])| <= MaxPayloadSize {
      assert ss[i].payload == EncodeSection(cs[i]);
    }
    TruncationsSorted(t.applications, cap);
    SortedEntriesDistinct(TruncateApps(t.applications, cap));
  }

  /** Deserializing encoded contents with distinct application keys into
      any table: the identity fields come from the extension, the common
      lists are merged slice by slice and the applications are stored as
      read. */
  lemma {:induction false} DeserializeEncoded(into: Table, ext: uint16, cs: seq<Content>, mode: DescriptorMerge)
    requires |cs| >= 1
    requires forall i :: 0 <= i < |cs| ==> |EncodeSection(cs[i])| <= MaxPayloadSize
    requires DistinctKeys(AllEntries(cs))
    ensures Deserialize(into, Stamp(ext, Payloads(cs)), mode)
            == Ok(Table(into.version, into.isCurrent, ApplicationTypeOf(ext), TestFlagOf(ext),
                        MergeAll([], cs, mode), PutAll(map[], AllEntries(cs))))
  {
    DeserializeContents(ClearContent(into), ext, cs, mode);
    InsertEntriesFresh(map[], AllEntries(cs), mode);
  }

  /** The merged common list is a suffix of all the slices: all of them in
      Append mode, the last one in Replace mode. */
  lemma {:induction false} MergeAllSuffix(cs: seq<Content>, all: seq<Descriptor>, mode: DescriptorMerge)
    requires cs != [] && AllDescs(cs) == all
    ensures EndsWith(all, MergeAll([], cs, mode))
    ensures mode == Append || |cs| == 1 ==> MergeAll([], cs, mode) == all
  {
    MergeAllModes([], cs);
    LastDescsSuffix(cs);
    if |cs| == 1 {
      assert AllDescs(cs) == cs[0].descs + AllDescs(cs[1..]);
    }
  }

  /** When the application type fits in 15 bits and every application's
      descriptors fit in a fresh section, the round trip in Append mode
      loses nothing: only the version and current flag, which the sections
      here do not carry, come from the target table. */
  lemma {:induction false} SerializeDeserializeLossless(into: Table, t: Table, cap: nat)
    requires ValidCapacity(cap) && CommonDescsFit(t.descs, cap)
    requires t.applicationType <= 0x7FFF && ApplicationsFit(t.applications, cap)
    ensures Deserialize(into, Serialize(t, cap), Append) == Ok(t.(version := into.version, isCurrent := into.isCurrent))
  {
    SerializeDeserialize(into, t, cap, Append);
    var r := Deserialize(into, Serialize(t, cap), Append).value;
    TruncateAppsWhole(t.applications, cap);
    LowBitsFit(t.applicationType);
    assert r.applications == t.applications;
    assert r.applicationType == t.applicationType;
  }

  lemma {:induction false} LowBitsFit(x: uint16)
    requires x <= 0x7FFF
    ensures x % 0x8000 == x
  {
  }

  /** A table without descriptors or applications still takes one section:
      an empty common list and an empty application loop. */
  lemma {:induction false} SerializeEmpty(t: Table, cap: nat)
    requires ValidCapacity(cap)
    requires t.descs == [] && t.applications == map[]
    ensures Serialize(t, cap) == [Section(IdExtensionOf(t), [0xF0, 0x00, 0xF0, 0x00])]
  {
    assert FitIndex([], 0, cap - PayloadMinSize) == 0;
    var w0 := DescriptorPhase([], [], 0, cap);
    assert w0 == Writer([], LengthField(0), 2);
    var w := StartLoop([], cap);
    assert w == Writer([], LengthField(0) + LengthField(0), 2);
    assert SortedKeys(t.applications.Keys) == [];
    assert SortedEntries(t.applications) == [];
    assert SerializeEntries(w, [], cap) == w;
    assert Backpatch(w.cur, w.mark) == [0xF0, 0x00, 0xF0, 0x00];
  }
}
