/** The Application Information Table as a value: its identity fields, its
    common descriptor list and its applications, keyed by application
    identifier and iterated in ascending identifier order. */
module Ait {
  import opened Bytes
  import opened Descriptors

  /** Application identifier: organisation id then application id. */
  datatype Key = Key(organizationId: uint32, applicationId: uint16)

  /** Lexicographic order on identifiers, the order of the table's map. */
  predicate Less(a: Key, b: Key)
  {
    || a.organizationId < b.organizationId
    || (a.organizationId == b.organizationId && a.applicationId < b.applicationId)
  }

  predicate LessOrEqual(a: Key, b: Key)
  {
    a == b || Less(a, b)
  }

  /** One application: its control code and its own descriptor list. */
  datatype Application = Application(controlCode: byte, descs: seq<Descriptor>)

  datatype Table = Table(
    version: byte,
    isCurrent: bool,
    applicationType: uint16,
    testApplicationFlag: bool,
    descs: seq<Descriptor>,
    applications: map<Key, Application>)

  /** One application as it appears in a section's application loop. */
  datatype Entry = Entry(key: Key, controlCode: byte, descs: seq<Descriptor>)

  /** Packs the test flag into bit 15 and `application_type & 0x7FFF`
      into bits 0 to 14 of the table id extension. */
  function TableIdExtension(flag: bool, applicationType: uint16): (ext: uint16)
    ensures ext / 0x8000 == (if flag then 1 else 0)
    ensures ext % 0x8000 == applicationType % 0x8000
  {
    (if flag then 0x8000 else 0) + applicationType % 0x8000
  }

  function IdExtensionOf(t: Table): uint16
  {
    TableIdExtension(t.testApplicationFlag, t.applicationType)
  }

  /** Unpacks a table id extension: the test flag is bit 15 and the
      application type is the low 15 bits. */
  function TestFlagOf(ext: uint16): (flag: bool)
    ensures flag <==> ext >= 0x8000
  {
    ext / 0x8000 % 2 == 1
  }

  function ApplicationTypeOf(ext: uint16): (applicationType: uint16)
    ensures applicationType <= 0x7FFF
    ensures applicationType == if ext >= 0x8000 then ext - 0x8000 else ext
  {
    ext % 0x8000
  }

  /** Unpacking a packed extension recovers both fields exactly when the
      application type fits in 15 bits; the flag is always recovered. */
  lemma {:induction false} IdExtensionRoundTrip(flag: bool, applicationType: uint16)
    ensures TestFlagOf(TableIdExtension(flag, applicationType)) == flag
    ensures ApplicationTypeOf(TableIdExtension(flag, applicationType)) == applicationType
            <==> applicationType <= 0x7FFF
  {
  }

  /** Every 16-bit value is the packing of its unpacked fields. */
  lemma {:induction false} IdExtensionUnpackPack(ext: uint16)
    ensures TableIdExtension(TestFlagOf(ext), ApplicationTypeOf(ext)) == ext
    ensures ApplicationTypeOf(ext) <= 0x7FFF
  {
  }

  /** Clears the content of the table: the identity fields return to their
      defaults and both lists become empty; version and current flag are
      kept. */
  function ClearContent(t: Table): (r: Table)
    ensures IdExtensionOf(r) == 0
    ensures r.descs == [] && r.applications == map[]
    ensures r.version == t.version && r.isCurrent == t.isCurrent
    ensures r.applicationType <= 0x7FFF
  {
    t.(applicationType := 0, testApplicationFlag := false, descs := [], applications := map[])
  }

  // ---------------------------------------------------------------------
  // Iteration in key order
  // ---------------------------------------------------------------------

  predicate IsMinimum(k: Key, s: set<Key>)
  {
    k in s && forall j :: j in s ==> LessOrEqual(k, j)
  }

  predicate StrictlyIncreasing(ks: seq<Key>)
  {
    forall i, j {:trigger Less(ks[i], ks[j])} :: 0 <= i < j < |ks| ==> Less(ks[i], ks[j])
  }

  lemma {:induction false} MinimumExists(s: set<Key>)
    requires s != {}
    ensures exists k :: IsMinimum(k, s)
    decreases |s|
  {
    var x :| x in s;
    if s == {x} {
      assert IsMinimum(x, s);
    } else {
      MinimumExists(s - {x});
      var m :| IsMinimum(m, s - {x});
      if Less(x, m) {
        forall j | j in s ensures LessOrEqual(x, j) {
          if j != x {
            assert LessOrEqual(m, j);
          }
        }
        assert IsMinimum(x, s);
      } else {
        assert IsMinimum(m, s);
      }
    }
  }

  /** The keys of a set in ascending order: the order in which the map
      iterates. */
  function SortedKeys(s: set<Key>): (ks: seq<Key>)
    ensures StrictlyIncreasing(ks)
    ensures forall k :: k in ks <==> k in s
    ensures |ks| == |s|
    decreases |s|
  {
    if s == {} then []
    else
      MinimumExists(s);
      var k :| IsMinimum(k, s);
      var rest := SortedKeys(s - {k});
      PrependMinimum(k, s, rest);
      [k] + rest
  }

  /** Putting the minimum of a set in front of the sorted rest of the set
      sorts the whole set. */
  lemma {:induction false} PrependMinimum(k: Key, s: set<Key>, rest: seq<Key>)
    requires IsMinimum(k, s)
    requires StrictlyIncreasing(rest)
    requires forall j :: j in rest <==> j in s - {k}
    requires |rest| == |s - {k}|
    ensures StrictlyIncreasing([k] + rest)
    ensures forall j :: j in [k] + rest <==> j in s
    ensures |[k] + rest| == |s|
  {
    var ks := [k] + rest;
    forall i, j | 0 <= i < j < |ks| ensures Less(ks[i], ks[j]) {
      if i == 0 {
        var x := rest[j - 1];
        assert x in rest;
        assert x in s - {k} && LessOrEqual(k, x);
      } else {
        assert ks[i] == rest[i - 1] && ks[j] == rest[j - 1];
      }
    }
  }

  lemma {:induction false} MinimumUnique(a: Key, b: Key, s: set<Key>)
    requires IsMinimum(a, s) && IsMinimum(b, s)
    ensures a == b
  {
    assert LessOrEqual(a, b) && LessOrEqual(b, a);
  }

  lemma {:induction false} HeadIsMinimum(s: set<Key>, ks: seq<Key>)
    requires StrictlyIncreasing(ks) && ks != []
    requires forall k :: k in ks <==> k in s
    ensures IsMinimum(ks[0], s)
    ensures forall k :: k in ks[1..] <==> k in s - {ks[0]}
  {
    forall j | j in s ensures LessOrEqual(ks[0], j) {
      var i :| 0 <= i < |ks| && ks[i] == j;
    }
    forall k ensures k in ks[1..] <==> k in s - {ks[0]} {
      if k in ks[1..] {
        var i :| 0 <= i < |ks| - 1 && ks[1..][i] == k;
        assert Less(ks[0], ks[i + 1]);
      }
      if k in s - {ks[0]} {
        var i :| 0 <= i < |ks| && ks[i] == k;
        assert ks[1..][i - 1] == k;
      }
    }
  }

  /** Sorted keys are determined by their set: any strictly increasing
      sequence with the same elements is the same sequence. */
  lemma {:induction false} SortedKeysUnique(s: set<Key>, ks: seq<Key>)
    requires StrictlyIncreasing(ks)
    requires forall k :: k in ks <==> k in s
    ensures SortedKeys(s) == ks
  {
    IncreasingUnique(SortedKeys(s), ks, s);
  }

  lemma {:induction false} HeadIsMember<T>(s: seq<T>)
    ensures |s| > 0 ==> s[0] in s
  {
  }

  lemma {:induction false} IncreasingUnique(a: seq<Key>, b: seq<Key>, s: set<Key>)
    requires StrictlyIncreasing(a) && StrictlyIncreasing(b)
    requires forall k :: k in a <==> k in s
    requires forall k :: k in b <==> k in s
    ensures a == b
    decreases |a|
  {
    if a == [] {
      assert s == {};
      if b != [] {
        HeadIsMember(b);
        assert false;
      }
    } else {
      assert a[0] in s;
      assert b != [] by {
        assert a[0] in b;
      }
      HeadIsMinimum(s, a);
      HeadIsMinimum(s, b);
      MinimumUnique(a[0], b[0], s);
      TailIncreasing(a);
      TailIncreasing(b);
      IncreasingUnique(a[1..], b[1..], s - {a[0]});
      assert a == [a[0]] + a[1..] && b == [b[0]] + b[1..];
    }
  }

  lemma {:induction false} TailIncreasing(ks: seq<Key>)
    requires StrictlyIncreasing(ks) && ks != []
    ensures StrictlyIncreasing(ks[1..])
  {
    forall i, j | 0 <= i < j < |ks| - 1 ensures Less(ks[1..][i], ks[1..][j]) {
      assert ks[1..][i] == ks[i + 1] && ks[1..][j] == ks[j + 1];
    }
  }

  function EntryOf(apps: map<Key, Application>, k: Key): Entry
    requires k in apps
  {
    Entry(k, apps[k].controlCode, apps[k].descs)
  }

  function EntriesFor(apps: map<Key, Application>, ks: seq<Key>): (es: seq<Entry>)
    requires forall k :: k in ks ==> k in apps
    ensures |es| == |ks|
    ensures forall i :: 0 <= i < |ks| ==> es[i] == EntryOf(apps, ks[i])
  {
    if ks == [] then [] else [EntryOf(apps, ks[0])] + EntriesFor(apps, ks[1..])
  }

  function KeysOf(es: seq<Entry>): (ks: seq<Key>)
    ensures |ks| == |es|
    ensures forall i :: 0 <= i < |es| ==> ks[i] == es[i].key
  {
    if es == [] then [] else [es[0].key] + KeysOf(es[1..])
  }

  /** The applications of a map in iteration order. */
  function SortedEntries(apps: map<Key, Application>): (es: seq<Entry>)
    ensures KeysOf(es) == SortedKeys(apps.Keys)
    ensures forall i :: 0 <= i < |es| ==> es[i].key in apps && apps[es[i].key] == Application(es[i].controlCode, es[i].descs)
  {
    var ks := SortedKeys(apps.Keys);
    KeysOfEntriesFor(apps, ks);
    EntriesFor(apps, ks)
  }

  lemma {:induction false} KeysOfEntriesFor(apps: map<Key, Application>, ks: seq<Key>)
    requires forall k :: k in ks ==> k in apps
    ensures var es := EntriesFor(apps, ks);
            && KeysOf(es) == ks
            && forall i :: 0 <= i < |es| ==> es[i].key in apps && apps[es[i].key] == Application(es[i].controlCode, es[i].descs)
  {
    var es := EntriesFor(apps, ks);
    assert forall i :: 0 <= i < |ks| ==> KeysOf(es)[i] == es[i].key == ks[i];
    forall i | 0 <= i < |es|
      ensures es[i].key in apps && apps[es[i].key] == Application(es[i].controlCode, es[i].descs)
    {
      assert ks[i] in ks;
    }
  }

  predicate DistinctKeys(es: seq<Entry>)
  {
    forall i, j :: 0 <= i < j < |es| ==> es[i].key != es[j].key
  }

  lemma {:induction false} SortedEntriesDistinct(apps: map<Key, Application>)
    ensures DistinctKeys(SortedEntries(apps))
  {
    var es := SortedEntries(apps);
    var ks := KeysOf(es);
    forall i, j | 0 <= i < j < |es| ensures es[i].key != es[j].key {
      assert Less(ks[i], ks[j]);
    }
  }

  // ---------------------------------------------------------------------
  // Storing entries into the map
  // ---------------------------------------------------------------------

  /** Stores each entry at its key in turn, a later entry replacing an
      earlier one with the same key. */
  function PutAll(m: map<Key, Application>, es: seq<Entry>): map<Key, Application>
    decreases |es|
  {
    if es == [] then m
    else PutAll(m[es[0].key := Application(es[0].controlCode, es[0].descs)], es[1..])
  }

  /** The keys after storing are the old keys plus the entries' keys; a
      key an entry carries maps to the last entry with that key, and any
      other key keeps its old value. */
  lemma {:induction false} PutAllContents(m: map<Key, Application>, es: seq<Entry>, k: Key)
    ensures k in PutAll(m, es) <==> k in m || k in KeysOf(es)
    ensures k !in KeysOf(es) && k in m ==> PutAll(m, es)[k] == m[k]
    ensures forall i :: 0 <= i < |es| && es[i].key == k
                        && (forall j :: i < j < |es| ==> es[j].key != k)
                        ==> PutAll(m, es)[k] == Application(es[i].controlCode, es[i].descs)
    decreases |es|
  {
    if es != [] {
      var m' := m[es[0].key := Application(es[0].controlCode, es[0].descs)];
      PutAllContents(m', es[1..], k);
      assert KeysOf(es) == [es[0].key] + KeysOf(es[1..]);
      forall i | 0 <= i < |es| && es[i].key == k && (forall j :: i < j < |es| ==> es[j].key != k)
        ensures PutAll(m, es)[k] == Application(es[i].controlCode, es[i].descs)
      {
        if i > 0 {
          assert es[1..][i - 1] == es[i];
          assert forall j :: i - 1 < j < |es| - 1 ==> es[1..][j].key != k by {
            forall j | i - 1 < j < |es| - 1 ensures es[1..][j].key != k {
              assert es[1..][j] == es[j + 1];
            }
          }
        } else {
          assert k !in KeysOf(es[1..]) by {
            forall j | 0 <= j < |es| - 1 ensures KeysOf(es[1..])[j] != k {
              assert es[1..][j] == es[j + 1];
            }
          }
        }
      }
    }
  }

  /** Storing a map's applications in iteration order rebuilds the map. */
  lemma {:induction false} PutAllSortedEntries(apps: map<Key, Application>)
    ensures PutAll(map[], SortedEntries(apps)) == apps
  {
    var r := PutAll(map[], SortedEntries(apps));
    forall k ensures (k in r <==> k in apps) && (k in apps ==> r[k] == apps[k]) {
      PutAllSortedKey(apps, k);
    }
  }

  lemma {:induction false} PutAllSortedKey(apps: map<Key, Application>, k: Key)
    ensures var r := PutAll(map[], SortedEntries(apps));
            (k in r <==> k in apps) && (k in apps ==> r[k] == apps[k])
  {
    var es := SortedEntries(apps);
    SortedEntriesDistinct(apps);
    PutAllContents(map[], es, k);
    if k in apps {
      assert k in KeysOf(es);
      var i :| 0 <= i < |es| && KeysOf(es)[i] == k;
      assert forall j :: i < j < |es| ==> es[j].key != k;
    }
  }
}
