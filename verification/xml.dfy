/** Building an AIT from its XML form, and the XML form of an AIT.

    The XML library is not part of this model: an element is given here as
    the values its attributes hold and the outcome of decoding its
    descriptor children. An attribute is absent, malformed (present but
    not a number, or not a boolean), or present with a value. */
module XmlCodec {
  import opened Bytes
  import opened Results
  import opened Descriptors
  import opened Ait

  datatype Attr<+T> = Absent | Malformed | Present(value: T)

  /** The `<application_identifier>` child of an application. */
  datatype IdentifierElement = IdentifierElement(organizationId: Attr<int>, applicationId: Attr<int>)

  /** An `<application>` element: its control code, its descriptor
      children (None when one of them is not a valid descriptor) and its
      first `<application_identifier>` child, if any. */
  datatype ApplicationElement = ApplicationElement(
    controlCode: Attr<int>,
    descs: Option<seq<Descriptor>>,
    identifier: Option<IdentifierElement>)

  /** The `<AIT>` element: its attributes, its descriptor children other
      than applications, and its `<application>` children in document
      order. */
  datatype AitElement = AitElement(
    version: Attr<int>,
    current: Attr<bool>,
    testApplicationFlag: Attr<bool>,
    applicationType: Attr<int>,
    descs: Option<seq<Descriptor>>,
    applications: seq<ApplicationElement>)

  /** The value of an attribute, or `default` when it is absent. */
  function ValueOr<T>(a: Attr<T>, default: T): T
  {
    if a.Present? then a.value else default
  }

  /** Reads an integer attribute: an absent attribute takes the default
      unless it is required; a present one must lie in `lo..hi`. */
  function GetInt(a: Attr<int>, required: bool, default: int, lo: int, hi: int): (r: Option<int>)
    ensures r.Some? <==> (a.Absent? && !required) || (a.Present? && lo <= a.value <= hi)
    ensures r.Some? ==> r.value == ValueOr(a, default)
  {
    match a
    case Absent => if required then None else Some(default)
    case Malformed => None
    case Present(v) => if lo <= v <= hi then Some(v) else None
  }

  /** Reads a boolean attribute: an absent attribute takes the default
      unless it is required. */
  function GetBool(a: Attr<bool>, required: bool, default: bool): (r: Option<bool>)
    ensures r.Some? <==> a.Present? || (a.Absent? && !required)
    ensures r.Some? ==> r.value == ValueOr(a, default)
  {
    match a
    case Absent => if required then None else Some(default)
    case Malformed => None
    case Present(b) => Some(b)
  }

  // ---------------------------------------------------------------------
  // What a valid element is, independently of the decoder
  // ---------------------------------------------------------------------

  predicate InRange(a: Attr<int>, lo: int, hi: int)
  {
    a.Present? && lo <= a.value <= hi
  }

  predicate OptionalInRange(a: Attr<int>, lo: int, hi: int)
  {
    a.Absent? || InRange(a, lo, hi)
  }

  /** An application is valid when its control code is a byte, its
      descriptors decode, and it has an identifier child with a 32-bit
      organisation id and a 16-bit application id. */
  predicate ApplicationValid(a: ApplicationElement)
  {
    && InRange(a.controlCode, 0, 0xFF)
    && a.descs.Some?
    && a.identifier.Some?
    && InRange(a.identifier.value.organizationId, 0, 0xFFFF_FFFF)
    && InRange(a.identifier.value.applicationId, 0, 0xFFFF)
  }

  /** A valid AIT element: an optional version of at most 31, optional
      well-formed booleans, a required application type of at most
      0x7FFF, decodable descriptors and only valid applications. */
  predicate ElementValid(e: AitElement)
  {
    && OptionalInRange(e.version, 0, 31)
    && !e.current.Malformed?
    && !e.testApplicationFlag.Malformed?
    && InRange(e.applicationType, 0, 0x7FFF)
    && e.descs.Some?
    && forall i :: 0 <= i < |e.applications| ==> ApplicationValid(e.applications[i])
  }

  // ---------------------------------------------------------------------
  // The decoder
  // ---------------------------------------------------------------------

  /** Decodes one application into an entry keyed by its identifier. */
  function AnalyzeApplication(a: ApplicationElement): (r: Option<Entry>)
    ensures r.Some? <==> ApplicationValid(a)
    ensures r.Some? ==> && r.value.controlCode as int == a.controlCode.value
                        && r.value.descs == a.descs.value
                        && r.value.key.organizationId as int == a.identifier.value.organizationId.value
                        && r.value.key.applicationId as int == a.identifier.value.applicationId.value
  {
    var cc :- GetInt(a.controlCode, true, 0, 0, 0xFF);
    var descs :- a.descs;
    var id :- a.identifier;
    var org :- GetInt(id.organizationId, true, 0, 0, 0xFFFF_FFFF);
    var app :- GetInt(id.applicationId, true, 0, 0, 0xFFFF);
    Some(Entry(Key(org as uint32, app as uint16), cc as byte, descs))
  }

  /** Decodes the applications in document order into `m`, stopping at
      the first invalid one; each decoded application is stored at its
      identifier, replacing whatever was there. */
  function AnalyzeApplications(m: map<Key, Application>, elems: seq<ApplicationElement>): (r: Option<map<Key, Application>>)
    ensures r.Some? <==> forall i :: 0 <= i < |elems| ==> ApplicationValid(elems[i])
    decreases |elems|
  {
    if elems == [] then Some(m)
    else
      match AnalyzeApplication(elems[0])
      case None => None
      case Some(e) =>
        var r := AnalyzeApplications(m[e.key := Application(e.controlCode, e.descs)], elems[1..]);
        assert forall i :: 1 <= i < |elems| ==> elems[i] == elems[1..][i - 1];
        r
  }

  /** Decodes an AIT element. The version defaults to 0, the current flag
      and the test application flag to true; the application type is
      required. The applications start from an empty map, the content
      having been cleared before decoding. */
  function AnalyzeXml(e: AitElement): (r: Option<Table>)
    ensures r.Some? <==> ElementValid(e)
    ensures r.Some? ==> && r.value.version as int == ValueOr(e.version, 0)
                        && r.value.isCurrent == ValueOr(e.current, true)
                        && r.value.testApplicationFlag == ValueOr(e.testApplicationFlag, true)
                        && r.value.applicationType as int == e.applicationType.value
                        && r.value.descs == e.descs.value
  {
    var version :- GetInt(e.version, false, 0, 0, 31);
    var current :- GetBool(e.current, false, true);
    var flag :- GetBool(e.testApplicationFlag, false, true);
    var applicationType :- GetInt(e.applicationType, true, 0, 0, 0x7FFF);
    var descs :- e.descs;
    var apps :- AnalyzeApplications(map[], e.applications);
    Some(Table(version as byte, current, applicationType as uint16, flag, descs, apps))
  }

  /** The entries the applications of an element decode to, in document
      order. */
  function EntriesOf(elems: seq<ApplicationElement>): (es: seq<Entry>)
    requires forall i :: 0 <= i < |elems| ==> ApplicationValid(elems[i])
    ensures |es| == |elems|
    ensures forall i :: 0 <= i < |elems| ==> Some(es[i]) == AnalyzeApplication(elems[i])
    decreases |elems|
  {
    if elems == [] then []
    else
      assert forall i :: 1 <= i < |elems| ==> elems[i] == elems[1..][i - 1];
      [AnalyzeApplication(elems[0]).value] + EntriesOf(elems[1..])
  }

  /** Decoding valid applications stores their entries one after the
      other. */
  lemma {:induction false} AnalyzeApplicationsPutAll(m: map<Key, Application>, elems: seq<ApplicationElement>)
    requires forall i :: 0 <= i < |elems| ==> ApplicationValid(elems[i])
    ensures AnalyzeApplications(m, elems) == Some(PutAll(m, EntriesOf(elems)))
    decreases |elems|
  {
    if elems != [] {
      var e := AnalyzeApplication(elems[0]).value;
      assert forall i :: 0 <= i < |elems| - 1 ==> elems[1..][i] == elems[i + 1];
      AnalyzeApplicationsPutAll(m[e.key := Application(e.controlCode, e.descs)], elems[1..]);
      assert EntriesOf(elems)[1..] == EntriesOf(elems[1..]);
    }
  }

  /** The applications of a decoded table: an identifier is present when
      some application carries it, and it maps to the last application
      carrying it. */
  lemma {:induction false} AnalyzeXmlLastWins(e: AitElement, k: Key)
    requires ElementValid(e)
    ensures var apps := AnalyzeXml(e).value.applications;
            var es := EntriesOf(e.applications);
            && (k in apps <==> k in KeysOf(es))
            && forall i :: 0 <= i < |es| && es[i].key == k
                           && (forall j :: i < j < |es| ==> es[j].key != k)
                           ==> apps[k] == Application(es[i].controlCode, es[i].descs)
  {
    AnalyzeXmlApplications(e);
    PutAllContents(map[], EntriesOf(e.applications), k);
  }

  /** The applications of a decoded table are its entries stored in
      document order. */
  lemma {:induction false} AnalyzeXmlApplications(e: AitElement)
    requires ElementValid(e)
    ensures AnalyzeXml(e).value.applications == PutAll(map[], EntriesOf(e.applications))
  {
    AnalyzeApplicationsPutAll(map[], e.applications);
  }

  // ---------------------------------------------------------------------
  // The XML form of a table
  // ---------------------------------------------------------------------

  function ElementOf(e: Entry): ApplicationElement
  {
    ApplicationElement(
      Present(e.controlCode as int),
      Some(e.descs),
      Some(IdentifierElement(Present(e.key.organizationId as int), Present(e.key.applicationId as int))))
  }

  function ElementsOf(es: seq<Entry>): (elems: seq<ApplicationElement>)
    ensures |elems| == |es|
    ensures forall i :: 0 <= i < |es| ==> elems[i] == ElementOf(es[i])
  {
    if es == [] then [] else [ElementOf(es[0])] + ElementsOf(es[1..])
  }

  /** The XML form of a table: every attribute written, then the
      descriptors, then one application element per application in
      identifier order. It is valid exactly when the version and the
      application type are in range; it holds as many application elements
      as the table has applications, each decoding to one of them, and no
      two with the same identifier. */
  function ToXml(t: Table): (e: AitElement)
    ensures ElementValid(e) <==> t.version <= 31 && t.applicationType <= 0x7FFF
    ensures |e.applications| == |t.applications|
    ensures forall i :: 0 <= i < |e.applications| ==>
              && AnalyzeApplication(e.applications[i]).Some?
              && AnalyzeApplication(e.applications[i]).value.key in t.applications
              && t.applications[AnalyzeApplication(e.applications[i]).value.key]
                 == Application(AnalyzeApplication(e.applications[i]).value.controlCode,
                                AnalyzeApplication(e.applications[i]).value.descs)
    ensures forall i, j :: 0 <= i < j < |e.applications| ==>
              e.applications[i].identifier != e.applications[j].identifier
  {
    var es := SortedEntries(t.applications);
    SortedEntriesDistinct(t.applications);
    SortedEntriesCount(t.applications);
    ElementsFacts(t.applications, es);
    AitElement(
      Present(t.version as int),
      Present(t.isCurrent),
      Present(t.testApplicationFlag),
      Present(t.applicationType as int),
      Some(t.descs),
      ElementsOf(SortedEntries(t.applications)))
  }

  lemma {:induction false} SortedEntriesCount(apps: map<Key, Application>)
    ensures |SortedEntries(apps)| == |apps|
  {
    assert |KeysOf(SortedEntries(apps))| == |SortedKeys(apps.Keys)|;
  }

  /** The elements of entries taken from a map, with distinct keys, decode
      to entries of that map and carry distinct identifiers. */
  lemma {:induction false} ElementsFacts(apps: map<Key, Application>, es: seq<Entry>)
    requires DistinctKeys(es)
    requires forall i :: 0 <= i < |es| ==> es[i].key in apps && apps[es[i].key] == Application(es[i].controlCode, es[i].descs)
    ensures forall i :: 0 <= i < |ElementsOf(es)| ==> ApplicationValid(ElementsOf(es)[i])
    ensures var elems := ElementsOf(es);
            && (forall i :: 0 <= i < |elems| ==>
                  && AnalyzeApplication(elems[i]).Some?
                  && AnalyzeApplication(elems[i]).value.key in apps
                  && apps[AnalyzeApplication(elems[i]).value.key]
                     == Application(AnalyzeApplication(elems[i]).value.controlCode,
                                    AnalyzeApplication(elems[i]).value.descs))
            && (forall i, j :: 0 <= i < j < |elems| ==> elems[i].identifier != elems[j].identifier)
  {
    var elems := ElementsOf(es);
    forall i | 0 <= i < |elems| ensures AnalyzeApplication(elems[i]) == Some(es[i]) {
      ApplicationRoundTrip(es[i]);
    }
    forall i, j | 0 <= i < j < |elems| ensures elems[i].identifier != elems[j].identifier {
      assert es[i].key != es[j].key;
    }
  }

  lemma {:induction false} ApplicationRoundTrip(e: Entry)
    ensures AnalyzeApplication(ElementOf(e)) == Some(e)
  {
  }

  /** Decoding the elements of entries stores the entries. */
  lemma {:induction false} ElementsRoundTrip(m: map<Key, Application>, es: seq<Entry>)
    ensures AnalyzeApplications(m, ElementsOf(es)) == Some(PutAll(m, es))
    decreases |es|
  {
    if es != [] {
      var elems := ElementsOf(es);
      ApplicationRoundTrip(es[0]);
      assert elems[1..] == ElementsOf(es[1..]);
      ElementsRoundTrip(m[es[0].key := Application(es[0].controlCode, es[0].descs)], es[1..]);
    }
  }

  /** A table whose version fits in 5 bits and whose application type fits
      in 15 bits decodes from its XML form to itself; any other table's XML
      form is rejected. */
  lemma {:induction false} XmlRoundTrip(t: Table)
    ensures AnalyzeXml(ToXml(t)) == if t.version <= 31 && t.applicationType <= 0x7FFF then Some(t) else None
  {
    ApplicationsRoundTrip(t.applications);
    RoundTripWith(t, ElementsOf(SortedEntries(t.applications)));
  }

  /** The round trip, for any application elements that decode to the
      table's applications. */
  lemma {:induction false} RoundTripWith(t: Table, elems: seq<ApplicationElement>)
    requires AnalyzeApplications(map[], elems) == Some(t.applications)
    ensures var e := AitElement(Present(t.version as int), Present(t.isCurrent), Present(t.testApplicationFlag),
                                Present(t.applicationType as int), Some(t.descs), elems);
            AnalyzeXml(e) == if t.version <= 31 && t.applicationType <= 0x7FFF then Some(t) else None
  {
  }

  /** The application elements of a table's XML form decode to its
      applications. */
  lemma {:induction false} ApplicationsRoundTrip(apps: map<Key, Application>)
    ensures AnalyzeApplications(map[], ElementsOf(SortedEntries(apps))) == Some(apps)
  {
    ElementsRoundTrip(map[], SortedEntries(apps));
    PutAllSortedEntries(apps);
  }
}
