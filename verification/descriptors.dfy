/** Descriptor lists, seen from the table codec: an ordered sequence of
    atomic tag-length-value records, how a list is written whole or
    partially, and how it is read back. The records are opaque here; only
    their wire size matters to the segmentation logic. */
module Descriptors {
  import opened Bytes
  import opened Results

  /** One descriptor: a tag byte and a body of at most 255 bytes, written
      as tag, body length, body (the MPEG-2 descriptor layout). */
  datatype RawDescriptor = Descriptor(tag: byte, body: seq<byte>)
  type Descriptor = d: RawDescriptor | |d.body| <= 0xFF witness Descriptor(0, [])

  /** Wire size of one descriptor. */
  function Size(d: Descriptor): nat
  {
    2 + |d.body|
  }

  /** Wire size of a descriptor list without its length prefix
      (`DescriptorList::binarySize`). */
  function ListSize(ds: seq<Descriptor>): nat
  {
    if ds == [] then 0 else Size(ds[0]) + ListSize(ds[1..])
  }

  function Encode(d: Descriptor): seq<byte>
  {
    [d.tag, |d.body|] + d.body
  }

  function EncodeList(ds: seq<Descriptor>): seq<byte>
  {
    if ds == [] then [] else Encode(ds[0]) + EncodeList(ds[1..])
  }

  /** A descriptor list "with length": a 16-bit field holding four
      reserved 1-bits and the 12-bit byte size, then the records. */
  function ListWithLength(ds: seq<Descriptor>): seq<byte>
  {
    LengthField(ListSize(ds)) + EncodeList(ds)
  }

  /** The partial list writer: starting at index `start`, the index just
      past the longest run of whole descriptors whose total size fits in
      `budget` bytes. Writing stops at the first descriptor that does not
      fit; no descriptor is ever cut. */
  function FitIndex(ds: seq<Descriptor>, start: nat, budget: nat): (next: nat)
    requires start <= |ds|
    ensures start <= next <= |ds|
    ensures ListSize(ds[start..next]) <= budget
    ensures next < |ds| ==> ListSize(ds[start..next + 1]) > budget
    decreases |ds| - start
  {
    if start == |ds| || Size(ds[start]) > budget then
      assert start < |ds| ==> ds[start..start + 1][1..] == [];
      start
    else
      var next := FitIndex(ds, start + 1, budget - Size(ds[start]));
      assert ds[start..next][1..] == ds[start + 1..next];
      assert next < |ds| ==> ds[start..next + 1][1..] == ds[start + 1..next + 1];
      next
  }

  /** Splits the bytes of `p` from `off` up to `end` into descriptors;
      fails when a record runs past `end`. */
  function ParseList(p: seq<byte>, off: nat, end: nat): (r: Option<seq<Descriptor>>)
    requires off <= end <= |p|
    ensures r.Some? ==> ListSize(r.value) == end - off
    decreases end - off
  {
    if off == end then Some([])
    else if end - off < 2 || end - off < 2 + p[off + 1] as int then None
    else
      var next := off + 2 + p[off + 1] as int;
      var d: Descriptor := Descriptor(p[off], p[off + 2..next]);
      var rest :- ParseList(p, next, end);
      assert ([d] + rest)[1..] == rest;
      Some([d] + rest)
  }

  /** Reads a descriptor list with length at offset `off`. */
  function ReadListWithLength(p: seq<byte>, off: nat): (r: Result<Parsed<seq<Descriptor>>, ReadError>)
    ensures r.Ok? ==> off + 2 <= |p| && GetLength12(p, off) == ListSize(r.value.value)
    ensures r.Ok? ==> r.value.next == off + 2 + ListSize(r.value.value) <= |p|
  {
    if off + 2 > |p| then Err(BufferError)
    else
      var len := GetLength12(p, off);
      if off + 2 + len > |p| then Err(BufferError)
      else
        match ParseList(p, off + 2, off + 2 + len)
        case None => Err(BufferError)
        case Some(ds) => Ok(Parsed(ds, off + 2 + len))
  }

  lemma {:induction false} ListSizeAppend(a: seq<Descriptor>, b: seq<Descriptor>)
    ensures ListSize(a + b) == ListSize(a) + ListSize(b)
    ensures EncodeList(a + b) == EncodeList(a) + EncodeList(b)
  {
    if a != [] {
      assert (a + b)[1..] == a[1..] + b;
      ListSizeAppend(a[1..], b);
    } else {
      assert a + b == b;
    }
  }

  lemma {:induction false} EncodeListSize(ds: seq<Descriptor>)
    ensures |EncodeList(ds)| == ListSize(ds)
  {
    if ds != [] {
      EncodeListSize(ds[1..]);
    }
  }

  lemma {:induction false} ListWithLengthSize(ds: seq<Descriptor>)
    ensures |ListWithLength(ds)| == 2 + ListSize(ds)
  {
    EncodeListSize(ds);
  }

  /** Every descriptor occupies at least two bytes, so only the empty list
      has size zero. */
  lemma {:induction false} ListSizeZero(ds: seq<Descriptor>)
    ensures ListSize(ds) == 0 <==> ds == []
    ensures ListSize(ds) >= 2 * |ds|
  {
    if ds != [] {
      ListSizeZero(ds[1..]);
    }
  }

  /** Whatever the list reader accepts is exactly the encoding of the list
      it returns. */
  lemma {:induction false} ParseListSound(p: seq<byte>, off: nat, end: nat)
    requires off <= end <= |p|
    ensures ParseList(p, off, end).Some? ==> EncodeList(ParseList(p, off, end).value) == p[off..end]
    decreases end - off
  {
    if off < end && end - off >= 2 && end - off >= 2 + p[off + 1] as int {
      var next := off + 2 + p[off + 1] as int;
      ParseListSound(p, next, end);
      var r := ParseList(p, next, end);
      if r.Some? {
        var d: Descriptor := Descriptor(p[off], p[off + 2..next]);
        EncodeCons(d, r.value);
        RecordSplit(p, off, next, end);
      }
    }
  }

  lemma {:induction false} EncodeCons(d: Descriptor, ds: seq<Descriptor>)
    ensures EncodeList([d] + ds) == Encode(d) + EncodeList(ds)
  {
    assert ([d] + ds)[1..] == ds;
  }

  /** Bytes starting with a whole record split into that record's encoding
      and the rest. */
  lemma {:induction false} RecordSplit(p: seq<byte>, off: nat, next: nat, end: nat)
    requires off + 2 <= next <= end <= |p| && next == off + 2 + p[off + 1] as int
    ensures p[off..end] == Encode(Descriptor(p[off], p[off + 2..next])) + p[next..end]
  {
    assert p[off..end] == [p[off], p[off + 1]] + p[off + 2..next] + p[next..end];
  }

  /** The bytes a list with length is read from are the encoding of the
      list read. */
  lemma {:induction false} ReadListWithLengthSound(p: seq<byte>, off: nat)
    ensures var r := ReadListWithLength(p, off);
            r.Ok? ==> p[off + 2..r.value.next] == EncodeList(r.value.value)
  {
    if off + 2 <= |p| {
      var len := GetLength12(p, off);
      if off + 2 + len <= |p| {
        ParseListSound(p, off + 2, off + 2 + len);
      }
    }
  }

  /** The records of `ds` are written one after the other from offset
      `off` of `p`. */
  predicate RecordsAt(p: seq<byte>, off: nat, ds: seq<Descriptor>)
    decreases |ds|
  {
    && off + ListSize(ds) <= |p|
    && (ds != [] ==>
          && p[off] == ds[0].tag
          && p[off + 1] as int == |ds[0].body|
          && p[off + 2..off + Size(ds[0])] == ds[0].body
          && RecordsAt(p, off + Size(ds[0]), ds[1..]))
  }

  /** Records read back from where they lie are themselves. */
  lemma {:induction false} ReadRecordsAt(p: seq<byte>, off: nat, ds: seq<Descriptor>)
    requires RecordsAt(p, off, ds)
    ensures ParseList(p, off, off + ListSize(ds)) == Some(ds)
    decreases |ds|
  {
    if ds != [] {
      ReadRecordsAt(p, off + Size(ds[0]), ds[1..]);
      assert [ds[0]] + ds[1..] == ds;
    }
  }

  /** The records of a list written inside any surrounding bytes lie where
      the reader expects them. */
  lemma {:induction false} RecordsLayout(pre: seq<byte>, ds: seq<Descriptor>, suf: seq<byte>)
    ensures RecordsAt(pre + EncodeList(ds) + suf, |pre|, ds)
    decreases |ds|
  {
    EncodeListSize(ds);
    if ds != [] {
      var d := ds[0];
      var rest := EncodeList(ds[1..]) + suf;
      ConcatAssoc(pre, Encode(d), EncodeList(ds[1..]));
      ConcatAssoc(pre + Encode(d), EncodeList(ds[1..]), suf);
      RecordsLayout(pre + Encode(d), ds[1..], suf);
      RecordFields(pre, d, rest);
    }
  }

  /** Where the fields of one written record lie. */
  lemma {:induction false} RecordFields(pre: seq<byte>, d: Descriptor, suf: seq<byte>)
    ensures var p := pre + Encode(d) + suf;
            && |pre| + Size(d) <= |p|
            && p[|pre|] == d.tag
            && p[|pre| + 1] as int == |d.body|
            && p[|pre| + 2..|pre| + Size(d)] == d.body
  {
    var p := pre + Encode(d) + suf;
    assert p == pre + [d.tag, |d.body| as byte] + d.body + suf;
    assert p[|pre| + 2..|pre| + Size(d)] == d.body;
  }

  /** `ds` is written with its length at offset `off` of `p`. */
  predicate ListAt(p: seq<byte>, off: nat, ds: seq<Descriptor>)
  {
    && off + 2 + ListSize(ds) <= |p|
    && GetLength12(p, off) == ListSize(ds)
    && RecordsAt(p, off + 2, ds)
  }

  /** A list written with its length inside any surrounding bytes lies
      where the reader expects it. */
  lemma {:induction false} ListLayout(pre: seq<byte>, ds: seq<Descriptor>, suf: seq<byte>)
    requires ListSize(ds) <= MaxLength12
    ensures ListAt(pre + ListWithLength(ds) + suf, |pre|, ds)
  {
    var p := pre + ListWithLength(ds) + suf;
    assert p == pre + LengthField(ListSize(ds)) + (EncodeList(ds) + suf);
    LengthFieldRead(pre, ListSize(ds), EncodeList(ds) + suf);
    RecordsLayout(pre + LengthField(ListSize(ds)), ds, suf);
    ConcatAssoc(pre, LengthField(ListSize(ds)), EncodeList(ds));
    assert p == pre + LengthField(ListSize(ds)) + EncodeList(ds) + suf;
  }

  /** A list written with its length, read back from where it lies, yields
      the list and the offset just after it. */
  lemma {:induction false} ReadListAt(p: seq<byte>, off: nat, ds: seq<Descriptor>)
    requires ListAt(p, off, ds)
    ensures ReadListWithLength(p, off) == Ok(Parsed(ds, off + 2 + ListSize(ds)))
  {
    ReadRecordsAt(p, off + 2, ds);
  }

  /** When the whole remainder of the list fits in the budget, the partial
      writer writes all of it. */
  lemma {:induction false} FitIndexWhole(ds: seq<Descriptor>, start: nat, budget: nat)
    requires start <= |ds|
    requires ListSize(ds[start..]) <= budget
    ensures FitIndex(ds, start, budget) == |ds|
  {
    var next := FitIndex(ds, start, budget);
    if next < |ds| {
      assert ds[start..] == ds[start..next + 1] + ds[next + 1..];
      ListSizeAppend(ds[start..next + 1], ds[next + 1..]);
    }
  }
}
