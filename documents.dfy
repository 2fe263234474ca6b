/** Report files as YAML document streams, abstracted: a document is blank
    (YAML `null`) or a mapping from field names to values, and a file holds
    either a document stream or a gzip'd tar archive of another file. */
module Documents {

  import opened Wrappers

  /** A field value. Nested YAML structure is not distinguished; `Ref` is a
      store-generated record identifier. */
  datatype Value = Str(s: string) | Num(n: int) | Ref(id: nat) | Null

  type Mapping = map<string, Value>

  datatype Document = Blank | Doc(fields: Mapping)

  datatype Content =
    | Docs(docs: seq<Document>)
    | TarGz(member: string, original: Content)

  /** Python's `not entry`: `None` and the empty dict are both falsy. */
  predicate IsBlank(d: Document) {
    d.Blank? || d.fields == map[]
  }

  /** The entries a blank-skipping reader yields from a document stream, in
      stream order. */
  function NonBlank(ds: seq<Document>): seq<Mapping> {
    if ds == [] then []
    else if IsBlank(ds[0]) then NonBlank(ds[1..])
    else [ds[0].fields] + NonBlank(ds[1..])
  }

  /** The reader never yields a blank entry, yields only documents of the
      stream, and yields every non-blank one. */
  lemma {:induction false} NonBlankSpec(ds: seq<Document>)
    ensures |NonBlank(ds)| <= |ds|
    ensures forall e :: e in NonBlank(ds) ==> e != map[] && Doc(e) in ds
    ensures forall i :: 0 <= i < |ds| && !IsBlank(ds[i]) ==> ds[i].fields in NonBlank(ds)
  {
    if ds != [] {
      NonBlankSpec(ds[1..]);
      forall i | 1 <= i < |ds| && !IsBlank(ds[i])
        ensures ds[i].fields in NonBlank(ds)
      {
        assert ds[1..][i - 1] == ds[i];
      }
    }
  }

  /** Skipping blanks commutes with concatenation, so the order of the
      stream is kept and skipping never ends the sequence early. */
  lemma {:induction false} NonBlankAppend(a: seq<Document>, b: seq<Document>)
    ensures NonBlank(a + b) == NonBlank(a) + NonBlank(b)
  {
    if a != [] {
      var ab := a + b;
      assert ab[0] == a[0] && ab[1..] == a[1..] + b;
      NonBlankAppend(a[1..], b);
      if IsBlank(a[0]) {
        assert NonBlank(ab) == NonBlank(ab[1..]);
        assert NonBlank(a) == NonBlank(a[1..]);
      } else {
        assert NonBlank(ab) == [a[0].fields] + NonBlank(ab[1..]);
        assert NonBlank(a) == [a[0].fields] + NonBlank(a[1..]);
        assert [a[0].fields] + (NonBlank(a[1..]) + NonBlank(b)) == ([a[0].fields] + NonBlank(a[1..])) + NonBlank(b);
      }
    } else {
      assert a + b == b;
    }
  }

  /** A stream made only of blank documents yields nothing. */
  lemma {:induction false} NonBlankOfBlanks(ds: seq<Document>)
    requires forall i :: 0 <= i < |ds| ==> IsBlank(ds[i])
    ensures NonBlank(ds) == []
  {
    if ds != [] {
      NonBlankOfBlanks(ds[1..]);
    }
  }

  /** Entries written back as documents. */
  function AsDocuments(es: seq<Mapping>): (ds: seq<Document>)
    ensures |ds| == |es|
    ensures forall i :: 0 <= i < |es| ==> ds[i] == Doc(es[i])
  {
    seq(|es|, i requires 0 <= i < |es| => Doc(es[i]))
  }

  /** A report opened for reading: its first document (the header) and the
      documents that follow it, not yet filtered. */
  datatype Opened = Opened(header: Mapping, rest: seq<Document>)

  /** Opening a report fails when the file is not a document stream, has no
      document at all, or its first document is not a mapping. */
  function ReadReport(c: Content): Option<Opened> {
    match c
    case TarGz(_, _) => None
    case Docs(ds) =>
      if |ds| == 0 || ds[0].Blank? then None
      else Some(Opened(ds[0].fields, ds[1..]))
  }

  /** Opening succeeds exactly on a stream whose first document is a
      mapping, and splits the stream into that header and the rest. */
  lemma ReadReportSplitsHeader(c: Content)
    ensures ReadReport(c).Some? <==> c.Docs? && |c.docs| > 0 && c.docs[0].Doc?
    ensures ReadReport(c).Some? ==> c.docs == [Doc(ReadReport(c).value.header)] + ReadReport(c).value.rest
  {
    if ReadReport(c).Some? {
      assert c.docs == [c.docs[0]] + c.docs[1..];
    }
  }

}
