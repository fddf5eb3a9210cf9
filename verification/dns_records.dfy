/** The provider's record-set body format: every (record, key) pair becomes a
    segment `records[<id>][<key>]=<value>`, segments are joined by `&`, and no
    escaping of any kind is applied. */
module DnsRecords {
  import opened Wrappers
  import opened Records

  const Separator: char := '&'

  /** `to_form_url_encoded` reads `record['id']` for every key it emits, so a record with
      at least one key must carry an id (an empty record emits nothing). */
  predicate Encodable(r: Record) {
    |r| == 0 || HasKey(r, "id")
  }

  predicate AllEncodable(rs: seq<Record>) {
    forall i :: 0 <= i < |rs| ==> Encodable(rs[i])
  }

  function Id(r: Record): Value
    requires HasKey(r, "id")
  {
    Lookup(r, "id").value
  }

  /** One form field, with id, key and value copied verbatim. */
  function Segment(id: Value, key: Key, value: Value): string {
    "records[" + id + "][" + key + "]=" + value
  }

  /** The segments of one record, in the record's key order. */
  function RecordSegments(r: Record): (ss: seq<string>)
    requires Encodable(r)
    ensures |ss| == |r|
  {
    if |r| == 0 then []
    else seq(|r|, j requires 0 <= j < |r| => Segment(Id(r), r[j].0, r[j].1))
  }

  lemma RecordSegmentAt(r: Record, j: nat)
    requires Encodable(r) && j < |r|
    ensures RecordSegments(r)[j] == Segment(Id(r), r[j].0, r[j].1)
  {
  }

  /** Total number of keys over all records. */
  function TotalKeys(rs: seq<Record>): nat {
    if |rs| == 0 then 0 else |rs[0]| + TotalKeys(rs[1..])
  }

  /** The segments of all records, record after record. */
  function Segments(rs: seq<Record>): (ss: seq<string>)
    requires AllEncodable(rs)
    ensures |ss| == TotalKeys(rs)
  {
    if |rs| == 0 then [] else RecordSegments(rs[0]) + Segments(rs[1..])
  }

  /** `sep.join(xs)`. */
  function Join(xs: seq<string>, sep: char): string {
    if |xs| == 0 then ""
    else if |xs| == 1 then xs[0]
    else xs[0] + [sep] + Join(xs[1..], sep)
  }

  /** `s.split(sep)`: the pieces between occurrences of `sep`. */
  function Split(s: string, sep: char): (pieces: seq<string>)
    ensures |pieces| >= 1
  {
    if |s| == 0 then [""]
    else if s[0] == sep then [""] + Split(s[1..], sep)
    else
      var rest := Split(s[1..], sep);
      [[s[0]] + rest[0]] + rest[1..]
  }

  /** The request body the updater posts for a record set. */
  function Encode(rs: seq<Record>): string
    requires AllEncodable(rs)
  {
    Join(Segments(rs), Separator)
  }

  /** The serialiser as written: a nested loop over records and their keys
      that puts `&` before a segment whenever the output is not yet empty. */
  method ToFormUrlEncoded(records: seq<Record>) returns (output: string)
    requires AllEncodable(records)
    ensures output == Encode(records)
  {
    output := "";
    var i := 0;
    while i < |records|
      invariant 0 <= i <= |records|
      invariant AllEncodable(records[..i])
      invariant output == Join(Segments(records[..i]), Separator)
      invariant output == "" <==> TotalKeys(records[..i]) == 0
    {
      var record := records[i];
      output := AppendRecord(output, Segments(records[..i]), record);
      SegmentsSnoc(records[..i], record);
      assert records[..i + 1] == records[..i] + [record];
      i := i + 1;
    }
    assert records[..i] == records;
  }

  /** The inner loop of the serialiser: one segment per key of `record`, each
      preceded by `&` unless the output is still empty. */
  method AppendRecord(output: string, ghost done: seq<string>, record: Record) returns (output': string)
    requires Encodable(record)
    requires output == Join(done, Separator)
    requires output == "" <==> |done| == 0
    ensures output' == Join(done + RecordSegments(record), Separator)
    ensures output' == "" <==> |done| + |record| == 0
  {
    var keys := RecordSegments(record);
    output' := output;
    var j := 0;
    assert done + keys[..j] == done;
    while j < |record|
      invariant 0 <= j <= |record|
      invariant output' == Join(done + keys[..j], Separator)
      invariant output' == "" <==> |done| + j == 0
    {
      JoinSnoc(done + keys[..j], keys[j]);
      if output' != "" {
        output' := output' + "&";
      }
      RecordSegmentAt(record, j);
      output' := output' + Segment(Id(record), record[j].0, record[j].1);
      assert done + keys[..j + 1] == done + keys[..j] + [keys[j]];
      j := j + 1;
    }
    assert keys[..j] == keys;
  }

  /** The segments of a record set with one more record appended. */
  lemma SegmentsSnoc(rs: seq<Record>, r: Record)
    requires AllEncodable(rs) && Encodable(r)
    ensures AllEncodable(rs + [r])
    ensures Segments(rs + [r]) == Segments(rs) + RecordSegments(r)
    ensures TotalKeys(rs + [r]) == TotalKeys(rs) + |r|
  {
    SegmentsConcat(rs, [r]);
    assert Segments([r]) == RecordSegments(r);
  }

  // ---------------------------------------------------------------------
  // Lemmas about Join and Split
  // ---------------------------------------------------------------------

  predicate AllNonEmpty(xs: seq<string>) {
    forall i :: 0 <= i < |xs| ==> |xs[i]| > 0
  }

  /** Every segment is non-empty and begins with the field prefix. */
  lemma SegmentsShape(rs: seq<Record>)
    requires AllEncodable(rs)
    ensures forall i :: 0 <= i < |Segments(rs)| ==> "records[" <= Segments(rs)[i]
  {
    var ss := Segments(rs);
    forall i | 0 <= i < |ss| ensures "records[" <= ss[i] {
      var ri, j := Locate(rs, i);
      SegmentAt(rs, ri, j);
      SegmentFacts(Id(rs[ri]), rs[ri][j].0, rs[ri][j].1);
    }
  }

  /** A field starts with `records[`, and holds no separator unless its id,
      key or value does. */
  lemma SegmentFacts(id: Value, key: Key, value: Value)
    ensures "records[" <= Segment(id, key, value)
    ensures Separator !in id && Separator !in key && Separator !in value ==> Separator !in Segment(id, key, value)
  {
  }

  /** Appending one more piece extends the join by a separator and the piece. */
  lemma {:induction false} JoinSnoc(xs: seq<string>, x: string)
    ensures Join(xs + [x], Separator) == if |xs| == 0 then x else Join(xs, Separator) + "&" + x
  {
    if |xs| == 0 {
      assert xs + [x] == [x];
    } else if |xs| == 1 {
      assert (xs + [x])[1..] == [x];
    } else {
      assert (xs + [x])[1..] == xs[1..] + [x];
      JoinSnoc(xs[1..], x);
    }
  }

  /** A join of non-empty pieces is empty exactly when there are no pieces. */
  lemma JoinNonEmpty(xs: seq<string>)
    requires AllNonEmpty(xs)
    ensures Join(xs, Separator) == "" <==> |xs| == 0
  {
    if |xs| > 1 {
      assert |Join(xs, Separator)| >= |xs[0]|;
    }
  }

  /** Joining two non-empty lists is joining each and putting one separator between. */
  lemma {:induction false} JoinConcat(a: seq<string>, b: seq<string>, sep: char)
    requires |a| > 0 && |b| > 0
    ensures Join(a + b, sep) == Join(a, sep) + [sep] + Join(b, sep)
  {
    if |a| == 1 {
      assert (a + b)[1..] == b;
    } else {
      assert (a + b)[1..] == a[1..] + b;
      JoinConcat(a[1..], b, sep);
    }
  }

  /** Splitting a piece with no separator, followed by a separator and more text. */
  lemma {:induction false} SplitPrefix(x: string, rest: string, sep: char)
    requires sep !in x
    ensures Split(x + [sep] + rest, sep) == [x] + Split(rest, sep)
  {
    if |x| == 0 {
      assert x + [sep] + rest == [sep] + rest;
      assert ([sep] + rest)[1..] == rest;
    } else {
      assert (x + [sep] + rest)[1..] == x[1..] + [sep] + rest;
      SplitPrefix(x[1..], rest, sep);
      assert [x[0]] + x[1..] == x;
    }
  }

  /** A piece with no separator splits into itself. */
  lemma {:induction false} SplitNoSep(x: string, sep: char)
    requires sep !in x
    ensures Split(x, sep) == [x]
  {
    if |x| > 0 {
      SplitNoSep(x[1..], sep);
      assert [x[0]] + x[1..] == x;
    }
  }

  /** Split undoes Join when no piece contains the separator. */
  lemma {:induction false} SplitJoin(xs: seq<string>, sep: char)
    requires |xs| > 0
    requires forall i :: 0 <= i < |xs| ==> sep !in xs[i]
    ensures Split(Join(xs, sep), sep) == xs
  {
    if |xs| == 1 {
      SplitNoSep(xs[0], sep);
    } else {
      SplitJoin(xs[1..], sep);
      SplitPrefix(xs[0], Join(xs[1..], sep), sep);
    }
  }

  // ---------------------------------------------------------------------
  // Lemmas about the segments of a record set
  // ---------------------------------------------------------------------

  lemma AllEncodableConcat(a: seq<Record>, b: seq<Record>)
    ensures AllEncodable(a + b) <==> AllEncodable(a) && AllEncodable(b)
  {
    if AllEncodable(a + b) {
      forall i | 0 <= i < |a| ensures Encodable(a[i]) {
        assert a[i] == (a + b)[i];
      }
      forall i | 0 <= i < |b| ensures Encodable(b[i]) {
        assert b[i] == (a + b)[|a| + i];
      }
    }
    if AllEncodable(a) && AllEncodable(b) {
      forall i | 0 <= i < |a + b| ensures Encodable((a + b)[i]) {
        if i < |a| {
          assert (a + b)[i] == a[i];
        } else {
          assert (a + b)[i] == b[i - |a|];
        }
      }
    }
  }

  /** The segments of a concatenation are the concatenated segments. */
  lemma {:induction false} SegmentsConcat(a: seq<Record>, b: seq<Record>)
    requires AllEncodable(a) && AllEncodable(b)
    ensures AllEncodable(a + b)
    ensures Segments(a + b) == Segments(a) + Segments(b)
    ensures TotalKeys(a + b) == TotalKeys(a) + TotalKeys(b)
  {
    AllEncodableConcat(a, b);
    if |a| == 0 {
      assert a + b == b;
    } else {
      assert (a + b)[1..] == a[1..] + b;
      assert (a + b)[0] == a[0];
      AllEncodableConcat(a[..1], a[1..]);
      assert a[..1] + a[1..] == a;
      SegmentsConcat(a[1..], b);
    }
  }

  /** Segment `TotalKeys(rs[..i]) + j` is key `j` of record `i`, labelled with
      that record's own id. */
  lemma SegmentAt(rs: seq<Record>, i: nat, j: nat)
    requires AllEncodable(rs)
    requires i < |rs| && j < |rs[i]|
    ensures TotalKeys(rs[..i]) + j < |Segments(rs)|
    ensures Segments(rs)[TotalKeys(rs[..i]) + j] == Segment(Id(rs[i]), rs[i][j].0, rs[i][j].1)
  {
    assert rs == rs[..i] + [rs[i]] + rs[i + 1..];
    AllEncodableConcat(rs[..i] + [rs[i]], rs[i + 1..]);
    AllEncodableConcat(rs[..i], [rs[i]]);
    SegmentsConcat(rs[..i], [rs[i]]);
    SegmentsConcat(rs[..i] + [rs[i]], rs[i + 1..]);
    assert Segments([rs[i]]) == RecordSegments(rs[i]);
  }

  /** Every segment index belongs to some (record, key) pair. */
  lemma {:induction false} Locate(rs: seq<Record>, k: nat) returns (i: nat, j: nat)
    requires AllEncodable(rs)
    requires k < TotalKeys(rs)
    ensures i < |rs| && j < |rs[i]|
    ensures k == TotalKeys(rs[..i]) + j
  {
    if k < |rs[0]| {
      i, j := 0, k;
      assert rs[..0] == [];
    } else {
      var i', j' := Locate(rs[1..], k - |rs[0]|);
      i, j := i' + 1, j';
      assert rs[..i] == [rs[0]] + rs[1..][..i'];
      SegmentsConcat([rs[0]], rs[1..][..i']);
    }
  }

  // ---------------------------------------------------------------------
  // Properties of the encoding
  // ---------------------------------------------------------------------

  /** The body is empty exactly when there is no key at all: an empty list,
      or records that all have no keys. */
  lemma EncodeEmptyIff(rs: seq<Record>)
    requires AllEncodable(rs)
    ensures Encode(rs) == "" <==> TotalKeys(rs) == 0
  {
    SegmentsShape(rs);
    JoinNonEmpty(Segments(rs));
  }

  /** A non-empty body starts with a field, never with a separator. */
  lemma EncodeStartsWithField(rs: seq<Record>)
    requires AllEncodable(rs)
    requires TotalKeys(rs) > 0
    ensures "records[" <= Encode(rs)
  {
    var ss := Segments(rs);
    SegmentsShape(rs);
    if |ss| > 1 {
      assert Encode(rs) == ss[0] + ([Separator] + Join(ss[1..], Separator));
    }
  }

  /** No key or value of any record contains the separator. */
  predicate SeparatorFree(rs: seq<Record>) {
    forall i, j :: 0 <= i < |rs| && 0 <= j < |rs[i]| ==> Separator !in rs[i][j].0 && Separator !in rs[i][j].1
  }

  /** When no key or value contains `&`, splitting the body at `&` gives back
      exactly one segment per (record, key) pair, so the number of pieces is
      the total number of keys, and every piece is a whole field: the body
      has no leading, trailing or doubled `&`. */
  lemma EncodeSplit(rs: seq<Record>)
    requires AllEncodable(rs)
    requires SeparatorFree(rs)
    requires TotalKeys(rs) > 0
    ensures Split(Encode(rs), Separator) == Segments(rs)
    ensures |Split(Encode(rs), Separator)| == TotalKeys(rs)
    ensures forall k :: 0 <= k < |Split(Encode(rs), Separator)| ==> "records[" <= Split(Encode(rs), Separator)[k]
  {
    SegmentsSeparatorFree(rs);
    SplitJoin(Segments(rs), Separator);
    SegmentsShape(rs);
  }

  /** Fields built from separator-free keys and values hold no separator. */
  lemma SegmentsSeparatorFree(rs: seq<Record>)
    requires AllEncodable(rs)
    requires SeparatorFree(rs)
    ensures forall k :: 0 <= k < |Segments(rs)| ==> Separator !in Segments(rs)[k]
  {
    var ss := Segments(rs);
    forall k | 0 <= k < |ss| ensures Separator !in ss[k] {
      var i, j := Locate(rs, k);
      SegmentAt(rs, i, j);
      var jid := LookupFound(rs[i], "id");
      SegmentFacts(Id(rs[i]), rs[i][j].0, rs[i][j].1);
    }
  }

  /** Encoding is compositional: the body of a concatenation is the two
      bodies joined by one `&`, provided both have at least one key. */
  lemma EncodeConcat(a: seq<Record>, b: seq<Record>)
    requires AllEncodable(a) && AllEncodable(b)
    requires TotalKeys(a) > 0 && TotalKeys(b) > 0
    ensures AllEncodable(a + b)
    ensures Encode(a + b) == Encode(a) + "&" + Encode(b)
  {
    SegmentsConcat(a, b);
    JoinConcat(Segments(a), Segments(b), Separator);
  }

  /** Records without keys contribute nothing, not even a separator. */
  lemma EncodeConcatKeyless(a: seq<Record>, b: seq<Record>)
    requires AllEncodable(a) && AllEncodable(b)
    requires TotalKeys(a) == 0
    ensures AllEncodable(a + b)
    ensures Encode(a + b) == Encode(b)
  {
    SegmentsConcat(a, b);
    assert Segments(a) == [];
    assert Segments(a) + Segments(b) == Segments(b);
  }
}
