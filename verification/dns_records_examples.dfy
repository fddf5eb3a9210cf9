/** Concrete record sets and the exact bodies they encode to. */
module DnsRecordsExamples {
  import opened Wrappers
  import opened Records
  import opened DnsRecords

  function Record0(): Record { [("id", "0"), ("hostname", "@"), ("type", "A"), ("target", "123.123.123.123")] }
  function Record1(): Record { [("id", "1"), ("hostname", "www"), ("type", "A"), ("target", "123.456.789.10")] }
  function Record2(): Record { [("id", "2"), ("hostname", "mail"), ("type", "A"), ("target", "123.123.234.234")] }
  function Record3(): Record { [("id", "3"), ("hostname", "@"), ("type", "MX"), ("target", "mail.example.de"), ("prio", "10")] }
  function Record4(): Record { [("id", "4"), ("hostname", "example.de"), ("type", "TXT"), ("target", "text")] }
  function Record5(): Record { [("id", "5"), ("hostname", "abc"), ("type", "A"), ("target", "78.78.78.80")] }

  /** The six records of the serialiser's unit test; record 3 carries an extra `prio` key. */
  function SixRecords(): seq<Record> {
    [Record0(), Record1(), Record2(), Record3(), Record4(), Record5()]
  }

  /** The fields of the body the unit test expects, in order; joined by `&`
      they spell the test's expected string. */
  function ExpectedFields(): seq<string> {
    ["records[0][id]=0", "records[0][hostname]=@", "records[0][type]=A", "records[0][target]=123.123.123.123"]
    + ["records[1][id]=1", "records[1][hostname]=www", "records[1][type]=A", "records[1][target]=123.456.789.10"]
    + ["records[2][id]=2", "records[2][hostname]=mail", "records[2][type]=A", "records[2][target]=123.123.234.234"]
    + ["records[3][id]=3", "records[3][hostname]=@", "records[3][type]=MX", "records[3][target]=mail.example.de", "records[3][prio]=10"]
    + ["records[4][id]=4", "records[4][hostname]=example.de", "records[4][type]=TXT", "records[4][target]=text"]
    + ["records[5][id]=5", "records[5][hostname]=abc", "records[5][type]=A", "records[5][target]=78.78.78.80"]
  }

  /** The fields of a record whose first key is `id`, one per key, in order. */
  lemma FieldsOfRecord(r: Record, id: Value, ss: seq<string>)
    requires |r| > 0 && r[0] == ("id", id)
    requires |ss| == |r| && forall j :: 0 <= j < |r| ==> ss[j] == Segment(id, r[j].0, r[j].1)
    ensures Encodable(r) && RecordSegments(r) == ss
  {
    assert Lookup(r, "id") == Some(id);
  }

  lemma Record0Fields()
    ensures Encodable(Record0())
    ensures RecordSegments(Record0()) == ["records[0][id]=0", "records[0][hostname]=@", "records[0][type]=A", "records[0][target]=123.123.123.123"]
  {
    var r := Record0();
    var ss := [Segment("0", "id", "0"), Segment("0", "hostname", "@"), Segment("0", "type", "A"), Segment("0", "target", "123.123.123.123")];
    assert ss[0] == "records[0][id]=0";
    assert ss[1] == "records[0][hostname]=@";
    assert ss[2] == "records[0][type]=A";
    assert ss[3] == "records[0][target]=123.123.123.123";
    FieldsOfRecord(r, "0", ss);
  }

  lemma Record1Fields()
    ensures Encodable(Record1())
    ensures RecordSegments(Record1()) == ["records[1][id]=1", "records[1][hostname]=www", "records[1][type]=A", "records[1][target]=123.456.789.10"]
  {
    var r := Record1();
    var ss := [Segment("1", "id", "1"), Segment("1", "hostname", "www"), Segment("1", "type", "A"), Segment("1", "target", "123.456.789.10")];
    assert ss[0] == "records[1][id]=1";
    assert ss[1] == "records[1][hostname]=www";
    assert ss[2] == "records[1][type]=A";
    assert ss[3] == "records[1][target]=123.456.789.10";
    FieldsOfRecord(r, "1", ss);
  }

  lemma Record2Fields()
    ensures Encodable(Record2())
    ensures RecordSegments(Record2()) == ["records[2][id]=2", "records[2][hostname]=mail", "records[2][type]=A", "records[2][target]=123.123.234.234"]
  {
    var r := Record2();
    var ss := [Segment("2", "id", "2"), Segment("2", "hostname", "mail"), Segment("2", "type", "A"), Segment("2", "target", "123.123.234.234")];
    assert ss[0] == "records[2][id]=2";
    assert ss[1] == "records[2][hostname]=mail";
    assert ss[2] == "records[2][type]=A";
    assert ss[3] == "records[2][target]=123.123.234.234";
    FieldsOfRecord(r, "2", ss);
  }

  lemma Record3Fields()
    ensures Encodable(Record3())
    ensures RecordSegments(Record3()) == ["records[3][id]=3", "records[3][hostname]=@", "records[3][type]=MX", "records[3][target]=mail.example.de", "records[3][prio]=10"]
  {
    var r := Record3();
    var ss := [Segment("3", "id", "3"), Segment("3", "hostname", "@"), Segment("3", "type", "MX"), Segment("3", "target", "mail.example.de"), Segment("3", "prio", "10")];
    assert ss[0] == "records[3][id]=3";
    assert ss[1] == "records[3][hostname]=@";
    assert ss[2] == "records[3][type]=MX";
    assert ss[3] == "records[3][target]=mail.example.de";
    assert ss[4] == "records[3][prio]=10";
    FieldsOfRecord(r, "3", ss);
  }

  lemma Record4Fields()
    ensures Encodable(Record4())
    ensures RecordSegments(Record4()) == ["records[4][id]=4", "records[4][hostname]=example.de", "records[4][type]=TXT", "records[4][target]=text"]
  {
    var r := Record4();
    var ss := [Segment("4", "id", "4"), Segment("4", "hostname", "example.de"), Segment("4", "type", "TXT"), Segment("4", "target", "text")];
    assert ss[0] == "records[4][id]=4";
    assert ss[1] == "records[4][hostname]=example.de";
    assert ss[2] == "records[4][type]=TXT";
    assert ss[3] == "records[4][target]=text";
    FieldsOfRecord(r, "4", ss);
  }

  lemma Record5Fields()
    ensures Encodable(Record5())
    ensures RecordSegments(Record5()) == ["records[5][id]=5", "records[5][hostname]=abc", "records[5][type]=A", "records[5][target]=78.78.78.80"]
  {
    var r := Record5();
    var ss := [Segment("5", "id", "5"), Segment("5", "hostname", "abc"), Segment("5", "type", "A"), Segment("5", "target", "78.78.78.80")];
    assert ss[0] == "records[5][id]=5";
    assert ss[1] == "records[5][hostname]=abc";
    assert ss[2] == "records[5][type]=A";
    assert ss[3] == "records[5][target]=78.78.78.80";
    FieldsOfRecord(r, "5", ss);
  }

  /** The serialiser's unit test: the body is exactly the expected fields in
      order, ids taken from the records, the extra `prio` key of record 3 in
      its place, `@` copied verbatim, all joined by `&`. */
  lemma SixRecordsEncoding()
    ensures AllEncodable(SixRecords())
    ensures Segments(SixRecords()) == ExpectedFields()
    ensures Encode(SixRecords()) == Join(ExpectedFields(), Separator)
  {
    var rs := SixRecords();
    Record0Fields(); Record1Fields(); Record2Fields(); Record3Fields(); Record4Fields(); Record5Fields();
    assert rs[5..][0] == Record5() && rs[5..][1..] == rs[6..];
    assert Segments(rs[5..]) == RecordSegments(Record5());
    assert rs[4..][0] == Record4() && rs[4..][1..] == rs[5..];
    assert Segments(rs[4..]) == RecordSegments(Record4()) + Segments(rs[5..]);
    assert rs[3..][0] == Record3() && rs[3..][1..] == rs[4..];
    assert Segments(rs[3..]) == RecordSegments(Record3()) + Segments(rs[4..]);
    assert rs[2..][0] == Record2() && rs[2..][1..] == rs[3..];
    assert Segments(rs[2..]) == RecordSegments(Record2()) + Segments(rs[3..]);
    assert rs[1..][0] == Record1() && rs[1..][1..] == rs[2..];
    assert Segments(rs[1..]) == RecordSegments(Record1()) + Segments(rs[2..]);
    assert rs[0..][0] == Record0() && rs[0..][1..] == rs[1..];
    assert Segments(rs[0..]) == RecordSegments(Record0()) + Segments(rs[1..]);
    assert rs[0..] == rs;
  }

  /** The id in a field is the record's own `id` value, not its position. */
  lemma IdIsNotPosition()
    ensures AllEncodable([[("type", "A"), ("id", "42")]])
    ensures Segments([[("type", "A"), ("id", "42")]]) == ["records[42][type]=A", "records[42][id]=42"]
  {
    var r: Record := [("type", "A"), ("id", "42")];
    assert Lookup(r, "id") == Some("42");
    var ss := [Segment("42", "type", "A"), Segment("42", "id", "42")];
    assert RecordSegments(r) == ss;
    assert ss[0] == "records[42][type]=A";
    assert ss[1] == "records[42][id]=42";
    assert [r][1..] == [];
    assert Segments([r]) == RecordSegments(r) + Segments([]);
  }

  /** Values are copied verbatim: `@`, a space, `%`, `=` and even `&` reach
      the body unchanged. */
  lemma ValuesAreNotEscaped()
    ensures AllEncodable([[("id", "7"), ("target", "a b&c=%20@")]])
    ensures Segments([[("id", "7"), ("target", "a b&c=%20@")]]) == ["records[7][id]=7", "records[7][target]=a b&c=%20@"]
  {
    var r: Record := [("id", "7"), ("target", "a b&c=%20@")];
    assert Lookup(r, "id") == Some("7");
    var ss := [Segment("7", "id", "7"), Segment("7", "target", "a b&c=%20@")];
    assert RecordSegments(r) == ss;
    assert [r][1..] == [];
    assert Segments([r]) == RecordSegments(r) + Segments([]);
    assert ss[0] == "records[7][id]=7";
    assert ss[1] == "records[7][target]=a b&c=%20@";
  }

  /** Hence a body whose value holds `&` splits into more pieces than it
      has fields: two fields, three pieces. */
  lemma SeparatorInValueSplitsApart()
    ensures AllEncodable([[("id", "7"), ("target", "a b&c=%20@")]])
    ensures TotalKeys([[("id", "7"), ("target", "a b&c=%20@")]]) == 2
    ensures |Split(Encode([[("id", "7"), ("target", "a b&c=%20@")]]), Separator)| == 3
  {
    ValuesAreNotEscaped();
    var rs: seq<Record> := [[("id", "7"), ("target", "a b&c=%20@")]];
    var f0, f1a, f1b := "records[7][id]=7", "records[7][target]=a b", "c=%20@";
    assert Encode(rs) == f0 + [Separator] + (f1a + [Separator] + f1b) by {
      var ss := Segments(rs);
      assert ss[1] == f1a + [Separator] + f1b;
      assert ss[1..] == [ss[1]];
    }
    assert Separator !in f0 && Separator !in f1a && Separator !in f1b;
    SplitThree(f0, f1a, f1b, Separator);
  }

  lemma SplitThree(x: string, y: string, z: string, sep: char)
    requires sep !in x && sep !in y && sep !in z
    ensures Split(x + [sep] + (y + [sep] + z), sep) == [x, y, z]
  {
    SplitPrefix(y, z, sep);
    SplitNoSep(z, sep);
    SplitPrefix(x, y + [sep] + z, sep);
  }
}
