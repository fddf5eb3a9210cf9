/** A concrete run of the update: the apex A record is rewritten, the `www`
    record is left alone, and one post carries the whole set. */
module DnsApiExamples {
  import opened Wrappers
  import opened Records
  import opened DnsRecords
  import opened DnsApi

  function Apex(): Record {
    [("id", "0"), ("hostname", "@"), ("type", "A"), ("target", "1.1.1.1")]
  }

  function Www(): Record {
    [("id", "1"), ("hostname", "www"), ("type", "A"), ("target", "1.1.1.1")]
  }

  /** The apex record after the update: new target, and `modified` appended last. */
  function ApexUpdated(): Record {
    [("id", "0"), ("hostname", "@"), ("type", "A"), ("target", "2.2.2.2"), ("modified", "1")]
  }

  lemma ApexIsModified()
    ensures Matches(Apex(), "@", "A")
    ensures Modify(Apex(), "2.2.2.2") == ApexUpdated()
  {
    var r := Apex();
    assert HasKey(r, "target");
    assert SetKey(r, "target", "2.2.2.2") == [("id", "0"), ("hostname", "@"), ("type", "A"), ("target", "2.2.2.2")];
  }

  lemma WwwIsNotModified()
    ensures Comparable(Www(), "@")
    ensures !Matches(Www(), "@", "A")
  {
    assert Lookup(Www(), "hostname") == Some("www");
  }

  lemma ApexUpdatedFields()
    ensures Encodable(ApexUpdated())
    ensures RecordSegments(ApexUpdated())
         == ["records[0][id]=0", "records[0][hostname]=@", "records[0][type]=A", "records[0][target]=2.2.2.2", "records[0][modified]=1"]
  {
    var r := ApexUpdated();
    assert Id(r) == "0";
    var ss := [Segment("0", "id", "0"), Segment("0", "hostname", "@"), Segment("0", "type", "A"),
               Segment("0", "target", "2.2.2.2"), Segment("0", "modified", "1")];
    assert RecordSegments(r) == ss;
    assert ss[0] == "records[0][id]=0";
    assert ss[1] == "records[0][hostname]=@";
    assert ss[2] == "records[0][type]=A";
    assert ss[3] == "records[0][target]=2.2.2.2";
    assert ss[4] == "records[0][modified]=1";
  }

  lemma WwwFields()
    ensures Encodable(Www())
    ensures RecordSegments(Www())
         == ["records[1][id]=1", "records[1][hostname]=www", "records[1][type]=A", "records[1][target]=1.1.1.1"]
  {
    var r := Www();
    assert Id(r) == "1";
    var ss := [Segment("1", "id", "1"), Segment("1", "hostname", "www"), Segment("1", "type", "A"),
               Segment("1", "target", "1.1.1.1")];
    assert RecordSegments(r) == ss;
    assert ss[0] == "records[1][id]=1";
    assert ss[1] == "records[1][hostname]=www";
    assert ss[2] == "records[1][type]=A";
    assert ss[3] == "records[1][target]=1.1.1.1";
  }

  /** Only the apex A record matches `@`/`A`; the list keeps its order. */
  lemma UpdatedRecordsExample()
    ensures WellFormedRecords([Apex(), Www()], HostnameFor(""))
    ensures UpdateRecords([Apex(), Www()], HostnameFor(""), "A", "2.2.2.2") == [ApexUpdated(), Www()]
  {
    ApexIsModified();
    WwwIsNotModified();
    assert HostnameFor("") == "@";
    assert Encodable(Apex()) by { assert HasKey(Apex(), "id"); }
    assert Encodable(Www()) by { assert HasKey(Www(), "id"); }
    assert Comparable(Apex(), "@") by { assert HasKey(Apex(), "hostname") && HasKey(Apex(), "type"); }
    var rs := [Apex(), Www()];
    assert WellFormedRecords(rs, "@");
    var u := UpdateRecords(rs, "@", "A", "2.2.2.2");
    assert u[0] == UpdateOne(Apex(), "@", "A", "2.2.2.2") == ApexUpdated();
    assert u[1] == UpdateOne(Www(), "@", "A", "2.2.2.2") == Www();
    assert u == [ApexUpdated(), Www()];
  }

  lemma UpdatedBodyExample()
    ensures AllEncodable([ApexUpdated(), Www()])
    ensures Encode([ApexUpdated(), Www()]) == Join(ExpectedBodyFields(), Separator)
  {
    var rs := [ApexUpdated(), Www()];
    ApexUpdatedFields();
    WwwFields();
    assert rs[1..] == [Www()];
    assert Segments(rs) == RecordSegments(ApexUpdated()) + RecordSegments(Www());
  }

  function ExpectedBodyFields(): seq<string> {
    ["records[0][id]=0", "records[0][hostname]=@", "records[0][type]=A", "records[0][target]=2.2.2.2", "records[0][modified]=1"]
    + ["records[1][id]=1", "records[1][hostname]=www", "records[1][type]=A", "records[1][target]=1.1.1.1"]
  }

  /** Updating the apex (empty subdomain) A record to 2.2.2.2: the call
      succeeds, only record 0 changes, and exactly one post is sent, to the
      set-records URL of the client, with a body that is the expected nine
      fields joined by `&`. */
  lemma UpdateApexExample()
    ensures var a := NewApi("12345", "678");
            var result := UpdateAddress(a, FetchResponse(200, Some([Apex(), Www()])), "", "A", "2.2.2.2");
            && result.0
            && result.1.records == Some([ApexUpdated(), Www()])
            && result.1.posts == [Post(DnsBaseUrl("12345", "678") + "setdnsrecords/", Join(ExpectedBodyFields(), Separator))]
  {
    UpdatedRecordsExample();
    UpdatedBodyExample();
  }

  /** A page answered with an error status is never read: even when it
      embeds a record without `id` or `hostname`, the update fails and the
      client is left as it was, with nothing sent. */
  lemma FailedFetchIgnoresPage()
    ensures var a := NewApi("1", "2");
            UpdateAddress(a, FetchResponse(500, Some([[("x", "y")]])), "", "A", "t") == (false, a)
  {
  }
}
