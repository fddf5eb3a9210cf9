/** The DNS client: it fetches the record set of one domain from the panel,
    rewrites the records of one hostname and type, and posts the whole set
    back. HTTP is abstracted: a fetch is answered by a status code and the
    record set found in the page (if any), and a post is logged in a trace. */
module DnsApi {
  import opened Wrappers
  import opened Records
  import opened DnsRecords

  const UrlBase: string := "https://ksb.1blu.de"

  /** The DNS-management page of one domain of one contract. */
  function DnsBaseUrl(contract: string, domainNumber: string): string {
    UrlBase + "/" + contract + "/domain/" + domainNumber + "/dns/"
  }

  /** A form post the client sent to the panel. */
  datatype Post = Post(url: string, body: string)

  /** The answer to the GET of the DNS-management page: its status code, and
      the record set found by searching the page for the embedded
      `"dataSource":{"data":[...]}` array and decoding it (None when the
      search finds nothing). */
  datatype FetchResponse = FetchResponse(status: int, embedded: Option<seq<Record>>)

  /** The client: its two URLs, the record set loaded by the last successful
      fetch (if any), and every post it has sent so far. */
  datatype ApiState = ApiState(dnsBaseUrl: string, setDnsUrl: string, records: Option<seq<Record>>, posts: seq<Post>)

  /** A fresh client for a contract and domain: nothing loaded, nothing sent. */
  function NewApi(contract: string, domainNumber: string): (a: ApiState)
    ensures a.records.None? && a.posts == []
    ensures a.dnsBaseUrl == UrlBase + "/" + contract + "/domain/" + domainNumber + "/dns/"
    ensures a.setDnsUrl == a.dnsBaseUrl + "setdnsrecords/"
  {
    var base := DnsBaseUrl(contract, domainNumber);
    ApiState(base, base + "setdnsrecords/", None, [])
  }

  /** Loaded records can be serialised (every record with a key has an id). */
  predicate Pushable(a: ApiState) {
    a.records.Some? ==> AllEncodable(a.records.value)
  }

  /** Fetching: only a 200 answer in which the record set is found replaces
      the loaded records; any failure leaves the client as it was. */
  function FetchRecords(a: ApiState, response: FetchResponse): (result: (bool, ApiState))
    ensures result.0 <==> response.status == 200 && response.embedded.Some?
    ensures result.0 ==> result.1 == a.(records := response.embedded)
    ensures !result.0 ==> result.1 == a
    ensures result.1.posts == a.posts
  {
    if response.status != 200 then (false, a)
    else match response.embedded
      case None => (false, a)
      case Some(_) => (true, a.(records := response.embedded))
  }

  /** Pushing: refused, with nothing sent, when no records are loaded;
      otherwise exactly one post of the encoded records to the set-records
      URL, reported as success whatever the panel answers. */
  function PushRecords(a: ApiState): (result: (bool, ApiState))
    requires Pushable(a)
    ensures result.0 <==> a.records.Some?
    ensures !result.0 ==> result.1 == a
    ensures result.0 ==> result.1 == a.(posts := a.posts + [Post(a.setDnsUrl, Encode(a.records.value))])
  {
    match a.records
    case None => (false, a)
    case Some(rs) => (true, a.(posts := a.posts + [Post(a.setDnsUrl, Encode(rs))]))
  }

  /** The hostname to match: an empty subdomain means the zone apex `@`. */
  function HostnameFor(subdomain: string): (hostname: string)
    ensures hostname != ""
    ensures subdomain == "" ==> hostname == "@"
    ensures subdomain != "" ==> hostname == subdomain
  {
    if subdomain != "" then subdomain else "@"
  }

  /** A record is rewritten when both its hostname and its type are the requested ones. */
  predicate Matches(r: Record, hostname: string, rrtype: string) {
    Lookup(r, "hostname") == Some(hostname) && Lookup(r, "type") == Some(rrtype)
  }

  /** The update loop reads `record["hostname"]` of every record and
      `record["type"]` of those whose hostname matched; a missing key raises
      there, so every record must answer those reads. */
  predicate Comparable(r: Record, hostname: string) {
    HasKey(r, "hostname") && (Lookup(r, "hostname") == Some(hostname) ==> HasKey(r, "type"))
  }

  /** What the update loop can run over: records that answer its reads. */
  predicate Updatable(rs: seq<Record>, hostname: string) {
    forall i :: 0 <= i < |rs| ==> Comparable(rs[i], hostname)
  }

  /** `record["target"] = new_target; record["modified"] = "1"`. */
  function Modify(r: Record, newTarget: string): Record {
    SetKey(SetKey(r, "target", newTarget), "modified", "1")
  }

  /** One record after the update loop: modified if it matches, else as it was. */
  function UpdateOne(r: Record, hostname: string, rrtype: string, newTarget: string): Record {
    if Matches(r, hostname, rrtype) then Modify(r, newTarget) else r
  }

  /** The record set after the update loop: matching records are modified,
      every other record is kept as it was, and the list keeps its length
      and order. */
  function UpdateRecords(rs: seq<Record>, hostname: string, rrtype: string, newTarget: string): (rs': seq<Record>)
    requires Updatable(rs, hostname)
    ensures |rs'| == |rs|
    ensures forall i :: 0 <= i < |rs| ==> rs'[i] == UpdateOne(rs[i], hostname, rrtype, newTarget)
  {
    if |rs| == 0 then []
    else [UpdateOne(rs[0], hostname, rrtype, newTarget)] + UpdateRecords(rs[1..], hostname, rrtype, newTarget)
  }

  /** How many records match, counted in list order. */
  function CountMatches(rs: seq<Record>, hostname: string, rrtype: string): nat {
    if |rs| == 0 then 0
    else (if Matches(rs[0], hostname, rrtype) then 1 else 0) + CountMatches(rs[1..], hostname, rrtype)
  }

  /** The update loop as written: skip a record whose hostname differs, skip
      one whose type differs, otherwise set its target and mark it modified,
      counting the records updated. */
  method ApplyUpdate(records: seq<Record>, hostname: string, rrtype: string, newTarget: string)
    returns (updated: seq<Record>, numUpdated: nat)
    requires Updatable(records, hostname)
    ensures updated == UpdateRecords(records, hostname, rrtype, newTarget)
    ensures numUpdated == CountMatches(records, hostname, rrtype)
  {
    updated := records;
    numUpdated := 0;
    var i := 0;
    while i < |records|
      invariant 0 <= i <= |records|
      invariant Updatable(records[..i], hostname)
      invariant updated == UpdateRecords(records[..i], hostname, rrtype, newTarget) + records[i..]
      invariant numUpdated == CountMatches(records[..i], hostname, rrtype)
    {
      var record := records[i];
      UpdateStep(records, i, hostname, rrtype, newTarget);
      if Lookup(record, "hostname") != Some(hostname) {
        i := i + 1;
        continue;
      }
      if Lookup(record, "type") != Some(rrtype) {
        i := i + 1;
        continue;
      }
      record := SetKey(record, "target", newTarget);
      record := SetKey(record, "modified", "1");
      updated := updated[i := record];
      numUpdated := numUpdated + 1;
      i := i + 1;
    }
    assert records[..i] == records;
  }

  /** One iteration of the update loop, in terms of the prefix already done. */
  lemma UpdateStep(records: seq<Record>, i: nat, hostname: string, rrtype: string, newTarget: string)
    requires Updatable(records, hostname)
    requires i < |records|
    ensures Updatable(records[..i], hostname) && Updatable(records[..i + 1], hostname)
    ensures var r := records[i];
      && UpdateRecords(records[..i + 1], hostname, rrtype, newTarget) + records[i + 1..]
         == (UpdateRecords(records[..i], hostname, rrtype, newTarget) + records[i..])[i := UpdateOne(r, hostname, rrtype, newTarget)]
      && CountMatches(records[..i + 1], hostname, rrtype) == CountMatches(records[..i], hostname, rrtype) + (if Matches(r, hostname, rrtype) then 1 else 0)
  {
    var r := records[i];
    assert Updatable(records[..i], hostname) by {
      forall j | 0 <= j < i ensures Comparable(records[..i][j], hostname) {
        assert records[..i][j] == records[j];
      }
    }
    assert records[..i + 1] == records[..i] + [r];
    UpdateRecordsSnoc(records[..i], r, hostname, rrtype, newTarget);
    var done := UpdateRecords(records[..i], hostname, rrtype, newTarget);
    var x := UpdateOne(r, hostname, rrtype, newTarget);
    assert records[i..] == [r] + records[i + 1..];
    assert (done + records[i..])[i := x] == done + [x] + records[i + 1..];
  }

  /** The update step over a record set with one more record appended. */
  lemma {:induction false} UpdateRecordsSnoc(rs: seq<Record>, r: Record, hostname: string, rrtype: string, newTarget: string)
    requires Updatable(rs, hostname) && Comparable(r, hostname)
    ensures Updatable(rs + [r], hostname)
    ensures UpdateRecords(rs + [r], hostname, rrtype, newTarget)
         == UpdateRecords(rs, hostname, rrtype, newTarget) + [UpdateOne(r, hostname, rrtype, newTarget)]
    ensures CountMatches(rs + [r], hostname, rrtype) == CountMatches(rs, hostname, rrtype) + (if Matches(r, hostname, rrtype) then 1 else 0)
  {
    if |rs| > 0 {
      assert (rs + [r])[1..] == rs[1..] + [r];
      UpdateRecordsSnoc(rs[1..], r, hostname, rrtype, newTarget);
    } else {
      assert rs + [r] == [r];
    }
  }

  /** Fetched records the rest of an update can work with: the update loop
      can read them and the serialiser can encode them. */
  predicate WellFormedRecords(rs: seq<Record>, hostname: string) {
    AllEncodable(rs) && Updatable(rs, hostname)
  }

  /** `update_address`: fetch, rewrite the matching records, push.
      A failed fetch is the only way to get `false`, and then nothing is
      sent and nothing changes; after a successful fetch exactly one post is
      sent, even when no record matched, and the result is `true` whatever
      the push reports. */
  function UpdateAddress(a: ApiState, response: FetchResponse, subdomain: string, rrtype: string, newTarget: string)
    : (result: (bool, ApiState))
    requires response.status == 200 && response.embedded.Some? ==> WellFormedRecords(response.embedded.value, HostnameFor(subdomain))
    ensures result.0 <==> response.status == 200 && response.embedded.Some?
    ensures !result.0 ==> result.1 == a
    ensures result.0 ==> result.1.records == Some(UpdateRecords(response.embedded.value, HostnameFor(subdomain), rrtype, newTarget))
    ensures result.0 ==> && AllEncodable(result.1.records.value)
                         && result.1.posts == a.posts + [Post(a.setDnsUrl, Encode(result.1.records.value))]
    ensures result.1.dnsBaseUrl == a.dnsBaseUrl && result.1.setDnsUrl == a.setDnsUrl
  {
    var fetch := FetchRecords(a, response);
    if !fetch.0 then (false, fetch.1)
    else match fetch.1.records
      // unreachable: a successful fetch always loads a record set
      case None => (false, fetch.1)
      case Some(rs) =>
        var hostname := HostnameFor(subdomain);
        var updated := UpdateRecords(rs, hostname, rrtype, newTarget);
        UpdateKeepsEncodable(rs, hostname, rrtype, newTarget);
        var push := PushRecords(fetch.1.(records := Some(updated)));
        (true, push.1)
  }

  // ---------------------------------------------------------------------
  // Properties of the update
  // ---------------------------------------------------------------------

  /** Modifying a record keeps the existing keys in their places and appends
      a missing `target`, then a missing `modified`, at the end. */
  lemma ModifyKeys(r: Record, newTarget: string)
    ensures Keys(Modify(r, newTarget))
         == Keys(r) + (if HasKey(r, "target") then [] else ["target"]) + (if HasKey(r, "modified") then [] else ["modified"])
  {
    var r1 := SetKey(r, "target", newTarget);
    SetKeyLookup(r, "target", newTarget, "modified");
    assert HasKey(r1, "modified") <==> HasKey(r, "modified");
    if !HasKey(r, "target") {
      KeysSnoc(r, ("target", newTarget));
    }
    if !HasKey(r1, "modified") {
      KeysSnoc(r1, ("modified", "1"));
    }
  }

  /** Modifying a record with distinct keys leaves its keys distinct. */
  lemma ModifyKeepsDistinct(r: Record, newTarget: string)
    requires DistinctKeys(r)
    ensures DistinctKeys(Modify(r, newTarget))
  {
    SetKeyDistinct(r, "target", newTarget);
    SetKeyDistinct(SetKey(r, "target", newTarget), "modified", "1");
  }

  /** A modified record reads back the new target and the modified mark. */
  lemma ModifyReadsBack(r: Record, newTarget: string)
    ensures Lookup(Modify(r, newTarget), "target") == Some(newTarget)
    ensures Lookup(Modify(r, newTarget), "modified") == Some("1")
  {
    var r1 := SetKey(r, "target", newTarget);
    SetKeyLookup(r1, "modified", "1", "modified");
    SetKeyLookup(r1, "modified", "1", "target");
    SetKeyLookup(r, "target", newTarget, "target");
  }

  /** Modifying a record leaves every key other than `target` and `modified` alone. */
  lemma ModifyKeepsKey(r: Record, newTarget: string, k: Key)
    requires k != "target" && k != "modified"
    ensures Lookup(Modify(r, newTarget), k) == Lookup(r, k)
  {
    SetKeyLookup(SetKey(r, "target", newTarget), "modified", "1", k);
    SetKeyLookup(r, "target", newTarget, k);
  }

  /** After the update, record `i` carries the new target and the
      modified mark exactly when it matched, an unmatched record is
      unchanged, and no record's `id`, `hostname` or `type` changes. */
  lemma UpdateRecordsEffect(rs: seq<Record>, hostname: string, rrtype: string, newTarget: string, i: nat)
    requires Updatable(rs, hostname)
    requires i < |rs|
    ensures var r' := UpdateRecords(rs, hostname, rrtype, newTarget)[i];
      && (Matches(rs[i], hostname, rrtype) ==> Lookup(r', "target") == Some(newTarget) && Lookup(r', "modified") == Some("1"))
      && (!Matches(rs[i], hostname, rrtype) ==> r' == rs[i])
      && Lookup(r', "id") == Lookup(rs[i], "id")
      && Lookup(r', "hostname") == Lookup(rs[i], "hostname")
      && Lookup(r', "type") == Lookup(rs[i], "type")
  {
    var r := rs[i];
    assert UpdateRecords(rs, hostname, rrtype, newTarget)[i] == UpdateOne(r, hostname, rrtype, newTarget);
    if Matches(r, hostname, rrtype) {
      ModifyReadsBack(r, newTarget);
      ModifyKeepsKey(r, newTarget, "id");
      ModifyKeepsKey(r, newTarget, "hostname");
      ModifyKeepsKey(r, newTarget, "type");
    }
  }

  /** Updating keeps every record encodable (ids are never touched). */
  lemma UpdateKeepsEncodable(rs: seq<Record>, hostname: string, rrtype: string, newTarget: string)
    requires WellFormedRecords(rs, hostname)
    ensures AllEncodable(UpdateRecords(rs, hostname, rrtype, newTarget))
  {
    var rs' := UpdateRecords(rs, hostname, rrtype, newTarget);
    forall i | 0 <= i < |rs'| ensures Encodable(rs'[i]) {
      assert Encodable(rs[i]) && Comparable(rs[i], hostname);
      if Matches(rs[i], hostname, rrtype) {
        ModifyKeepsKey(rs[i], newTarget, "id");
        assert HasKey(rs[i], "id");
      }
    }
  }

  /** The count of updated records is zero exactly when no record matches,
      in which case the record set comes back unchanged. */
  lemma {:induction false} CountMatchesZero(rs: seq<Record>, hostname: string, rrtype: string, newTarget: string)
    requires Updatable(rs, hostname)
    ensures CountMatches(rs, hostname, rrtype) == 0 <==> forall i :: 0 <= i < |rs| ==> !Matches(rs[i], hostname, rrtype)
    ensures CountMatches(rs, hostname, rrtype) == 0 ==> UpdateRecords(rs, hostname, rrtype, newTarget) == rs
  {
    if |rs| > 0 {
      assert Updatable(rs[1..], hostname) by {
        forall j | 0 <= j < |rs[1..]| ensures Comparable(rs[1..][j], hostname) {
          assert rs[1..][j] == rs[j + 1];
        }
      }
      CountMatchesZero(rs[1..], hostname, rrtype, newTarget);
      if forall i :: 0 <= i < |rs| ==> !Matches(rs[i], hostname, rrtype) {
        forall j | 0 <= j < |rs[1..]| ensures !Matches(rs[1..][j], hostname, rrtype) {
          assert rs[1..][j] == rs[j + 1];
        }
      }
      if CountMatches(rs, hostname, rrtype) == 0 {
        forall i | 0 <= i < |rs| ensures !Matches(rs[i], hostname, rrtype) {
          if i > 0 {
            assert rs[i] == rs[1..][i - 1];
          }
        }
      }
    }
  }

  /** No more records are updated than there are. */
  lemma {:induction false} CountMatchesBound(rs: seq<Record>, hostname: string, rrtype: string)
    ensures CountMatches(rs, hostname, rrtype) <= |rs|
    ensures CountMatches(rs, hostname, rrtype) == |rs| <==> forall i :: 0 <= i < |rs| ==> Matches(rs[i], hostname, rrtype)
  {
    if |rs| > 0 {
      CountMatchesBound(rs[1..], hostname, rrtype);
      if forall i :: 0 <= i < |rs| ==> Matches(rs[i], hostname, rrtype) {
        forall j | 0 <= j < |rs[1..]| ensures Matches(rs[1..][j], hostname, rrtype) {
          assert rs[1..][j] == rs[j + 1];
        }
      }
      if CountMatches(rs, hostname, rrtype) == |rs| {
        forall i | 0 <= i < |rs| ensures Matches(rs[i], hostname, rrtype) {
          if i > 0 {
            assert rs[i] == rs[1..][i - 1];
          }
        }
      }
    }
  }
}
