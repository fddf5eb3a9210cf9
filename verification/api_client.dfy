/** The client object as the program has it: mutable fields for the loaded
    record set, and a ghost trace of the posts sent, which exists only for
    the proof. Each method is proved to take exactly the step of the
    functional model in `DnsApi`. */
module ApiClient {
  import opened Wrappers
  import opened Records
  import opened DnsRecords
  import opened DnsApi

  class Api {
    const dnsBaseUrl: string
    const setDnsUrl: string
    var records: Option<seq<Record>>
    ghost var posts: seq<Post>

    /** The object's state as a value of the functional model. */
    ghost function State(): ApiState
      reads this
    {
      ApiState(dnsBaseUrl, setDnsUrl, records, posts)
    }

    constructor(contract: string, domainNumber: string)
      ensures State() == NewApi(contract, domainNumber)
    {
      dnsBaseUrl := DnsBaseUrl(contract, domainNumber);
      setDnsUrl := DnsBaseUrl(contract, domainNumber) + "setdnsrecords/";
      records := None;
      posts := [];
    }

    method FetchRecords(response: FetchResponse) returns (ok: bool)
      modifies this
      ensures (ok, State()) == DnsApi.FetchRecords(old(State()), response)
    {
      if response.status != 200 {
        return false;
      }
      if response.embedded.None? {
        return false;
      }
      records := response.embedded;
      return true;
    }

    method PushRecords() returns (ok: bool)
      requires Pushable(State())
      modifies this
      ensures (ok, State()) == DnsApi.PushRecords(old(State()))
    {
      if records.None? {
        return false;
      }
      var content := ToFormUrlEncoded(records.value);
      posts := posts + [Post(setDnsUrl, content)];
      return true;
    }

    method UpdateAddress(response: FetchResponse, subdomain: string, rrtype: string, newTarget: string) returns (ok: bool)
      requires response.status == 200 && response.embedded.Some? ==> WellFormedRecords(response.embedded.value, HostnameFor(subdomain))
      modifies this
      ensures (ok, State()) == DnsApi.UpdateAddress(old(State()), response, subdomain, rrtype, newTarget)
    {
      var fetched := FetchRecords(response);
      if !fetched {
        return false;
      }
      if records.None? {
        return false;
      }
      var hostname := HostnameFor(subdomain);
      var updated, numUpdated := ApplyUpdate(records.value, hostname, rrtype, newTarget);
      UpdateKeepsEncodable(records.value, hostname, rrtype, newTarget);
      records := Some(updated);
      var pushed := PushRecords();
      return true;
    }
  }
}
