# 1BluDDns record-set handling, modelled in Dafny

1BluDDns is a dynamic-DNS updater for the 1blu hosting panel. It logs in
once at start-up. When the machine's public address differs from the
address the DNS record resolves to, it calls `renew_session_if_needed`
(which, as written, raises because the session class lacks
`is_session_valid` and `renew`) and then `update_address`, which fetches the
domain's DNS record set (JSON embedded in the DNS-management page), rewrites
the `target` of every record with the configured hostname and type, and posts
the whole set back in the panel's own form format,
`records[<id>][<key>]=<value>` pairs joined by `&`.

This project models that record-set handling:

- `records.dfy` (`Records`): a record is a Python dictionary, modelled as an
  association list of `(key, value)` strings in insertion order. `Lookup` is
  `record[k]`. `SetKey` is `record[k] = v`: an existing key keeps its place,
  and a new key is appended.
- `dns_records.dfy` (`DnsRecords`): the serialiser `to_form_url_encoded`.
  `Encode` is its functional definition: the `&`-join of one field per
  (record, key) pair. `ToFormUrlEncoded` is the nested loop as written, and
  it is proved equal to `Encode`.
- `api.dfy` (`DnsApi`): the client `Api` as a value `ApiState`. It holds the
  two URLs, the loaded record set (`Option`), and a trace of every post sent.
  It has the operations `FetchRecords`, `PushRecords` and `UpdateAddress`.
  The update loop is modelled twice: `UpdateRecords` is the functional
  definition, and `ApplyUpdate` is the loop as written, proved equal to it.
- `api_client.dfy` (`ApiClient`): the same client as a mutable class. The
  post trace is a ghost field. Each method is proved to take exactly the
  step of the functional model.
- `dns_records_examples.dfy`, `api_examples.dfy`: the serialiser's unit-test
  record set, and an end-to-end apex update.

HTTP is abstracted. A fetch is answered by a `FetchResponse`. It carries the
status code and the record set found in the page. That record set is `None`
when the embedded-data regular expression does not match. Otherwise it is
the decoded array. A post is recorded as `Post(url, body)` in the state's
trace. The panel's answer to a post is never read by `push_records`, so it is
not an input.

All values are strings: ids such as `0` are kept as their decimal text, as
Python's f-string renders them.

Two behaviours of the program are kept as written:

- `update_address` returns true even when the push fails: the failure is
  only logged (`app/api.py:95-98`). `DnsApi.UpdateAddress` keeps this.
- Records match by plain string comparison with `!=` on `hostname` and
  `type` (`app/api.py:85`, `app/api.py:87`), that is, by equality.

## Model

| member | source | states |
|---|---|---|
| `Records.Lookup` | app/api.py:85-87 | `record[k]` yields a value exactly when the key is present |
| `Records.SetKey` | app/api.py:90-91 | assigning an existing key keeps the key order and length; assigning a new key appends exactly that pair at the end |
| `Records.SetKeyLookup` | app/api.py:90-91 | after `record[k] = v`, key `k` reads `v` and every other key reads what it read before |
| `Records.SetKeyDistinct` | app/api.py:90-91 | assigning a key to a dictionary keeps its keys distinct |
| `DnsRecords.ToFormUrlEncoded` | app/dns_records.py:14-22 | the nested loop that inserts `&` whenever the output is non-empty produces exactly the `&`-join of one field per (record, key) pair, in record order and key order |
| `DnsRecords.AppendRecord` | app/dns_records.py:18-21 | the inner loop over one record's keys appends that record's fields to the join built so far |
| `DnsRecords.EncodeEmptyIff` | app/dns_records.py:16-22 | the body is empty if and only if there are no keys at all (an empty list, or records with no keys) |
| `DnsRecords.EncodeStartsWithField` | app/dns_records.py:19-21 | a non-empty body begins with a field, never with `&` |
| `DnsRecords.SegmentAt` | app/dns_records.py:17-21 | field number `keys(records before i) + j` is `records[<id of record i>][<key j>]=<value j>`: ids come from the record's own `id`, not its position; fields follow record order, then key order |
| `DnsRecords.SegmentsShape` | app/dns_records.py:21 | every field starts with `records[` |
| `DnsRecords.EncodeSplit` | app/dns_records.py:17-21 | when no key or value contains `&`, splitting the body at `&` gives back exactly the fields. The piece count is the total number of keys. No piece is empty, so there is no leading, trailing or doubled `&` |
| `DnsRecords.EncodeConcat` | app/dns_records.py:16-22 | if both record lists have a key, the body of `a + b` is the body of `a`, then `&`, then the body of `b` |
| `DnsRecords.EncodeConcatKeyless` | app/dns_records.py:19-20 | records without keys contribute nothing to the body, not even a separator |
| `DnsRecords.SegmentsConcat` | app/dns_records.py:17 | the fields of a concatenation are the fields of each part, in order |
| `DnsRecords.JoinConcat` | app/dns_records.py:19-20 | joining two non-empty field lists puts exactly one `&` between their joins |
| `DnsRecords.SplitJoin` | app/dns_records.py:19-21 | splitting at `&` undoes joining by `&` when no piece contains `&` |
| `DnsRecordsExamples.SixRecordsEncoding` | tests/test_dns_records.py:37-54 | the unit test's six records encode to the `&`-join of exactly the test's 25 expected fields, including `prio` on record 3 and the unescaped `@` |
| `DnsRecordsExamples.IdIsNotPosition` | app/dns_records.py:21 | a record at position 0 with id `42` yields `records[42][...]` fields, in the record's own key order |
| `DnsRecordsExamples.ValuesAreNotEscaped` | app/dns_records.py:21 | `@`, space, `%`, `=` and `&` in a value reach the field unchanged |
| `DnsRecordsExamples.SeparatorInValueSplitsApart` | app/dns_records.py:21 | because nothing is escaped, a value containing `&` splits its body into more pieces (3) than it has fields (2) |
| `DnsApi.NewApi` | app/api.py:17-20 | a new client has no records loaded and has sent nothing; its set-records URL is the DNS page URL plus `setdnsrecords/` |
| `DnsApi.FetchRecords` | app/api.py:24-42 | a fetch succeeds if and only if the status is 200 and the record set is found in the page; success loads exactly that set; a failure leaves the client unchanged; a fetch never posts |
| `DnsApi.PushRecords` | app/api.py:45-62 | a push succeeds if and only if records are loaded; without records nothing is sent; with records, exactly one post of `Encode(records)` goes to the set-records URL, and success does not depend on the panel's answer |
| `DnsApi.HostnameFor` | app/api.py:81 | an empty subdomain becomes `@`; any other subdomain is used unchanged; the result is never empty |
| `DnsApi.UpdateRecords` | app/api.py:83-92 | the list keeps its length and order; record `i` is modified when both its hostname and type match, and is unchanged otherwise |
| `DnsApi.ApplyUpdate` | app/api.py:83-93 | the loop with its two `continue` checks computes exactly `UpdateRecords`; its counter `num_updated` is exactly the number of matching records |
| `DnsApi.ModifyReadsBack` | app/api.py:90-91 | a modified record reads the new `target` and `modified = "1"` |
| `DnsApi.ModifyKeepsKey` | app/api.py:90-91 | every key other than `target` and `modified`, including `id`, `hostname` and `type`, reads the same after the modification |
| `DnsApi.ModifyKeys` | app/api.py:90-91 | existing keys keep their places; a missing `target`, then a missing `modified`, is appended last, as dictionary assignment does |
| `DnsApi.ModifyKeepsDistinct` | app/api.py:90-91 | a record with distinct keys still has distinct keys after the modification |
| `DnsApi.UpdateRecordsEffect` | app/api.py:84-91 | after the update, a matching record carries the new target and `modified = "1"`; a non-matching record (hostname only, type only, or neither) is identical to before; no record's `id`, `hostname` or `type` changes |
| `DnsApi.UpdateKeepsEncodable` | app/api.py:90-91 | updating never removes an id, so the updated set can still be serialised |
| `DnsApi.CountMatchesZero` | app/api.py:83-93 | no records are updated if and only if no record matches, and then the record set is unchanged |
| `DnsApi.CountMatchesBound` | app/api.py:83-93 | the number updated is at most the number of records; it equals that number if and only if every record matches |
| `DnsApi.UpdateAddress` | app/api.py:71-98 | the result is false if and only if the fetch fails, and then nothing is sent and nothing changes. After a successful fetch, the loaded set is the updated fetched set and exactly one post of its encoding is sent, even with zero matches. The result is then true |
| `DnsApiExamples.UpdatedRecordsExample` | app/api.py:81-92 | with an empty subdomain and type `A`, only the `@`/`A` record is modified, and the `www` record is kept |
| `DnsApiExamples.UpdateApexExample` | app/api.py:71-98 | updating the apex `A` record to `2.2.2.2` succeeds. It posts once, to the client's set-records URL, with a nine-field body in which `modified=1` follows `target` on record 0 and record 1 is unchanged |
| `DnsApiExamples.FailedFetchIgnoresPage` | app/api.py:29-31 | a page answered with status 500 is not read, even when it embeds a record without `id` or `hostname`: the update returns false, sends nothing and leaves the client as it was |
| `ApiClient.Api.constructor` | app/api.py:16-20 | a new client holds the two URLs built from the contract and domain number, no records, and an empty post trace, exactly as `NewApi` |
| `ApiClient.Api.FetchRecords` | app/api.py:24-42 | the method's result and the client's new state are exactly the step `DnsApi.FetchRecords` takes from the old state |
| `ApiClient.Api.PushRecords` | app/api.py:45-62 | the method's result and the client's new state, post trace included, are exactly the step `DnsApi.PushRecords` takes from the old state; the body is built by the loop `ToFormUrlEncoded` |
| `ApiClient.Api.UpdateAddress` | app/api.py:71-98 | the method's result and the client's new state are exactly the step `DnsApi.UpdateAddress` takes; the records are rewritten by the loop `ApplyUpdate` |

## Left out

- Logging in, the session and its CSRF and one-time-password handling
  (`app/session.py`) are left out. They are HTTP, HTML scraping and TOTP
  library calls. The client only uses the session's `get` and `post`, and
  both are abstracted here.
- `renew_session_if_needed` is left out. It calls session methods that
  `app/session.py` does not define.
- `app/main.py` is left out. It covers environment variables, public-IP
  lookup, DNS resolution and the polling loop. All of it is start-up code and
  I/O.
- `from_json` is left out. It is a plain `json.loads` call. The fetch
  response therefore carries the already decoded record set. Beyond what
  `json.loads` itself rejects, the program validates nothing.
- `DnsApi.FetchRecords`: a decode error from `json.loads`
  (`app/dns_records.py:9`) is not modelled. The lazy pattern at
  `app/api.py:33` stops at the first `]` outside quotes, so a record holding
  a list is captured as truncated, invalid JSON. A transport exception from
  `session.get` (`app/api.py:27`) is not modelled either. Either exception
  propagates out of `update_address` uncaught, with the records untouched.
  In the model, `embedded` is always a decoded array or `None`.
- `DnsApi.PushRecords`: a transport exception from `session.post`
  (`app/api.py:59`) is not modelled. It propagates out of `update_address`
  uncaught, after the records were already rewritten in memory. The model's
  push always records its post.
- The embedded-data regular expression (`app/api.py:33`) is left out. Its
  outcome is the `embedded` field of `FetchResponse`.
- The `Content-Length` and `User-Agent` headers of the post are left out. The
  trace records only the URL and the body.
- Logging is left out.
- `DnsRecords.Encode`: a record that has keys but no `id`, such as
  `record['id']` at `app/dns_records.py:21`, raises `KeyError` in
  `to_form_url_encoded`.
  The model makes "every record with a key has an id" a precondition
  (`AllEncodable`) instead of modelling the exception.
- `DnsApi.UpdateRecords`: a record without `hostname`, or a record whose
  hostname matches but that has no `type`, raises `KeyError` at
  `app/api.py:85` or `app/api.py:87`. The model makes this a precondition
  (`Comparable`) instead of modelling the exception.
- `DnsApi.UpdateAddress`: the checks at `app/api.py:77-79` (records still
  `None` after a successful fetch) and `app/api.py:95-96` (push refused) are
  modelled, but neither branch can be taken. A successful fetch always loads
  a record set. Its precondition asks for well-formed records (`id`,
  `hostname` and, on a hostname match, `type` present) only when the fetch
  succeeds, that is, status 200 with the data found; a failed fetch never
  reads the page.
- `DnsRecordsExamples.SixRecordsEncoding`: the expected body is stated as the
  `&`-join of the test's 25 fields, not as one 586-character literal. The two
  are the same string.
