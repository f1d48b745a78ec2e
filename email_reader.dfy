/**
 * The IMAP email reader's pure parts: the provider guessed from the
 * address, the server settings for a provider, and the "most recent N"
 * selection that `search_emails` applies before fetching each message.
 * The IMAP connection and message parsing are outside the model; fetching
 * a message is a function parameter.
 */
module EmailReader {
  import opened Wrappers
  import opened Text

  /** `email_address.split('@')[1]` on an address without `@`. */
  datatype Failure = NoAtSign

  /** `_detect_provider`: a provider other than "auto" is kept; otherwise it is guessed from the lower-cased domain. */
  function DetectProvider(provider: string, address: string): (r: Result<string, Failure>)
    ensures provider != "auto" ==> r == Ok(provider)
    ensures provider == "auto" && IndexOf(address, '@') < 0 ==> r == Err(NoAtSign)
    ensures provider == "auto" && IndexOf(address, '@') >= 0 ==> r == Ok(Classify(Domain(address)))
  {
    if provider != "auto" then Ok(provider)
    else if IndexOf(address, '@') < 0 then Err(NoAtSign)
    else Ok(Classify(Domain(address)))
  }

  /** The second piece of the address split on `@`, lower-cased. */
  function Domain(address: string): string
    requires IndexOf(address, '@') >= 0
  {
    SplitHasSecond(address, '@');
    Lower(Split(address, '@')[1])
  }

  /** The provider for a domain, tested in the source's order. */
  function Classify(domain: string): (r: string)
    ensures r in {"gmail", "outlook", "yahoo", "generic"} && r in Servers
    ensures r == "gmail" <==> Contains(domain, "gmail")
    ensures r == "outlook" <==>
      (!Contains(domain, "gmail")
       && (Contains(domain, "outlook") || Contains(domain, "hotmail") || Contains(domain, "live")))
    ensures r == "yahoo" <==>
      (!Contains(domain, "gmail") && !Contains(domain, "outlook")
       && !Contains(domain, "hotmail") && !Contains(domain, "live") && Contains(domain, "yahoo"))
  {
    if Contains(domain, "gmail") then "gmail"
    else if Contains(domain, "outlook") || Contains(domain, "hotmail") || Contains(domain, "live") then "outlook"
    else if Contains(domain, "yahoo") then "yahoo"
    else "generic"
  }

  /** `split` yields a second piece exactly when the separator occurs, so the error case is the address without `@`. */
  lemma SplitHasSecond(s: string, c: char)
    ensures IndexOf(s, c) >= 0 ==> |Split(s, c)| >= 2
    ensures IndexOf(s, c) < 0 ==> Split(s, c) == [s]
  {
    var i := IndexOf(s, c);
    var parts := Split(s, c);
    if i >= 0 {
      var rest := Split(s[i + 1..], c);
      assert parts == [s[..i]] + rest;
      assert |rest| >= 1;
    }
  }

  predicate NoAt(s: string) {
    forall i :: 0 <= i < |s| ==> s[i] != '@'
  }

  /** Splitting at a first `@` that follows `a`. */
  lemma SplitAtFirst(a: string, b: string)
    requires NoAt(a)
    ensures IndexOf(a + "@" + b, '@') == |a|
    ensures Split(a + "@" + b, '@') == [a] + Split(b, '@')
  {
    var s := a + "@" + b;
    assert s[|a|] == '@';
    assert forall j :: 0 <= j < |a| ==> s[j] == a[j];
    assert s[..|a|] == a && s[|a| + 1..] == b;
  }

  /** The domain of `user@host` is the lower-cased host. */
  lemma DomainAfterAt(user: string, host: string)
    requires NoAt(user) && NoAt(host)
    ensures IndexOf(user + "@" + host, '@') == |user|
    ensures Domain(user + "@" + host) == Lower(host)
  {
    SplitAtFirst(user, host);
    assert IndexOf(host, '@') == -1;
    assert Split(host, '@') == [host];
  }

  /**
   * The domain is what lies between the first `@` and the next one: for
   * `user@host@rest` it is `host`, not `host@rest`.
   */
  lemma DomainStopsAtSecondAt(user: string, host: string, rest: string)
    requires NoAt(user) && NoAt(host)
    ensures IndexOf(user + "@" + (host + "@" + rest), '@') == |user|
    ensures Domain(user + "@" + (host + "@" + rest)) == Lower(host)
  {
    SplitAtFirst(user, host + "@" + rest);
    SplitAtFirst(host, rest);
  }

  /** The settings of one server entry. */
  datatype Server = Server(host: string, port: int, useSsl: bool)

  const Servers: map<string, Server> := map[
    "gmail" := Server("imap.gmail.com", 993, true),
    "outlook" := Server("outlook.office365.com", 993, true),
    "yahoo" := Server("imap.mail.yahoo.com", 993, true),
    "generic" := Server("imap.example.com", 993, true)
  ]

  /** `_get_imap_server`: the entry for a known provider, else the generic one; every entry uses port 993 over SSL. */
  function ImapServer(provider: string): (r: Server)
    ensures r.port == 993 && r.useSsl
    ensures provider in Servers ==> r == Servers[provider]
    ensures provider !in Servers ==> r == Servers["generic"]
    ensures provider == "gmail" ==> r.host == "imap.gmail.com"
    ensures provider == "outlook" ==> r.host == "outlook.office365.com"
    ensures provider == "yahoo" ==> r.host == "imap.mail.yahoo.com"
  {
    if provider in Servers then Servers[provider] else Servers["generic"]
  }

  /** Python's `ids[-limit:]`: a negative start counts from the end, and both ends clamp. */
  function SliceFrom(ids: seq<string>, start: int): seq<string> {
    if start < 0 then ids[(if |ids| + start < 0 then 0 else |ids| + start)..]
    else ids[(if start > |ids| then |ids| else start)..]
  }

  /**
   * `if limit: email_ids = email_ids[-limit:]`: a positive limit keeps the
   * last `min(limit, n)` ids in order, 0 or `None` keeps all, and a negative
   * limit, which nothing rejects, drops the first `-limit` ids instead.
   */
  function LimitIds(ids: seq<string>, limit: Option<int>): (r: seq<string>)
    ensures |r| <= |ids| && r == ids[|ids| - |r|..]
    ensures limit.Some? && limit.value > 0 ==>
      |r| == (if limit.value < |ids| then limit.value else |ids|)
    ensures limit.None? || limit.value == 0 ==> r == ids
    ensures limit.Some? && limit.value < 0 ==>
      |r| == |ids| - (if -limit.value < |ids| then -limit.value else |ids|)
  {
    if limit.Some? && limit.value != 0 then SliceFrom(ids, -limit.value) else ids
  }

  /** A fetched message: header and body fields by name; an empty map is a failed fetch. */
  type EmailData = map<string, string>

  /** `search_emails`' loop: each fetched message gets its id, failed fetches are skipped. */
  function Collected(fetch: string -> EmailData, ids: seq<string>): seq<EmailData>
    decreases |ids|
  {
    if ids == [] then []
    else
      var prev := Collected(fetch, ids[..|ids| - 1]);
      var id := ids[|ids| - 1];
      if fetch(id) != map[] then prev + [fetch(id)["id" := id]] else prev
  }

  /** The ids whose fetch succeeded, in order. */
  function Fetched(fetch: string -> EmailData, ids: seq<string>): seq<string>
    decreases |ids|
  {
    if ids == [] then []
    else
      var prev := Fetched(fetch, ids[..|ids| - 1]);
      var id := ids[|ids| - 1];
      if fetch(id) != map[] then prev + [id] else prev
  }

  /** Result `k` is the fetched message of the `k`-th id that could be fetched, carrying that id. */
  lemma {:induction false} CollectedMatchesFetched(fetch: string -> EmailData, ids: seq<string>)
    ensures var r, f := Collected(fetch, ids), Fetched(fetch, ids);
      |r| == |f| <= |ids|
      && forall k :: 0 <= k < |r| ==> r[k] == fetch(f[k])["id" := f[k]] && r[k]["id"] == f[k]
    ensures forall k :: 0 <= k < |Fetched(fetch, ids)| ==> Fetched(fetch, ids)[k] in ids
    decreases |ids|
  {
    if ids != [] {
      var front := ids[..|ids| - 1];
      CollectedMatchesFetched(fetch, front);
      assert forall k :: 0 <= k < |Fetched(fetch, front)| ==> Fetched(fetch, front)[k] in ids by {
        forall k | 0 <= k < |Fetched(fetch, front)|
          ensures Fetched(fetch, front)[k] in ids
        {
          var id := Fetched(fetch, front)[k];
          assert id in front;
          var j :| 0 <= j < |front| && front[j] == id;
          assert ids[j] == id;
        }
      }
    }
  }

  /**
   * `search_emails` after the server answered with `ids`: nothing when not
   * connected, otherwise the limited ids fetched one at a time.
   */
  method SearchEmails(connected: bool, ids: seq<string>, limit: Option<int>, fetch: string -> EmailData)
    returns (emails: seq<EmailData>)
    ensures !connected ==> emails == []
    ensures connected ==> emails == Collected(fetch, LimitIds(ids, limit))
  {
    emails := [];
    if !connected {
      return;
    }
    var selected := LimitIds(ids, limit);
    for i := 0 to |selected|
      invariant emails == Collected(fetch, selected[..i])
    {
      assert selected[..i + 1][..i] == selected[..i];
      var data := fetch(selected[i]);
      if data != map[] {
        data := data["id" := selected[i]];
        emails := emails + [data];
      }
    }
    assert selected[..|selected|] == selected;
  }
}
