/** The frontier: class `CrawlerDb` of database.py, a `website` table of rows
    `{id, url, has_crawled, emails}` behind a `connected` flag. The SQLite
    table is modelled as an in-memory sequence of rows in insertion (rowid)
    order together with the next id the table will hand out. */
module Database {
  import opened Builtins

  /** One row of the `website` table. `emails` is the comma-joined text the
      row was stored with, or `None` (SQL NULL). */
  datatype Website = Website(id: nat, url: string, hasCrawled: bool, emails: Option<string>)

  /** The table invariant: ids are handed out in increasing order (so they
      are unique), urls are unique and 7-bit (`unicode(url)` raised for any
      other), and a row only holds emails once it is crawled. */
  ghost predicate WellFormed(rows: seq<Website>, nextId: nat) {
    && nextId >= 1
    && (forall i :: 0 <= i < |rows| ==> IsAscii(rows[i].url))
    && (forall i :: 0 <= i < |rows| ==> 1 <= rows[i].id < nextId)
    && (forall i, j :: 0 <= i < j < |rows| ==> rows[i].id < rows[j].id)
    && (forall i, j :: 0 <= i < j < |rows| ==> rows[i].url != rows[j].url)
    && (forall i :: 0 <= i < |rows| ==> rows[i].emails.Some? ==> rows[i].hasCrawled)
  }

  /** `SELECT ... WHERE url = :url` returns a row. */
  predicate HasUrl(rows: seq<Website>, url: string) {
    exists i :: 0 <= i < |rows| && rows[i].url == url
  }

  /** The row `enqueue(url, emails)` inserts: with an email list it is born
      crawled and stores `",".join(emails)`; without one it is uncrawled. */
  function NewRow(id: nat, url: string, emails: Option<seq<string>>): Website {
    match emails
    case None => Website(id, url, false, None)
    case Some(list) => Website(id, url, true, Some(Join(list, ',')))
  }

  /** `enqueue` builds its insert arguments with `unicode(url)` and
      `unicode(",".join(emails))`; under Python 2 either raises
      `UnicodeDecodeError` when the byte string holds a byte above 0x7f. */
  predicate EnqueueRaises(url: string, emails: Option<seq<string>>) {
    !IsAscii(url) || (emails.Some? && !IsAscii(Join(emails.value, ',')))
  }

  /** What `enqueue` gives back: `True`, `False`, or the exception escaping
      it (`EncodeError`). */
  datatype EnqueueResult = Inserted | NotInserted | EncodeError

  /** `UPDATE website SET has_crawled = 1, emails = :e WHERE id = :id`. */
  function MarkCrawled(rows: seq<Website>, id: nat, e: Option<string>): seq<Website> {
    seq(|rows|, i requires 0 <= i < |rows| =>
      if rows[i].id == id then rows[i].(hasCrawled := true, emails := e) else rows[i])
  }

  predicate AllCrawled(rows: seq<Website>) {
    forall i :: 0 <= i < |rows| ==> rows[i].hasCrawled
  }

  /** The number of rows `dequeue` can still hand out. */
  function UncrawledCount(rows: seq<Website>): nat {
    if rows == [] then 0
    else UncrawledCount(rows[..|rows| - 1]) + (if rows[|rows| - 1].hasCrawled then 0 else 1)
  }

  /** A row's later state: same id and url, and a crawled row is frozen
      (`has_crawled` never reverts and its emails are never rewritten). */
  ghost predicate Evolved(before: Website, after: Website) {
    after.id == before.id && after.url == before.url && (before.hasCrawled ==> after == before)
  }

  /** The table only grows, and every existing row evolves as above. */
  ghost predicate Grows(before: seq<Website>, after: seq<Website>) {
    |before| <= |after| && forall i :: 0 <= i < |before| ==> Evolved(before[i], after[i])
  }

  /** The emails one row contributes to `get_all_emails`: `emails.split(',')`. */
  function EmailsOf(row: Website): set<string> {
    match row.emails
    case None => {}
    case Some(text) => set x | x in Split(text, ',')
  }

  /** The set `get_all_emails` builds over a full scan. */
  function AllEmails(rows: seq<Website>): set<string> {
    if rows == [] then {} else AllEmails(rows[..|rows| - 1]) + EmailsOf(rows[|rows| - 1])
  }

  /** The "registrable domain" heuristic of `get_all_domains`: keep the last
      three labels when the second-to-last label is shorter than four
      characters (`just2us.com.sg`), otherwise the last two. A hostname with a
      single label makes `hostname[-2]` raise `IndexError` (`None` here). */
  function ReduceHostname(hostname: string): Option<string> {
    var labels := Split(hostname, '.');
    var n := |labels|;
    if n < 2 then None
    else if |labels[n - 2]| < 4 then Some(Join(labels[if n >= 3 then n - 3 else 0..], '.'))
    else Some(Join(labels[n - 2..], '.'))
  }

  /** The domain of one row's url; `None` when `urlparse(url).hostname` is
      `None` (`None.split` raises) or the hostname has a single label. */
  function DomainOf(hostname: string -> Option<string>, url: string): Option<string> {
    match hostname(url)
    case None => None
    case Some(h) => ReduceHostname(h)
  }

  /** The set `get_all_domains` builds over a full scan, or `None` when the
      scan raises on some row. */
  function AllDomains(rows: seq<Website>, hostname: string -> Option<string>): Option<set<string>> {
    if rows == [] then Some({})
    else
      match AllDomains(rows[..|rows| - 1], hostname)
      case None => None
      case Some(ds) =>
        match DomainOf(hostname, rows[|rows| - 1].url)
        case None => None
        case Some(d) => Some(ds + {d})
  }

  /** What `get_all_domains` gives back: `None` when not connected, an
      exception raised by the scan, or the set of domains. */
  datatype DomainsResult = NotConnected | Raised | Domains(domains: set<string>)

  // ---------------------------------------------------------------------
  // Properties of the table operations
  // ---------------------------------------------------------------------

  /** Inserting the row `enqueue` builds for an absent url keeps the table
      invariant; it is the only way rows are added. */
  lemma EnqueuePreservesWellFormed(rows: seq<Website>, nextId: nat, url: string, emails: Option<seq<string>>)
    requires WellFormed(rows, nextId)
    requires !HasUrl(rows, url) && IsAscii(url)
    ensures WellFormed(rows + [NewRow(nextId, url, emails)], nextId + 1)
  {
    var rows' := rows + [NewRow(nextId, url, emails)];
    forall i, j | 0 <= i < j < |rows'| ensures rows'[i].url != rows'[j].url {
      if j == |rows| {
        assert rows'[i] == rows[i];
      }
    }
  }

  /** Every url stored in the table is 7-bit, so a url with a byte above
      0x7f is never a duplicate: `enqueue` raises on it. */
  lemma StoredUrlIsAscii(rows: seq<Website>, nextId: nat, url: string)
    requires WellFormed(rows, nextId) && HasUrl(rows, url)
    ensures IsAscii(url)
  {
    var i :| 0 <= i < |rows| && rows[i].url == url;
  }

  /** Marking the row with a given id crawled changes that row only; an
      unknown id leaves the table as it is. */
  lemma {:induction false} MarkCrawledAt(rows: seq<Website>, nextId: nat, i: nat, e: Option<string>)
    requires WellFormed(rows, nextId)
    requires i < |rows|
    ensures MarkCrawled(rows, rows[i].id, e) == rows[i := rows[i].(hasCrawled := true, emails := e)]
  {
    var lhs := MarkCrawled(rows, rows[i].id, e);
    var rhs := rows[i := rows[i].(hasCrawled := true, emails := e)];
    forall k | 0 <= k < |rows| ensures lhs[k] == rhs[k] {
      if k < i {
        assert rows[k].id < rows[i].id;
      } else if k > i {
        assert rows[i].id < rows[k].id;
      }
    }
  }

  lemma MarkCrawledUnknownId(rows: seq<Website>, id: nat, e: Option<string>)
    requires forall i :: 0 <= i < |rows| ==> rows[i].id != id
    ensures MarkCrawled(rows, id, e) == rows
  {
  }

  /** `crawled` keeps the table invariant: it sets `has_crawled` together
      with the emails. */
  lemma MarkCrawledPreservesWellFormed(rows: seq<Website>, nextId: nat, id: nat, e: Option<string>)
    requires WellFormed(rows, nextId)
    ensures WellFormed(MarkCrawled(rows, id, e), nextId)
  {
  }

  /** `UncrawledCount` is zero exactly when every row is crawled, i.e. when
      `dequeue` has nothing left to hand out. */
  lemma {:induction false} UncrawledCountZeroIff(rows: seq<Website>)
    ensures UncrawledCount(rows) == 0 <==> AllCrawled(rows)
  {
    if rows != [] {
      var front := rows[..|rows| - 1];
      UncrawledCountZeroIff(front);
      if AllCrawled(rows) {
        assert AllCrawled(front) by {
          forall i | 0 <= i < |front| ensures front[i].hasCrawled {
            assert front[i] == rows[i];
          }
        }
      }
      if UncrawledCount(rows) == 0 {
        forall i | 0 <= i < |rows| ensures rows[i].hasCrawled {
          if i < |front| {
            assert front[i] == rows[i];
          }
        }
      }
    }
  }

  /** Marking one uncrawled row crawled lowers the count by exactly one. */
  lemma {:induction false} UncrawledCountAfterMark(rows: seq<Website>, i: nat, e: Option<string>)
    requires i < |rows| && !rows[i].hasCrawled
    ensures UncrawledCount(rows[i := rows[i].(hasCrawled := true, emails := e)]) == UncrawledCount(rows) - 1
  {
    var rows' := rows[i := rows[i].(hasCrawled := true, emails := e)];
    var n := |rows|;
    if i == n - 1 {
      assert rows'[..n - 1] == rows[..n - 1];
    } else {
      UncrawledCountAfterMark(rows[..n - 1], i, e);
      assert rows'[..n - 1] == rows[..n - 1][i := rows[i].(hasCrawled := true, emails := e)];
    }
  }

  /** Appending rows that are all crawled leaves the count unchanged. */
  lemma {:induction false} UncrawledCountCrawledSuffix(rows: seq<Website>, n: nat)
    requires n <= |rows|
    requires forall k :: n <= k < |rows| ==> rows[k].hasCrawled
    ensures UncrawledCount(rows) == UncrawledCount(rows[..n])
  {
    if n < |rows| {
      UncrawledCountCrawledSuffix(rows[..|rows| - 1], n);
      assert rows[..|rows| - 1][..n] == rows[..n];
    } else {
      assert rows[..n] == rows;
    }
  }

  /** Appending one row adds one to the count if that row is uncrawled. */
  lemma UncrawledCountAppend(rows: seq<Website>, row: Website)
    ensures UncrawledCount(rows + [row]) == UncrawledCount(rows) + (if row.hasCrawled then 0 else 1)
  {
    assert (rows + [row])[..|rows|] == rows;
  }

  /** A url present in the table stays present as the table grows. */
  lemma GrowsKeepsUrls(before: seq<Website>, after: seq<Website>, url: string)
    requires Grows(before, after) && HasUrl(before, url)
    ensures HasUrl(after, url)
  {
    var i :| 0 <= i < |before| && before[i].url == url;
    assert after[i].url == url;
  }

  /** Membership in the exported email set: an email is exported exactly when
      some row's stored text, split on commas, contains it. */
  lemma {:induction false} AllEmailsMembership(rows: seq<Website>, x: string)
    ensures x in AllEmails(rows) <==> exists i :: 0 <= i < |rows| && x in EmailsOf(rows[i])
  {
    if rows != [] {
      var front := rows[..|rows| - 1];
      AllEmailsMembership(front, x);
      if exists i :: 0 <= i < |front| && x in EmailsOf(front[i]) {
        var i :| 0 <= i < |front| && x in EmailsOf(front[i]);
        assert rows[i] == front[i];
      }
      if exists i :: 0 <= i < |rows| && x in EmailsOf(rows[i]) {
        var i :| 0 <= i < |rows| && x in EmailsOf(rows[i]);
        if i < |front| {
          assert rows[i] == front[i];
        }
      }
    }
  }

  /** The round trip of `",".join` at insert and `split(',')` at export: a
      non-empty list of comma-free emails comes back as its own elements. */
  lemma StoredListRoundTrip(id: nat, url: string, list: seq<string>)
    requires |list| >= 1
    requires forall k :: 0 <= k < |list| ==> ',' !in list[k]
    ensures EmailsOf(NewRow(id, url, Some(list))) == set x | x in list
  {
    SplitOfJoin(list, ',');
  }

  /** An empty list is stored as `""` and exported as the empty string. */
  lemma StoredEmptyListExportsEmptyString(id: nat, url: string)
    ensures NewRow(id, url, Some([])).hasCrawled
    ensures EmailsOf(NewRow(id, url, Some([]))) == {""}
  {
    assert Split("", ',') == [""];
  }

  /** The scan of `get_all_domains` raises exactly when some row's url has no
      usable hostname. */
  lemma {:induction false} AllDomainsRaisesIff(rows: seq<Website>, hostname: string -> Option<string>)
    ensures AllDomains(rows, hostname).None? <==> exists i :: 0 <= i < |rows| && DomainOf(hostname, rows[i].url).None?
  {
    if rows != [] {
      var front := rows[..|rows| - 1];
      AllDomainsRaisesIff(front, hostname);
      if exists i :: 0 <= i < |front| && DomainOf(hostname, front[i].url).None? {
        var i :| 0 <= i < |front| && DomainOf(hostname, front[i].url).None?;
        assert rows[i] == front[i];
      }
      if exists i :: 0 <= i < |rows| && DomainOf(hostname, rows[i].url).None? {
        var i :| 0 <= i < |rows| && DomainOf(hostname, rows[i].url).None?;
        if i < |front| {
          assert rows[i] == front[i];
        }
      }
    }
  }

  /** One more row in a scan that succeeds adds that row's domain. */
  lemma AllDomainsLast(rows: seq<Website>, hostname: string -> Option<string>)
    requires rows != [] && AllDomains(rows, hostname).Some?
    ensures AllDomains(rows[..|rows| - 1], hostname).Some?
    ensures DomainOf(hostname, rows[|rows| - 1].url).Some?
    ensures AllDomains(rows, hostname).value ==
      AllDomains(rows[..|rows| - 1], hostname).value + {DomainOf(hostname, rows[|rows| - 1].url).value}
  {
  }

  /** When the scan succeeds, every row's domain is exported. */
  lemma {:induction false} AllDomainsHasRow(rows: seq<Website>, hostname: string -> Option<string>, i: nat)
    requires AllDomains(rows, hostname).Some? && i < |rows|
    ensures DomainOf(hostname, rows[i].url).Some?
    ensures DomainOf(hostname, rows[i].url).value in AllDomains(rows, hostname).value
  {
    var front := rows[..|rows| - 1];
    AllDomainsLast(rows, hostname);
    if i < |front| {
      AllDomainsHasRow(front, hostname, i);
      assert front[i] == rows[i];
    }
  }

  /** Every exported domain is the domain of some row. */
  lemma {:induction false} AllDomainsFromRow(rows: seq<Website>, hostname: string -> Option<string>, d: string)
    requires AllDomains(rows, hostname).Some? && d in AllDomains(rows, hostname).value
    ensures exists i :: 0 <= i < |rows| && DomainOf(hostname, rows[i].url) == Some(d)
  {
    var front := rows[..|rows| - 1];
    AllDomainsLast(rows, hostname);
    if DomainOf(hostname, rows[|rows| - 1].url) != Some(d) {
      AllDomainsFromRow(front, hostname, d);
      var i :| 0 <= i < |front| && DomainOf(hostname, front[i].url) == Some(d);
      assert front[i] == rows[i];
    }
  }

  /** When the scan succeeds, a domain is exported exactly when it is the
      reduced hostname of some row's url. */
  lemma AllDomainsMembership(rows: seq<Website>, hostname: string -> Option<string>, d: string)
    requires AllDomains(rows, hostname).Some?
    ensures d in AllDomains(rows, hostname).value <==> exists i :: 0 <= i < |rows| && DomainOf(hostname, rows[i].url) == Some(d)
  {
    if d in AllDomains(rows, hostname).value {
      AllDomainsFromRow(rows, hostname, d);
    }
    if exists i :: 0 <= i < |rows| && DomainOf(hostname, rows[i].url) == Some(d) {
      var i :| 0 <= i < |rows| && DomainOf(hostname, rows[i].url) == Some(d);
      AllDomainsHasRow(rows, hostname, i);
    }
  }

  /** The reduction fails exactly for a hostname without a dot; otherwise its
      result is the last three labels (when the second-to-last label is
      shorter than four characters) or the last two, joined again, and it is
      a suffix of the hostname. */
  lemma ReducedHostnameIsLabelSuffix(hostname: string)
    ensures ReduceHostname(hostname).None? <==> '.' !in hostname
    ensures ReduceHostname(hostname).Some? ==>
      var labels := Split(hostname, '.');
      var n := |labels|;
      var keep := if |labels[n - 2]| < 4 && n >= 3 then 3 else 2;
      && Split(ReduceHostname(hostname).value, '.') == labels[n - keep..]
      && EndsWith(hostname, ReduceHostname(hostname).value)
  {
    SplitHasTwoPartsIff(hostname, '.');
    var labels := Split(hostname, '.');
    var n := |labels|;
    if n >= 2 {
      var keep := if |labels[n - 2]| < 4 && n >= 3 then 3 else 2;
      assert |labels[n - 2]| < 4 && n < 3 ==> labels[0..] == labels[n - keep..];
      SplitOfJoin(labels[n - keep..], '.');
      JoinOfTailIsSuffix(labels, n - keep, '.');
      JoinOfSplit(hostname, '.');
    }
  }

  /** Splits a dotted name whose first label is `first` (no dot in it). */
  lemma SplitFirstLabel(first: string, rest: string)
    requires '.' !in first
    ensures Split(first + "." + rest, '.') == [first] + Split(rest, '.')
  {
    SplitAtFirstSep(first, rest, '.');
  }

  /** `ReduceHostname` read off a known label list. */
  lemma ReduceWithLabels(hostname: string, labels: seq<string>, keep: nat)
    requires Split(hostname, '.') == labels && |labels| >= 2
    requires keep == if |labels[|labels| - 2]| < 4 && |labels| >= 3 then 3 else 2
    ensures ReduceHostname(hostname) == Some(Join(labels[|labels| - keep..], '.'))
  {
    if |labels[|labels| - 2]| < 4 && |labels| < 3 {
      assert labels[0..] == labels[|labels| - keep..];
    }
  }

  lemma SplitThreeLabels(a: string, b: string, c: string)
    requires '.' !in a && '.' !in b && '.' !in c
    ensures Split(a + "." + b + "." + c, '.') == [a, b, c]
  {
    SplitWithoutSep(c, '.');
    SplitFirstLabel(b, c);
    SplitFirstLabel(a, b + "." + c);
    assert a + "." + b + "." + c == a + "." + (b + "." + c);
  }

  lemma JoinThreeLabels(a: string, b: string, c: string)
    ensures Join([a, b, c], '.') == a + "." + b + "." + c
  {
    assert [a, b, c][1..] == [b, c];
    assert [b, c][1..] == [c];
    assert Join([b, c], '.') == b + "." + c;
  }

  /** `mail.example.com`: a second-level label of four or more characters
      keeps the last two labels. */
  lemma ReduceKeepsLastTwo(a: string, b: string, c: string)
    requires '.' !in a && '.' !in b && '.' !in c
    requires |b| >= 4
    ensures ReduceHostname(a + "." + b + "." + c) == Some(b + "." + c)
  {
    SplitThreeLabels(a, b, c);
    ReduceWithLabels(a + "." + b + "." + c, [a, b, c], 2);
    assert [a, b, c][1..] == [b, c];
  }

  /** `just2us.com.sg`: a short second-to-last label keeps three labels,
      here the whole hostname. */
  lemma ReduceKeepsAllThree(a: string, b: string, c: string)
    requires '.' !in a && '.' !in b && '.' !in c
    requires |b| < 4
    ensures ReduceHostname(a + "." + b + "." + c) == Some(a + "." + b + "." + c)
  {
    SplitThreeLabels(a, b, c);
    ReduceWithLabels(a + "." + b + "." + c, [a, b, c], 3);
    assert [a, b, c][0..] == [a, b, c];
    JoinThreeLabels(a, b, c);
  }

  /** `www.abc.com.sg`: a short second-to-last label keeps the last three
      of four labels. */
  lemma ReduceKeepsLastThree(a: string, b: string, c: string, d: string)
    requires '.' !in a && '.' !in b && '.' !in c && '.' !in d
    requires |c| < 4
    ensures ReduceHostname(a + "." + b + "." + c + "." + d) == Some(b + "." + c + "." + d)
  {
    SplitThreeLabels(b, c, d);
    SplitFirstLabel(a, b + "." + c + "." + d);
    assert a + "." + b + "." + c + "." + d == a + "." + (b + "." + c + "." + d);
    ReduceWithLabels(a + "." + b + "." + c + "." + d, [a, b, c, d], 3);
    assert [a, b, c, d][1..] == [b, c, d];
    JoinThreeLabels(b, c, d);
  }

  /** Examples of the heuristic. */
  lemma ReduceHostnameExamples()
    ensures ReduceHostname("just2us" + "." + "com" + "." + "sg") == Some("just2us" + "." + "com" + "." + "sg")
    ensures ReduceHostname("www" + "." + "abc" + "." + "com" + "." + "sg") == Some("abc" + "." + "com" + "." + "sg")
    ensures ReduceHostname("mail" + "." + "example" + "." + "com") == Some("example" + "." + "com")
    ensures ReduceHostname("shop" + "." + "longname" + "." + "org") == Some("longname" + "." + "org")
  {
    ReduceKeepsAllThree("just2us", "com", "sg");
    ReduceKeepsLastThree("www", "abc", "com", "sg");
    ReduceKeepsLastTwo("mail", "example", "com");
    ReduceKeepsLastTwo("shop", "longname", "org");
  }

  lemma ReduceHostnameSingleLabelRaises()
    ensures ReduceHostname("localhost") == None
  {
    SplitWithoutSep("localhost", '.');
  }

  // ---------------------------------------------------------------------
  // The CrawlerDb object
  // ---------------------------------------------------------------------

  class CrawlerDb {
    var connected: bool
    var rows: seq<Website>
    var nextId: nat

    ghost predicate Valid()
      reads this
    {
      WellFormed(rows, nextId)
    }

    /** `CrawlerDb()`: not yet connected. */
    constructor ()
      ensures Valid() && !connected && rows == [] && nextId == 1
    {
      connected := false;
      rows := [];
      nextId := 1;
    }

    /** `connect()`: the engine's connection object is always truthy, so the
        table becomes available; its rows are those already stored. */
    method Connect()
      requires Valid()
      modifies this
      ensures Valid() && connected
      ensures rows == old(rows) && nextId == old(nextId)
    {
      connected := true;
    }

    /** `enqueue(url, emails=None)`: insert a row for a url not yet in the
        table; a url already present, or a closed connection, gives `False`
        and leaves the table unchanged. A new url or email text with a byte
        above 0x7f makes the `unicode` conversion raise before the insert. */
    method Enqueue(url: string, emails: Option<seq<string>>) returns (r: EnqueueResult)
      requires Valid()
      modifies this
      ensures Valid() && connected == old(connected)
      ensures r == Inserted <==> old(connected) && !HasUrl(old(rows), url) && !EnqueueRaises(url, emails)
      ensures r == EncodeError <==> old(connected) && !HasUrl(old(rows), url) && EnqueueRaises(url, emails)
      ensures r == Inserted ==> rows == old(rows) + [NewRow(old(nextId), url, emails)] && nextId == old(nextId) + 1
      ensures r != Inserted ==> rows == old(rows) && nextId == old(nextId)
      ensures connected && r != EncodeError ==> HasUrl(rows, url)
    {
      if !connected {
        return NotInserted;
      }
      if HasUrl(rows, url) {
        return NotInserted;
      }
      if EnqueueRaises(url, emails) {
        return EncodeError;
      }
      EnqueuePreservesWellFormed(rows, nextId, url, emails);
      rows := rows + [NewRow(nextId, url, emails)];
      nextId := nextId + 1;
      assert rows[|rows| - 1].url == url;
      r := Inserted;
    }

    /** `dequeue()`: some row with `has_crawled = False` (the query has no
        ORDER BY, so which one is not promised), or `False` (`None` here) when
        there is none or the connection is closed. The table is not changed. */
    method Dequeue() returns (r: Option<Website>)
      requires Valid()
      ensures r.Some? ==> connected && r.value in rows && !r.value.hasCrawled
      ensures r.None? <==> !connected || AllCrawled(rows)
    {
      if !connected {
        return None;
      }
      if exists i :: 0 <= i < |rows| && !rows[i].hasCrawled {
        var i :| 0 <= i < |rows| && !rows[i].hasCrawled;
        r := Some(rows[i]);
      } else {
        r := None;
      }
    }

    /** `crawled(website, new_emails)`: set `has_crawled` and `emails` on the
        row with `website.id`; every other row is untouched. */
    method Crawled(website: Website, newEmails: Option<string>)
      requires Valid()
      modifies this
      ensures Valid() && connected == old(connected) && nextId == old(nextId)
      ensures rows == if old(connected) then MarkCrawled(old(rows), website.id, newEmails) else old(rows)
    {
      if !connected {
        return;
      }
      MarkCrawledPreservesWellFormed(rows, nextId, website.id, newEmails);
      rows := MarkCrawled(rows, website.id, newEmails);
    }

    /** `get_all_emails()`: the union over all rows of `emails.split(',')`,
        skipping rows without emails; `None` when not connected. */
    method GetAllEmails() returns (r: Option<set<string>>)
      requires Valid()
      ensures r == if connected then Some(AllEmails(rows)) else None
    {
      if !connected {
        return None;
      }
      var emailSet: set<string> := {};
      var i := 0;
      while i < |rows|
        invariant 0 <= i <= |rows|
        invariant emailSet == AllEmails(rows[..i])
      {
        assert rows[..i + 1][..i] == rows[..i];
        var row := rows[i];
        if row.emails.Some? {
          var parts := Split(row.emails.value, ',');
          var k := 0;
          while k < |parts|
            invariant 0 <= k <= |parts|
            invariant emailSet == AllEmails(rows[..i]) + set x | x in parts[..k]
          {
            assert parts[..k + 1] == parts[..k] + [parts[k]];
            emailSet := emailSet + {parts[k]};
            k := k + 1;
          }
          assert parts[..k] == parts;
        }
        i := i + 1;
      }
      assert rows[..i] == rows;
      r := Some(emailSet);
    }

    /** `get_all_domains()`: the reduced hostname of every row's url; `None`
        when not connected; raises on the first url without a usable
        hostname. */
    method GetAllDomains(hostname: string -> Option<string>) returns (r: DomainsResult)
      requires Valid()
      ensures !connected ==> r == NotConnected
      ensures connected ==> r == match AllDomains(rows, hostname)
                                 case None => Raised
                                 case Some(ds) => Domains(ds)
    {
      if !connected {
        return NotConnected;
      }
      var domainSet: set<string> := {};
      var i := 0;
      while i < |rows|
        invariant 0 <= i <= |rows|
        invariant AllDomains(rows[..i], hostname) == Some(domainSet)
      {
        assert rows[..i + 1][..i] == rows[..i];
        var host := hostname(rows[i].url);
        if host.None? {
          AllDomainsRaisesIff(rows, hostname);
          return Raised;
        }
        var domain := ReduceHostname(host.value);
        if domain.None? {
          AllDomainsRaisesIff(rows, hostname);
          return Raised;
        }
        domainSet := domainSet + {domain.value};
        i := i + 1;
      }
      assert rows[..i] == rows;
      r := Domains(domainSet);
    }
  }

  /** The scenario at the end of database.py: enqueue two urls, dequeue and
      mark crawled twice (the second time with emails "a,b"); a third dequeue
      then finds nothing. */
  method Scenario() returns (third: Option<Website>, table: seq<Website>)
    ensures third == None
    ensures |table| == 2 && table[0].url == "111" && table[1].url == "222"
    ensures AllCrawled(table)
    ensures (table[0].emails == None && table[1].emails == Some("a,b"))
         || (table[0].emails == Some("a,b") && table[1].emails == None)
  {
    var c := ScenarioSetUp();
    third := ScenarioCrawlTwice(c);
    table := c.rows;
  }

  /** First half of the scenario: connect and enqueue `'111'` and `'222'`. */
  method ScenarioSetUp() returns (c: CrawlerDb)
    ensures fresh(c) && c.Valid() && c.connected
    ensures c.rows == [Website(1, "111", false, None), Website(2, "222", false, None)]
  {
    c := new CrawlerDb();
    c.Connect();
    assert IsAscii("111") && IsAscii("222") by {
      assert forall k :: 0 <= k < 3 ==> "111"[k] == '1' && "222"[k] == '2';
    }
    var _ := c.Enqueue("111", None);
    assert c.rows == [Website(1, "111", false, None)];
    assert "111" != "222" by { assert "111"[0] != "222"[0]; }
    assert !HasUrl(c.rows, "222");
    var _ := c.Enqueue("222", None);
  }

  /** One dequeue followed by `crawled(website, e)` on the row it handed
      out. */
  method CrawlNext(c: CrawlerDb, e: Option<string>) returns (ghost i: nat)
    requires c.Valid() && c.connected && !AllCrawled(c.rows)
    modifies c
    ensures c.Valid() && c.connected && c.nextId == old(c.nextId)
    ensures i < |old(c.rows)| && !old(c.rows)[i].hasCrawled
    ensures c.rows == old(c.rows)[i := old(c.rows)[i].(hasCrawled := true, emails := e)]
  {
    var website := c.Dequeue();
    i :| 0 <= i < |c.rows| && c.rows[i] == website.value;
    MarkCrawledAt(c.rows, c.nextId, i, e);
    c.Crawled(website.value, e);
  }

  /** Second half: dequeue, mark crawled, dequeue, mark crawled with "a,b",
      dequeue once more. */
  method ScenarioCrawlTwice(c: CrawlerDb) returns (third: Option<Website>)
    requires c.Valid() && c.connected
    requires c.rows == [Website(1, "111", false, None), Website(2, "222", false, None)]
    modifies c
    ensures third == None
    ensures |c.rows| == 2 && c.rows[0].url == "111" && c.rows[1].url == "222"
    ensures AllCrawled(c.rows)
    ensures (c.rows[0].emails == None && c.rows[1].emails == Some("a,b"))
         || (c.rows[0].emails == Some("a,b") && c.rows[1].emails == None)
  {
    assert !c.rows[0].hasCrawled;
    ghost var i := CrawlNext(c, None);
    assert !c.rows[1 - i].hasCrawled;
    ghost var j := CrawlNext(c, Some("a,b"));
    assert j == 1 - i;
    assert AllCrawled(c.rows) by {
      forall k | 0 <= k < |c.rows| ensures c.rows[k].hasCrawled {
        assert k == i || k == 1 - i;
      }
    }
    third := c.Dequeue();
  }
}
