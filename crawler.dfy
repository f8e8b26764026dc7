/** The crawl driver of email_crawler.py: seeding the frontier from fifty
    pages of search results, draining it two levels deep, and the command
    line entry point that either crawls or exports the emails or domains. */
module EmailCrawler {
  import opened Builtins
  import opened Database
  import opened Extraction

  /** `MAX_SEARCH_RESULTS`: the search is paged ten results at a time. */
  const MaxSearchResults: nat := 500

  /** The network as `retrieve_html` sees it. Every failure of `urlopen` or
      of `read` (an `HTTPError` is a `URLError`) ends in `None`, so a fetch is
      a page or `None`; `pages` says which, per url. `requests` logs every
      url fetched, in order. The `ValueError` that `urllib2.Request` raises
      before the `try`, on a url it cannot parse, is not modelled. */
  class Web {
    const pages: string -> Option<string>
    var requests: seq<string>

    constructor (pages: string -> Option<string>)
      ensures this.pages == pages && requests == []
    {
      this.pages := pages;
      requests := [];
    }

    /** `retrieve_html(url)` */
    method Retrieve(url: string) returns (html: Option<string>)
      modifies this
      ensures html == pages(url)
      ensures requests == old(requests) + [url]
    {
      requests := requests + [url];
      html := pages(url);
    }
  }

  /** No fetch succeeds. */
  ghost predicate NetworkDown(pages: string -> Option<string>) {
    forall u :: pages(u).None?
  }

  /** What `crawl` stores for a row it dequeued: crawled, with no emails when
      the page (if any) showed none, and otherwise the list of the emails
      found on it joined with commas. */
  predicate Level1Outcome(row: Website, pages: string -> Option<string>, lib: Library) {
    var found := FindEmailsInHtml(pages(row.url));
    && row.hasCrawled
    && row.emails == if found == {} then None else Some(Join(lib.listOf(found), ','))
  }

  /** A row enqueued at level 2: its page was fetched, and it is born crawled
      with the list of the emails found on that page, possibly empty. */
  predicate Level2Row(row: Website, pages: string -> Option<string>, lib: Library) {
    && row.hasCrawled
    && pages(row.url).Some?
    && row.emails == Some(Join(lib.listOf(FindEmailsInHtml(pages(row.url))), ','))
  }

  // ---------------------------------------------------------------------
  // Level 1 and level 2
  // ---------------------------------------------------------------------

  /** The links level 2 visits from the page at `url`, in set order. */
  function Level2Links(pages: string -> Option<string>, lib: Library, url: string): seq<string> {
    lib.listOf(FindLinksWithSameHostname(lib, url, pages(url)))
  }

  /** Level 2 fetches `link`, it answers, and `enqueue` would raise on the
      link or on the text of the emails found on its page. */
  predicate LinkRaises(pages: string -> Option<string>, lib: Library, link: string) {
    pages(link).Some? && EnqueueRaises(link, Some(lib.listOf(FindEmailsInHtml(pages(link)))))
  }

  /** Level 2 runs from the page at `url` (the page shows no email) and
      reaches a link on which `enqueue` raises. */
  ghost predicate Level2Raises(pages: string -> Option<string>, lib: Library, url: string) {
    && FindEmailsInHtml(pages(url)) == {}
    && exists link :: link in Level2Links(pages, lib, url) && LinkRaises(pages, lib, link)
  }

  /** One pass of the level-2 loop: fetch `link` and, when it answers,
      enqueue it with the list of the emails found on its page. */
  method CrawlLink(db: CrawlerDb, web: Web, lib: Library, link: string) returns (raised: bool)
    requires db.Valid()
    modifies db, web
    ensures db.Valid() && db.connected == old(db.connected)
    ensures web.requests == old(web.requests) + [link]
    ensures raised <==> db.connected && !HasUrl(old(db.rows), link) && LinkRaises(web.pages, lib, link)
    ensures db.rows ==
      if db.connected && web.pages(link).Some? && !HasUrl(old(db.rows), link) && !raised
      then old(db.rows) + [NewRow(old(db.nextId), link, Some(lib.listOf(FindEmailsInHtml(web.pages(link)))))]
      else old(db.rows)
    ensures db.connected && web.pages(link).Some? && !raised ==> HasUrl(db.rows, link)
    ensures old(db.rows) <= db.rows
    ensures forall i :: |old(db.rows)| <= i < |db.rows| ==> Level2Row(db.rows[i], web.pages, lib) && db.rows[i].url == link
  {
    var page := web.Retrieve(link);
    raised := false;
    if page.Some? {
      var found := FindEmailsInHtml(page);
      var r := db.Enqueue(link, Some(lib.listOf(found)));
      raised := r == EncodeError;
    }
  }

  /** The level-2 loop over the links in the order they are visited; an
      exception from `enqueue` ends it. */
  method CrawlLinks(db: CrawlerDb, web: Web, lib: Library, links: seq<string>) returns (raised: bool)
    requires db.Valid()
    modifies db, web
    ensures db.Valid() && db.connected == old(db.connected)
    ensures old(web.requests) <= web.requests <= old(web.requests) + links
    ensures !raised ==> web.requests == old(web.requests) + links
    ensures raised ==> db.connected && exists j :: 0 <= j < |links| && LinkRaises(web.pages, lib, links[j])
    ensures raised ==> exists k :: StoppedAtLink(db.rows, old(web.requests), web.requests, web.pages, lib, links, k)
    ensures old(db.rows) <= db.rows
    ensures links == [] ==> db.rows == old(db.rows) && !raised
    ensures forall i :: |old(db.rows)| <= i < |db.rows| ==> Level2Row(db.rows[i], web.pages, lib) && db.rows[i].url in links
    ensures db.connected && !raised ==> forall j :: 0 <= j < |links| && web.pages(links[j]).Some? ==> HasUrl(db.rows, links[j])
  {
    ghost var rows0 := db.rows;
    ghost var requests0 := web.requests;
    raised := false;
    var k := 0;
    while k < |links| && !raised
      invariant 0 <= k <= |links|
      invariant db.Valid() && db.connected == old(db.connected)
      invariant web.requests == requests0 + links[..k]
      invariant LinksCrawledUpTo(rows0, db.rows, web.pages, lib, links, k, db.connected, raised)
    {
      raised := CrawlLinkAt(db, web, lib, links, k, rows0, requests0);
      k := k + 1;
    }
    LinksCrawled(rows0, db.rows, requests0, web.requests, web.pages, lib, links, k, db.connected, raised);
  }

  /** When the level-2 loop ends, after every link or at a raise, what it
      has done to the table and the request log. */
  lemma LinksCrawled(rows0: seq<Website>, rows: seq<Website>, requests0: seq<string>, requests: seq<string>,
                     pages: string -> Option<string>, lib: Library, links: seq<string>, k: nat, connected: bool, raised: bool)
    requires LinksCrawledUpTo(rows0, rows, pages, lib, links, k, connected, raised)
    requires requests == requests0 + links[..k]
    requires k == |links| || raised
    ensures requests0 <= requests <= requests0 + links
    ensures !raised ==> requests == requests0 + links
    ensures raised ==> connected && exists j :: 0 <= j < |links| && LinkRaises(pages, lib, links[j])
    ensures raised ==> StoppedAtLink(rows, requests0, requests, pages, lib, links, k)
    ensures rows0 <= rows
    ensures links == [] ==> rows == rows0 && !raised
    ensures forall i :: |rows0| <= i < |rows| ==> Level2Row(rows[i], pages, lib) && rows[i].url in links
    ensures connected && !raised ==> forall j :: 0 <= j < |links| && pages(links[j]).Some? ==> HasUrl(rows, links[j])
  {
    assert requests0 + links == (requests0 + links[..k]) + links[k..];
    if !raised {
      assert links[..k] == links;
    }
  }

  /** The level-2 loop stopped at the `k`-th link: exactly `links[..k]` were
      fetched, `enqueue` raised on the last of them, which is not stored,
      and every link before it that answered is in the table. */
  ghost predicate StoppedAtLink(rows: seq<Website>, requests0: seq<string>, requests: seq<string>,
                                pages: string -> Option<string>, lib: Library, links: seq<string>, k: nat)
  {
    && 0 < k <= |links|
    && requests == requests0 + links[..k]
    && LinkRaises(pages, lib, links[k - 1])
    && !HasUrl(rows, links[k - 1])
    && forall j :: 0 <= j < k - 1 && pages(links[j]).Some? ==> HasUrl(rows, links[j])
  }

  /** What the level-2 loop has done after visiting `links[..k]`: the rows
      grew by level-2 rows of those links only, each of them that answered
      is stored, except the last one when `enqueue` raised on it. */
  ghost predicate LinksCrawledUpTo(rows0: seq<Website>, rows: seq<Website>, pages: string -> Option<string>, lib: Library,
                                   links: seq<string>, k: nat, connected: bool, raised: bool)
  {
    && k <= |links|
    && rows0 <= rows
    && (k == 0 ==> rows == rows0 && !raised)
    && (raised ==> connected && 0 < k && LinkRaises(pages, lib, links[k - 1]) && !HasUrl(rows, links[k - 1]))
    && (raised ==> forall j :: 0 <= j < k - 1 && pages(links[j]).Some? ==> HasUrl(rows, links[j]))
    && (forall i :: |rows0| <= i < |rows| ==> Level2Row(rows[i], pages, lib) && rows[i].url in links)
    && (connected && !raised ==> forall j :: 0 <= j < k && pages(links[j]).Some? ==> HasUrl(rows, links[j]))
  }

  /** One turn of the level-2 loop: the visit of `links[k]`. */
  method CrawlLinkAt(db: CrawlerDb, web: Web, lib: Library, links: seq<string>, k: nat,
                     ghost rows0: seq<Website>, ghost requests0: seq<string>) returns (raised: bool)
    requires db.Valid() && k < |links|
    requires web.requests == requests0 + links[..k]
    requires LinksCrawledUpTo(rows0, db.rows, web.pages, lib, links, k, db.connected, false)
    modifies db, web
    ensures db.Valid() && db.connected == old(db.connected)
    ensures web.requests == requests0 + links[..k + 1]
    ensures LinksCrawledUpTo(rows0, db.rows, web.pages, lib, links, k + 1, db.connected, raised)
  {
    assert links[..k + 1] == links[..k] + [links[k]];
    ghost var before := db.rows;
    raised := CrawlLink(db, web, lib, links[k]);
    PrefixKeepsUrls(before, db.rows);
    assert rows0 <= db.rows;
    forall i | |rows0| <= i < |db.rows|
      ensures Level2Row(db.rows[i], web.pages, lib) && db.rows[i].url in links
    {
      if i < |before| {
        assert db.rows[i] == before[i];
      }
    }
    if db.connected && !raised {
      forall j | 0 <= j < k + 1 && web.pages(links[j]).Some?
        ensures HasUrl(db.rows, links[j])
      {
        if j < k {
          assert HasUrl(before, links[j]);
        }
      }
    } else if raised {
      assert db.rows == before;
    }
  }

  /** `find_emails_2_level_deep(url)`: the emails of the page at `url`; when
      there are none, every candidate link of that page is fetched (in set
      order) and each one that answers is enqueued with the emails found on
      it, until `enqueue` raises. */
  method FindEmails2LevelDeep(db: CrawlerDb, web: Web, lib: Library, url: string) returns (emails: set<string>, raised: bool)
    requires db.Valid()
    modifies db, web
    ensures db.Valid() && db.connected == old(db.connected)
    ensures emails == FindEmailsInHtml(web.pages(url))
    ensures old(web.requests) + [url] <= web.requests <=
      old(web.requests) + [url] + if emails == {} then Level2Links(web.pages, lib, url) else []
    ensures !raised ==>
      web.requests == old(web.requests) + [url] + if emails == {} then Level2Links(web.pages, lib, url) else []
    ensures raised ==> db.connected && Level2Raises(web.pages, lib, url)
    ensures raised ==> exists k ::
      StoppedAtLink(db.rows, old(web.requests) + [url], web.requests, web.pages, lib, Level2Links(web.pages, lib, url), k)
    ensures emails != {} ==> db.rows == old(db.rows) && !raised
    ensures old(db.rows) <= db.rows
    ensures forall i :: |old(db.rows)| <= i < |db.rows| ==>
      Level2Row(db.rows[i], web.pages, lib) && db.rows[i].url in Level2Links(web.pages, lib, url)
    ensures db.connected && emails == {} && !raised ==>
      forall link :: link in Level2Links(web.pages, lib, url) && web.pages(link).Some? ==> HasUrl(db.rows, link)
  {
    var html := web.Retrieve(url);
    emails := FindEmailsInHtml(html);
    if emails != {} {
      return emails, false;
    }
    var links := lib.listOf(FindLinksWithSameHostname(lib, url, html));
    assert links == Level2Links(web.pages, lib, url);
    raised := CrawlLinks(db, web, lib, links);
    if raised {
      var j :| 0 <= j < |links| && LinkRaises(web.pages, lib, links[j]);
      assert links[j] in Level2Links(web.pages, lib, url);
    } else if db.connected {
      forall link | link in links && web.pages(link).Some? ensures HasUrl(db.rows, link) {
        var j :| 0 <= j < |links| && links[j] == link;
      }
    }
  }

  /** With set order an enumeration, level 2 follows exactly the candidate
      links of the page: a page that does not answer is fetched alone, and a
      row added at level 2 is a candidate link. */
  lemma Level2FollowsCandidates(lib: Library, url: string, html: Option<string>, link: string)
    requires ListsSets(lib)
    ensures html.None? ==> lib.listOf(FindLinksWithSameHostname(lib, url, html)) == []
    ensures link in lib.listOf(FindLinksWithSameHostname(lib, url, html)) <==> link in FindLinksWithSameHostname(lib, url, html)
  {
    var links := lib.listOf(FindLinksWithSameHostname(lib, url, html));
    assert Enumerates(links, FindLinksWithSameHostname(lib, url, html));
    EnumerationSize(links, FindLinksWithSameHostname(lib, url, html));
  }

  /** `href` goes through `urljoin`, which gives back a link with a byte
      above 0x7f. */
  predicate JoinedNonAscii(lib: Library, url: string, href: string) {
    && !StartsWith(href, "/") && !StartsWith(href, "http") && !StartsWith(href, "#")
    && lib.urljoin(url, href).Some? && !IsAscii(lib.urljoin(url, href).value)
  }

  /** With set order an enumeration, an `enqueue` at level 2 can only raise
      on a link that `urljoin` produced with a byte above 0x7f: the stored
      email text is 7-bit, and so is every other candidate of a page whose
      netloc is. (The `ValueError` of `urllib2.Request` is not modelled.) */
  lemma Level2RaiseNeedsJoinedHref(pages: string -> Option<string>, lib: Library, url: string)
    requires ListsSets(lib) && IsAscii(lib.netloc(url))
    requires Level2Raises(pages, lib, url)
    ensures pages(url).Some?
    ensures exists k :: 0 <= k < |lib.anchorHrefs(pages(url).value)| && JoinedNonAscii(lib, url, lib.anchorHrefs(pages(url).value)[k])
  {
    var link :| link in Level2Links(pages, lib, url) && LinkRaises(pages, lib, link);
    Level2FollowsCandidates(lib, url, pages(url), link);
    ListedEmailsAreAscii(lib, pages(link));
    var hrefs := lib.anchorHrefs(pages(url).value);
    LinksFromMembership(lib, url, hrefs, link);
    var k :| 0 <= k < |hrefs| && ClassifyLink(lib, url, hrefs[k]) == Some(link);
    NonAsciiCandidateWasJoined(lib, url, hrefs[k]);
  }

  /** `for url in urls: db.enqueue(url)`, the seeding of the frontier from
      one list of search results; the first new url with a byte above 0x7f
      raises, after the urls before it are in the table and before any url
      after it is enqueued. */
  method EnqueueEach(db: CrawlerDb, urls: seq<string>) returns (raised: bool)
    requires db.Valid()
    modifies db
    ensures db.Valid() && db.connected == old(db.connected)
    ensures raised <==> db.connected && exists k :: 0 <= k < |urls| && !IsAscii(urls[k])
    ensures raised ==> exists k :: EnqueueRaisedAt(old(db.rows), db.rows, urls, k)
    ensures old(db.rows) <= db.rows
    ensures forall i :: |old(db.rows)| <= i < |db.rows| ==>
      !db.rows[i].hasCrawled && db.rows[i].emails == None && db.rows[i].url in urls
    ensures db.connected && !raised ==> forall k :: 0 <= k < |urls| ==> HasUrl(db.rows, urls[k])
  {
    ghost var rows0 := db.rows;
    raised := false;
    var k := 0;
    while k < |urls| && !raised
      invariant 0 <= k <= |urls|
      invariant db.Valid() && db.connected == old(db.connected)
      invariant EnqueuedUpTo(rows0, db.rows, urls, k, db.connected, raised)
    {
      raised := EnqueueAt(db, urls, k, rows0);
      k := k + 1;
    }
    EnqueuedAll(rows0, db.rows, urls, k, db.connected, raised);
  }

  /** Enqueueing `urls` in order stopped at `urls[k]`, the first of them
      with a byte above 0x7f: every url before it is 7-bit and in the
      table. */
  ghost predicate EnqueueStoppedAt(rows: seq<Website>, urls: seq<string>, k: nat) {
    && k < |urls| && !IsAscii(urls[k])
    && forall j :: 0 <= j < k ==> IsAscii(urls[j]) && HasUrl(rows, urls[j])
  }

  /** ... and every row added since `rows0` is for a url before it, so none
      is for `urls[k]` or a url after it. */
  ghost predicate EnqueueRaisedAt(rows0: seq<Website>, rows: seq<Website>, urls: seq<string>, k: nat) {
    && EnqueueStoppedAt(rows, urls, k)
    && forall i :: |rows0| <= i < |rows| ==> rows[i].url in urls[..k]
  }

  /** What the seeding loop over `urls` has done after `urls[..k]`: the rows
      grew by uncrawled rows of those urls; without a raise each of them is
      7-bit and stored, and a raise came from the last one. */
  ghost predicate EnqueuedUpTo(rows0: seq<Website>, rows: seq<Website>, urls: seq<string>, k: nat, connected: bool, raised: bool) {
    && k <= |urls|
    && rows0 <= rows
    && (forall i :: |rows0| <= i < |rows| ==> !rows[i].hasCrawled && rows[i].emails == None && rows[i].url in urls[..k])
    && (raised ==> connected && 0 < k && EnqueueRaisedAt(rows0, rows, urls, k - 1))
    && (connected && !raised ==> forall j :: 0 <= j < k ==> IsAscii(urls[j]) && HasUrl(rows, urls[j]))
  }

  /** One turn of the seeding loop: `enqueue(urls[k])`. */
  method EnqueueAt(db: CrawlerDb, urls: seq<string>, k: nat, ghost rows0: seq<Website>) returns (raised: bool)
    requires db.Valid() && k < |urls|
    requires EnqueuedUpTo(rows0, db.rows, urls, k, db.connected, false)
    modifies db
    ensures db.Valid() && db.connected == old(db.connected)
    ensures EnqueuedUpTo(rows0, db.rows, urls, k + 1, db.connected, raised)
  {
    ghost var before := db.rows;
    ghost var nextId := db.nextId;
    var r := db.Enqueue(urls[k], None);
    raised := r == EncodeError;
    if db.connected && HasUrl(before, urls[k]) {
      StoredUrlIsAscii(before, nextId, urls[k]);
    }
    PrefixKeepsUrls(before, db.rows);
    assert urls[..k + 1] == urls[..k] + [urls[k]];
    forall i | |rows0| <= i < |db.rows|
      ensures !db.rows[i].hasCrawled && db.rows[i].emails == None && db.rows[i].url in urls[..k + 1]
    {
      if i < |before| {
        assert db.rows[i] == before[i];
      }
    }
    if raised {
      assert db.rows == before;
    } else if db.connected {
      forall j | 0 <= j < k + 1 ensures IsAscii(urls[j]) && HasUrl(db.rows, urls[j]) {
        if j < k {
          assert HasUrl(before, urls[j]);
        }
      }
    }
  }

  /** When the seeding loop over `urls` ends, after the last url or at a
      raise, what it has done to the table. */
  lemma EnqueuedAll(rows0: seq<Website>, rows: seq<Website>, urls: seq<string>, k: nat, connected: bool, raised: bool)
    requires EnqueuedUpTo(rows0, rows, urls, k, connected, raised)
    requires k == |urls| || raised
    ensures raised <==> connected && exists j :: 0 <= j < |urls| && !IsAscii(urls[j])
    ensures raised ==> exists j :: EnqueueRaisedAt(rows0, rows, urls, j)
    ensures forall i :: |rows0| <= i < |rows| ==>
      !rows[i].hasCrawled && rows[i].emails == None && rows[i].url in urls
    ensures connected && !raised ==> forall j :: 0 <= j < |urls| ==> HasUrl(rows, urls[j])
  {
    if raised {
      assert !IsAscii(urls[k - 1]);
    } else {
      assert urls[..k] == urls;
    }
  }

  // ---------------------------------------------------------------------
  // Draining the frontier
  // ---------------------------------------------------------------------

  /** What the drain keeps true of the table since it started from `rows0`:
      the table grows, every originally uncrawled row that is now crawled
      holds the level-1 outcome, and every added row is a level-2 row. */
  ghost predicate DrainInvariant(rows0: seq<Website>, rows: seq<Website>, pages: string -> Option<string>, lib: Library) {
    && Grows(rows0, rows)
    && (forall i :: 0 <= i < |rows0| && !rows0[i].hasCrawled && rows[i].hasCrawled ==> Level1Outcome(rows[i], pages, lib))
    && (forall i :: |rows0| <= i < |rows| ==> Level2Row(rows[i], pages, lib))
  }

  /** Appending level-2 rows keeps the drain invariant and the number of
      uncrawled rows. */
  lemma AppendLevel2Rows(rows0: seq<Website>, rows1: seq<Website>, rows2: seq<Website>, pages: string -> Option<string>, lib: Library)
    requires DrainInvariant(rows0, rows1, pages, lib)
    requires rows1 <= rows2
    requires forall i :: |rows1| <= i < |rows2| ==> Level2Row(rows2[i], pages, lib)
    ensures DrainInvariant(rows0, rows2, pages, lib)
    ensures UncrawledCount(rows2) == UncrawledCount(rows1)
  {
    UncrawledCountCrawledSuffix(rows2, |rows1|);
    assert rows2[..|rows1|] == rows1;
  }

  /** Marking an originally uncrawled row with its level-1 outcome keeps the
      drain invariant and removes one uncrawled row. */
  lemma MarkLevel1Row(rows0: seq<Website>, rows: seq<Website>, idx: nat, e: Option<string>, pages: string -> Option<string>, lib: Library)
    requires DrainInvariant(rows0, rows, pages, lib)
    requires idx < |rows| && !rows[idx].hasCrawled
    requires Level1Outcome(rows[idx].(hasCrawled := true, emails := e), pages, lib)
    ensures DrainInvariant(rows0, rows[idx := rows[idx].(hasCrawled := true, emails := e)], pages, lib)
    ensures UncrawledCount(rows[idx := rows[idx].(hasCrawled := true, emails := e)]) + 1 == UncrawledCount(rows)
  {
    UncrawledCountAfterMark(rows, idx, e);
  }

  /** One turn of the drain loop for the dequeued row at `idx`: look for
      emails two levels deep from its url, then mark it crawled with the
      list of the emails found at level 1 joined with commas, or with none.
      When level 2 raises, the row stays uncrawled. */
  method CrawlRow(db: CrawlerDb, web: Web, lib: Library, website: Website, ghost idx: nat, ghost rows0: seq<Website>) returns (raised: bool)
    requires db.Valid() && db.connected
    requires idx < |db.rows| && db.rows[idx] == website && !website.hasCrawled
    requires DrainInvariant(rows0, db.rows, web.pages, lib)
    modifies db, web
    ensures db.Valid() && db.connected
    ensures DrainInvariant(rows0, db.rows, web.pages, lib)
    ensures old(web.requests) <= web.requests
    ensures !raised ==> UncrawledCount(db.rows) + 1 == UncrawledCount(old(db.rows))
    ensures raised ==> idx < |db.rows| && db.rows[idx] == website && Level2Raises(web.pages, lib, website.url)
    ensures ListsSets(lib) && NetworkDown(web.pages) ==>
      !raised && |db.rows| == |old(db.rows)| && |web.requests| == |old(web.requests)| + 1
  {
    ghost var rows1 := db.rows;
    var emailSet;
    emailSet, raised := FindEmails2LevelDeep(db, web, lib, website.url);
    ghost var rows2 := db.rows;
    AppendLevel2Rows(rows0, rows1, rows2, web.pages, lib);
    assert rows2[idx] == website;
    if !raised {
      MarkRowCrawled(db, lib, website, emailSet, idx, rows0, web.pages);
      if ListsSets(lib) && NetworkDown(web.pages) {
        Level2FollowsCandidates(lib, website.url, web.pages(website.url), "");
      }
    }
  }

  /** The end of a drain turn: `crawled(website, new_emails)` with the list
      of the level-1 emails joined with commas, or with none. */
  method MarkRowCrawled(db: CrawlerDb, lib: Library, website: Website, emailSet: set<string>, ghost idx: nat,
                        ghost rows0: seq<Website>, ghost pages: string -> Option<string>)
    requires db.Valid() && db.connected
    requires idx < |db.rows| && db.rows[idx] == website && !website.hasCrawled
    requires emailSet == FindEmailsInHtml(pages(website.url))
    requires DrainInvariant(rows0, db.rows, pages, lib)
    modifies db
    ensures db.Valid() && db.connected
    ensures DrainInvariant(rows0, db.rows, pages, lib)
    ensures |db.rows| == |old(db.rows)| && db.rows[idx].hasCrawled
    ensures UncrawledCount(db.rows) + 1 == UncrawledCount(old(db.rows))
  {
    var stored := if |emailSet| > 0 then Some(Join(lib.listOf(emailSet), ',')) else None;
    MarkCrawledAt(db.rows, db.nextId, idx, stored);
    MarkLevel1Row(rows0, db.rows, idx, stored, pages, lib);
    db.Crawled(website, stored);
  }

  /** Some row is still uncrawled because level 2 raised on its page. */
  ghost predicate RaisedAtLevel2(rows: seq<Website>, pages: string -> Option<string>, lib: Library) {
    exists i :: 0 <= i < |rows| && !rows[i].hasCrawled && Level2Raises(pages, lib, rows[i].url)
  }

  /** Step 2 of `crawl`: dequeue uncrawled rows until there are none, look
      for emails two levels deep from each, and mark it crawled with what
      level 1 found. The loop ends with every row crawled, or when level 2
      raises and leaves the row it was working on uncrawled. A row that was
      uncrawled and is now crawled holds its level-1 outcome, and every row
      added on the way is a level-2 row. */
  method Drain(db: CrawlerDb, web: Web, lib: Library) returns (raised: bool)
    requires db.Valid()
    modifies db, web
    ensures db.Valid() && db.connected == old(db.connected)
    ensures DrainInvariant(old(db.rows), db.rows, web.pages, lib)
    ensures db.connected && !raised ==> AllCrawled(db.rows)
    ensures raised ==> db.connected && RaisedAtLevel2(db.rows, web.pages, lib)
    ensures !db.connected ==> db.rows == old(db.rows) && web.requests == old(web.requests) && !raised
    ensures old(web.requests) <= web.requests
    ensures ListsSets(lib) && NetworkDown(web.pages) ==>
      !raised && |db.rows| == |old(db.rows)| &&
      |web.requests| == |old(web.requests)| + (if db.connected then UncrawledCount(old(db.rows)) else 0)
  {
    ghost var rows0 := db.rows;
    ghost var requests0 := web.requests;
    raised := false;
    while true
      invariant db.Valid() && db.connected == old(db.connected)
      invariant !raised
      invariant DrainInvariant(rows0, db.rows, web.pages, lib)
      invariant !db.connected ==> db.rows == rows0 && web.requests == requests0
      invariant requests0 <= web.requests
      invariant ListsSets(lib) && NetworkDown(web.pages) ==>
        |db.rows| == |rows0| && |web.requests| + UncrawledCount(db.rows) == |requests0| + UncrawledCount(rows0)
      decreases UncrawledCount(db.rows)
    {
      var uncrawled := db.Dequeue();
      if uncrawled.None? {
        if db.connected {
          UncrawledCountZeroIff(db.rows);
        }
        break;
      }
      var website := uncrawled.value;
      ghost var idx :| 0 <= idx < |db.rows| && db.rows[idx] == website;
      raised := CrawlRow(db, web, lib, website, idx, rows0);
      if raised {
        assert !db.rows[idx].hasCrawled && Level2Raises(web.pages, lib, db.rows[idx].url);
        return;
      }
    }
  }

  /** What the drain promises for the rows it started from: each row that
      was uncrawled now holds its level-1 outcome. */
  lemma DrainedRowsHoldLevel1(rows0: seq<Website>, rows: seq<Website>, pages: string -> Option<string>, lib: Library)
    requires DrainInvariant(rows0, rows, pages, lib) && AllCrawled(rows)
    ensures forall i :: 0 <= i < |rows0| && !rows0[i].hasCrawled ==> Level1Outcome(rows[i], pages, lib)
  {
  }

  // ---------------------------------------------------------------------
  // The crawl
  // ---------------------------------------------------------------------

  /** The search results page for `keywords` starting at result `offset`. */
  function SearchUrl(lib: Library, keywords: string, offset: nat): string {
    "http://www.google.com/search?" + lib.encodeQuery(keywords) + "&start=" + NatToString(offset)
  }

  /** The first `n` search result pages, in the order `crawl` fetches them. */
  function SearchUrls(lib: Library, keywords: string, n: nat): seq<string> {
    seq(n, q requires 0 <= q < n => SearchUrl(lib, keywords, 10 * q))
  }

  /** One more page of results is one more url at the end. */
  lemma SearchUrlsStep(lib: Library, keywords: string, n: nat)
    ensures SearchUrls(lib, keywords, n + 1) == SearchUrls(lib, keywords, n) + [SearchUrl(lib, keywords, 10 * n)]
  {
  }

  /** `range(start, stop, step)` counts up from `start` in steps of `step`
      and stops at the first value not below `stop`. */
  lemma {:induction false} RangeIsArithmetic(start: int, stop: int, step: nat)
    requires step > 0
    ensures forall k :: 0 <= k < |Range(start, stop, step)| ==> Range(start, stop, step)[k] == start + k * step < stop
    ensures stop <= start + |Range(start, stop, step)| * step
    decreases stop - start
  {
    if start < stop {
      var r := Range(start, stop, step);
      var rest := Range(start + step, stop, step);
      RangeIsArithmetic(start + step, stop, step);
      assert r == [start] + rest;
      forall k | 1 <= k < |r| ensures r[k] == start + k * step {
        assert r[k] == rest[k - 1];
        assert (k - 1) * step + step == k * step;
      }
      assert start + step + |rest| * step == start + |r| * step;
    }
  }

  /** The offsets `crawl` pages through: 0, 10, ..., 490. */
  lemma SearchOffsetsAreFiftyPages()
    ensures |Range(0, MaxSearchResults, 10)| == 50
    ensures forall q :: 0 <= q < 50 ==> Range(0, MaxSearchResults, 10)[q] == 10 * q
  {
    var r := Range(0, MaxSearchResults, 10);
    RangeIsArithmetic(0, MaxSearchResults, 10);
    if |r| > 0 {
      assert r[|r| - 1] == 10 * (|r| - 1) < 500;
    }
  }

  /** The fifty pages `crawl` fetches are those of the offsets in
      `range(0, MAX_SEARCH_RESULTS, 10)`, in that order. */
  lemma SearchUrlsFollowRange(lib: Library, keywords: string)
    ensures |SearchUrls(lib, keywords, 50)| == |Range(0, MaxSearchResults, 10)|
    ensures forall k :: 0 <= k < |Range(0, MaxSearchResults, 10)| ==>
      && Range(0, MaxSearchResults, 10)[k] >= 0
      && SearchUrls(lib, keywords, 50)[k] == SearchUrl(lib, keywords, Range(0, MaxSearchResults, 10)[k])
  {
    SearchOffsetsAreFiftyPages();
  }

  /** The result links, then the ad links, one search page lists. */
  function PageUrls(lib: Library, html: string): set<string> {
    (set u | u in lib.resultUrls(html)) + (set u | u in lib.adUrls(html))
  }

  /** Every link a search page lists is 7-bit, so enqueueing it cannot
      raise. */
  predicate PageUrlsAscii(lib: Library, html: string) {
    forall u :: u in PageUrls(lib, html) ==> IsAscii(u)
  }

  /** Search page `q` answers, and (when the table is reachable, so that
      `enqueue` gets as far as `unicode(url)`) every link it lists is
      7-bit. */
  ghost predicate SearchPageSeeds(pages: string -> Option<string>, lib: Library, keywords: string, q: nat, connected: bool) {
    && pages(SearchUrl(lib, keywords, 10 * q)).Some?
    && (connected ==> PageUrlsAscii(lib, pages(SearchUrl(lib, keywords, 10 * q)).value))
  }

  /** The first `n` search pages seed the frontier without raising. */
  ghost predicate SeedingSucceeds(pages: string -> Option<string>, lib: Library, keywords: string, n: nat, connected: bool) {
    forall q :: 0 <= q < n ==> SearchPageSeeds(pages, lib, keywords, q, connected)
  }

  /** The urls the first `n` search pages seed the frontier with: the result
      links, then the ad links, of each page that answered. */
  ghost function SeedUrls(pages: string -> Option<string>, lib: Library, keywords: string, n: nat): set<string> {
    if n == 0 then {}
    else
      SeedUrls(pages, lib, keywords, n - 1) +
      match pages(SearchUrl(lib, keywords, 10 * (n - 1)))
      case None => {}
      case Some(h) => PageUrls(lib, h)
  }

  /** How `crawl` ends: it runs to completion; the search page with index
      `page` (results from offset `10 * page` on) did not answer and
      `findall(None)` raised; a link listed on that page made `enqueue`
      raise; or `enqueue` raised at level 2 during the drain. */
  datatype CrawlOutcome = Finished | SearchPageFailed(page: nat) | SearchUrlNotAscii(page: nat) | LinkNotAscii

  /** The seeding stopped at a search page. */
  predicate SeedingStopped(outcome: CrawlOutcome) {
    outcome.SearchPageFailed? || outcome.SearchUrlNotAscii?
  }

  /** How many search pages were fully seeded. */
  function PagesRead(outcome: CrawlOutcome): nat {
    if SeedingStopped(outcome) then outcome.page else 50
  }

  /** How many search pages were fetched. */
  function PagesFetched(outcome: CrawlOutcome): nat {
    if SeedingStopped(outcome) then outcome.page + 1 else 50
  }

  /** The links one search page lists, in the order `crawl` enqueues them:
      the result links, then the ad links. */
  function PageList(lib: Library, html: string): seq<string> {
    lib.resultUrls(html) + lib.adUrls(html)
  }

  /** A raise in the first of two lists is a raise in the two together. */
  lemma RaisedInFirst(rows0: seq<Website>, rows: seq<Website>, a: seq<string>, b: seq<string>, k: nat)
    requires EnqueueRaisedAt(rows0, rows, a, k)
    ensures EnqueueRaisedAt(rows0, rows, a + b, k)
  {
    assert (a + b)[..k] == a[..k];
  }

  /** A raise in the second of two lists, after the first was stored whole,
      is a raise in the two together. */
  lemma RaisedInSecond(rows0: seq<Website>, mid: seq<Website>, rows: seq<Website>, a: seq<string>, b: seq<string>, k: nat)
    requires rows0 <= mid <= rows
    requires forall j :: 0 <= j < |a| ==> IsAscii(a[j]) && HasUrl(mid, a[j])
    requires forall i :: |rows0| <= i < |mid| ==> mid[i].url in a
    requires EnqueueRaisedAt(mid, rows, b, k)
    ensures EnqueueRaisedAt(rows0, rows, a + b, |a| + k)
  {
    PrefixKeepsUrls(mid, rows);
    assert (a + b)[..|a| + k] == a + b[..k];
    forall j | 0 <= j < |a| + k ensures IsAscii((a + b)[j]) && HasUrl(rows, (a + b)[j]) {
      if j < |a| {
        assert HasUrl(mid, a[j]);
      } else {
        assert (a + b)[j] == b[j - |a|];
      }
    }
    forall i | |rows0| <= i < |rows| ensures rows[i].url in (a + b)[..|a| + k] {
      if i < |mid| {
        assert rows[i] == mid[i];
      }
    }
  }

  /** `for url in results: db.enqueue(url)` and the same for the ad links,
      for one search page; the first new link with a byte above 0x7f
      raises, after the links before it are in the table and before any
      link after it, ad links included, is enqueued. */
  method EnqueuePage(db: CrawlerDb, lib: Library, html: string) returns (raised: bool)
    requires db.Valid()
    modifies db
    ensures db.Valid() && db.connected == old(db.connected)
    ensures raised <==> db.connected && !PageUrlsAscii(lib, html)
    ensures raised ==> exists k :: EnqueueRaisedAt(old(db.rows), db.rows, PageList(lib, html), k)
    ensures old(db.rows) <= db.rows
    ensures forall i :: |old(db.rows)| <= i < |db.rows| ==>
      !db.rows[i].hasCrawled && db.rows[i].emails == None && db.rows[i].url in PageUrls(lib, html)
    ensures db.connected && !raised ==> forall u :: u in PageUrls(lib, html) ==> HasUrl(db.rows, u)
  {
    raised := EnqueueEach(db, lib.resultUrls(html));
    ghost var mid := db.rows;
    if raised {
      PageRaisedInResults(old(db.rows), db.rows, lib, html);
    } else {
      raised := EnqueueEach(db, lib.adUrls(html));
      PageEnqueued(old(db.rows), mid, db.rows, lib, html, db.connected, raised);
    }
  }

  /** A result link of the page raised: the page lists a link with a byte
      above 0x7f, and the raise stopped the page's links there. */
  lemma PageRaisedInResults(rows0: seq<Website>, rows: seq<Website>, lib: Library, html: string)
    requires rows0 <= rows
    requires exists k :: EnqueueRaisedAt(rows0, rows, lib.resultUrls(html), k)
    requires forall i :: |rows0| <= i < |rows| ==>
      !rows[i].hasCrawled && rows[i].emails == None && rows[i].url in lib.resultUrls(html)
    ensures !PageUrlsAscii(lib, html)
    ensures exists k :: EnqueueRaisedAt(rows0, rows, PageList(lib, html), k)
    ensures forall i :: |rows0| <= i < |rows| ==>
      !rows[i].hasCrawled && rows[i].emails == None && rows[i].url in PageUrls(lib, html)
  {
    var k: nat :| EnqueueRaisedAt(rows0, rows, lib.resultUrls(html), k);
    assert lib.resultUrls(html)[k] in PageUrls(lib, html);
    RaisedInFirst(rows0, rows, lib.resultUrls(html), lib.adUrls(html), k);
    assert EnqueueRaisedAt(rows0, rows, PageList(lib, html), k);
  }

  /** The result links of the page were all enqueued without a raise, then
      the ad links were: what the page did to the table. */
  lemma PageEnqueued(rows0: seq<Website>, mid: seq<Website>, rows: seq<Website>, lib: Library, html: string,
                     connected: bool, raised: bool)
    requires rows0 <= mid <= rows
    requires !(connected && exists k :: 0 <= k < |lib.resultUrls(html)| && !IsAscii(lib.resultUrls(html)[k]))
    requires connected ==> forall k :: 0 <= k < |lib.resultUrls(html)| ==> HasUrl(mid, lib.resultUrls(html)[k])
    requires forall i :: |rows0| <= i < |mid| ==>
      !mid[i].hasCrawled && mid[i].emails == None && mid[i].url in lib.resultUrls(html)
    requires raised <==> connected && exists k :: 0 <= k < |lib.adUrls(html)| && !IsAscii(lib.adUrls(html)[k])
    requires raised ==> exists k :: EnqueueRaisedAt(mid, rows, lib.adUrls(html), k)
    requires forall i :: |mid| <= i < |rows| ==>
      !rows[i].hasCrawled && rows[i].emails == None && rows[i].url in lib.adUrls(html)
    requires connected && !raised ==> forall k :: 0 <= k < |lib.adUrls(html)| ==> HasUrl(rows, lib.adUrls(html)[k])
    ensures raised <==> connected && !PageUrlsAscii(lib, html)
    ensures raised ==> exists k :: EnqueueRaisedAt(rows0, rows, PageList(lib, html), k)
    ensures forall i :: |rows0| <= i < |rows| ==>
      !rows[i].hasCrawled && rows[i].emails == None && rows[i].url in PageUrls(lib, html)
    ensures connected && !raised ==> forall u :: u in PageUrls(lib, html) ==> HasUrl(rows, u)
  {
    PrefixKeepsUrls(mid, rows);
    forall i | |rows0| <= i < |rows|
      ensures !rows[i].hasCrawled && rows[i].emails == None && rows[i].url in PageUrls(lib, html)
    {
      if i < |mid| {
        assert rows[i] == mid[i];
      }
    }
    if raised {
      var k :| 0 <= k < |lib.adUrls(html)| && !IsAscii(lib.adUrls(html)[k]);
      assert lib.adUrls(html)[k] in PageUrls(lib, html);
      var j: nat :| EnqueueRaisedAt(mid, rows, lib.adUrls(html), j);
      RaisedInSecond(rows0, mid, rows, lib.resultUrls(html), lib.adUrls(html), j);
      assert EnqueueRaisedAt(rows0, rows, PageList(lib, html), |lib.resultUrls(html)| + j);
    } else if connected {
      forall u | u in PageUrls(lib, html) ensures HasUrl(rows, u) && IsAscii(u) {
        if u in lib.resultUrls(html) {
          var k :| 0 <= k < |lib.resultUrls(html)| && lib.resultUrls(html)[k] == u;
          assert HasUrl(mid, u);
        } else {
          var k :| 0 <= k < |lib.adUrls(html)| && lib.adUrls(html)[k] == u;
        }
      }
    }
  }

  /** Enqueueing the links of one more answered search page extends the set
      of seeded urls the table holds. */
  lemma SeedStep(before: seq<Website>, after: seq<Website>, pages: string -> Option<string>, lib: Library, keywords: string, q: nat, html: string)
    requires pages(SearchUrl(lib, keywords, 10 * q)) == Some(html)
    requires forall u :: u in SeedUrls(pages, lib, keywords, q) ==> HasUrl(before, u)
    requires Grows(before, after)
    requires forall u :: u in PageUrls(lib, html) ==> HasUrl(after, u)
    ensures forall u :: u in SeedUrls(pages, lib, keywords, q + 1) ==> HasUrl(after, u)
  {
    forall u | u in SeedUrls(pages, lib, keywords, q + 1) ensures HasUrl(after, u) {
      if u in SeedUrls(pages, lib, keywords, q) {
        GrowsKeepsUrls(before, after, u);
      }
    }
  }

  /** Rows seeded from the first `q` pages, followed by rows enqueued from
      the links of page `q`, are all rows seeded from the first `q + 1`
      pages; a page that does not answer adds no seed url. */
  lemma SeededRowsStep(rows0: seq<Website>, before: seq<Website>, after: seq<Website>,
                       pages: string -> Option<string>, lib: Library, keywords: string, q: nat)
    requires rows0 <= before <= after
    requires forall i :: |rows0| <= i < |before| ==> SeededRow(before[i], pages, lib, keywords, q)
    requires |before| < |after| ==> pages(SearchUrl(lib, keywords, 10 * q)).Some?
    requires forall i :: |before| <= i < |after| ==>
      !after[i].hasCrawled && after[i].emails == None && after[i].url in PageUrls(lib, pages(SearchUrl(lib, keywords, 10 * q)).value)
    ensures rows0 <= after
    ensures forall i :: |rows0| <= i < |after| ==> SeededRow(after[i], pages, lib, keywords, q + 1)
  {
    forall i | |rows0| <= i < |after| ensures SeededRow(after[i], pages, lib, keywords, q + 1) {
      if i < |before| {
        assert after[i] == before[i];
      }
    }
  }

  /** A row the seeding added from the first `q` search pages. */
  ghost predicate SeededRow(row: Website, pages: string -> Option<string>, lib: Library, keywords: string, q: nat) {
    !row.hasCrawled && row.emails == None && row.url in SeedUrls(pages, lib, keywords, q)
  }

  /** The seeding has fetched the first `q` search pages and enqueued the
      links they list. */
  ghost predicate SeededUpTo(rows0: seq<Website>, rows: seq<Website>, requests0: seq<string>, requests: seq<string>,
                             pages: string -> Option<string>, lib: Library, keywords: string, q: nat, connected: bool) {
    && rows0 <= rows
    && (forall i :: |rows0| <= i < |rows| ==> SeededRow(rows[i], pages, lib, keywords, q))
    && SeedingSucceeds(pages, lib, keywords, q, connected)
    && requests == requests0 + SearchUrls(lib, keywords, q)
    && (connected ==> forall u :: u in SeedUrls(pages, lib, keywords, q) ==> HasUrl(rows, u))
  }

  /** How the seeding ends when search page `q` stops it: the pages before
      it seeded, this one did not, it was requested, and the rows enqueued
      until then stay. */
  ghost predicate StoppedAt(rows0: seq<Website>, rows: seq<Website>, requests0: seq<string>, requests: seq<string>,
                            pages: string -> Option<string>, lib: Library, keywords: string, q: nat, connected: bool,
                            outcome: CrawlOutcome) {
    && SeedingStopped(outcome) && outcome.page == q
    && SeedingSucceeds(pages, lib, keywords, q, connected)
    && !SearchPageSeeds(pages, lib, keywords, q, connected)
    && (outcome.SearchPageFailed? ==> pages(SearchUrl(lib, keywords, 10 * q)).None?)
    && (outcome.SearchUrlNotAscii? ==> connected && RaisedOnPage(rows0, rows, pages, lib, keywords, q))
    && requests == requests0 + SearchUrls(lib, keywords, q + 1)
    && rows0 <= rows
    && (forall i :: |rows0| <= i < |rows| ==> SeededRow(rows[i], pages, lib, keywords, q + 1))
    && (connected ==> forall u :: u in SeedUrls(pages, lib, keywords, q) ==> HasUrl(rows, u))
  }

  /** Search page `q` answered and one of its links made `enqueue` raise:
      the links before it, in the order they are enqueued, are 7-bit and in
      the table, and every row added since `rows0` is for a link of an
      earlier page or for a link before the one that raised. */
  ghost predicate RaisedOnPage(rows0: seq<Website>, rows: seq<Website>, pages: string -> Option<string>, lib: Library,
                               keywords: string, q: nat) {
    && pages(SearchUrl(lib, keywords, 10 * q)).Some?
    && exists k :: RaisedOnPageAt(rows0, rows, pages, lib, keywords, q, PageList(lib, pages(SearchUrl(lib, keywords, 10 * q)).value), k)
  }

  /** `RaisedOnPage`, with the list of the page's links and the index of the
      one that raised. */
  ghost predicate RaisedOnPageAt(rows0: seq<Website>, rows: seq<Website>, pages: string -> Option<string>, lib: Library,
                                 keywords: string, q: nat, links: seq<string>, k: nat) {
    && EnqueueStoppedAt(rows, links, k)
    && forall i :: |rows0| <= i < |rows| ==> rows[i].url in SeedUrls(pages, lib, keywords, q) || rows[i].url in links[..k]
  }

  /** One turn of the seeding loop: fetch search page `q` and enqueue the
      links it lists. `None` means the loop goes on; otherwise the seeding
      stops at this page. */
  method SeedPage(db: CrawlerDb, web: Web, lib: Library, keywords: string, q: nat,
                  ghost rows0: seq<Website>, ghost requests0: seq<string>) returns (stop: Option<CrawlOutcome>)
    requires db.Valid()
    requires SeededUpTo(rows0, db.rows, requests0, web.requests, web.pages, lib, keywords, q, db.connected)
    modifies db, web
    ensures db.Valid() && db.connected == old(db.connected)
    ensures stop.None? ==> SeededUpTo(rows0, db.rows, requests0, web.requests, web.pages, lib, keywords, q + 1, db.connected)
    ensures stop.Some? ==> StoppedAt(rows0, db.rows, requests0, web.requests, web.pages, lib, keywords, q, db.connected, stop.value)
  {
    var url := SearchUrl(lib, keywords, 10 * q);
    var data := web.Retrieve(url);
    if data.None? {
      stop := Some(SearchPageFailed(q));
      SeedingStopsAt(rows0, db.rows, db.rows, requests0, web.requests, web.pages, lib, keywords, q, db.connected, stop.value);
    } else {
      var raised := EnqueuePage(db, lib, data.value);
      if raised {
        stop := Some(SearchUrlNotAscii(q));
        SeedingStopsAt(rows0, old(db.rows), db.rows, requests0, web.requests, web.pages, lib, keywords, q, db.connected, stop.value);
      } else {
        stop := None;
        SeedingGoesOn(rows0, old(db.rows), db.rows, requests0, web.requests, web.pages, lib, keywords, q, db.connected);
      }
    }
  }

  /** Search page `q` answered and its links were all enqueued: the first
      `q + 1` pages are seeded. */
  lemma SeedingGoesOn(rows0: seq<Website>, before: seq<Website>, after: seq<Website>, requests0: seq<string>, requests: seq<string>,
                      pages: string -> Option<string>, lib: Library, keywords: string, q: nat, connected: bool)
    requires SeededUpTo(rows0, before, requests0, requests0 + SearchUrls(lib, keywords, q), pages, lib, keywords, q, connected)
    requires requests == requests0 + SearchUrls(lib, keywords, q) + [SearchUrl(lib, keywords, 10 * q)]
    requires pages(SearchUrl(lib, keywords, 10 * q)).Some?
    requires connected ==> PageUrlsAscii(lib, pages(SearchUrl(lib, keywords, 10 * q)).value)
    requires before <= after
    requires forall i :: |before| <= i < |after| ==>
      !after[i].hasCrawled && after[i].emails == None && after[i].url in PageUrls(lib, pages(SearchUrl(lib, keywords, 10 * q)).value)
    requires connected ==> forall u :: u in PageUrls(lib, pages(SearchUrl(lib, keywords, 10 * q)).value) ==> HasUrl(after, u)
    ensures SeededUpTo(rows0, after, requests0, requests, pages, lib, keywords, q + 1, connected)
  {
    SearchUrlsStep(lib, keywords, q);
    SeededRowsStep(rows0, before, after, pages, lib, keywords, q);
    PrefixGrows(before, after);
    if connected {
      SeedStep(before, after, pages, lib, keywords, q, pages(SearchUrl(lib, keywords, 10 * q)).value);
    }
  }

  /** Search page `q` did not answer, or listed a link that made `enqueue`
      raise: the seeding stops at page `q`. */
  lemma SeedingStopsAt(rows0: seq<Website>, before: seq<Website>, after: seq<Website>, requests0: seq<string>, requests: seq<string>,
                       pages: string -> Option<string>, lib: Library, keywords: string, q: nat, connected: bool, outcome: CrawlOutcome)
    requires SeededUpTo(rows0, before, requests0, requests0 + SearchUrls(lib, keywords, q), pages, lib, keywords, q, connected)
    requires requests == requests0 + SearchUrls(lib, keywords, q) + [SearchUrl(lib, keywords, 10 * q)]
    requires outcome == SearchPageFailed(q) || outcome == SearchUrlNotAscii(q)
    requires outcome.SearchPageFailed? ==> pages(SearchUrl(lib, keywords, 10 * q)).None? && after == before
    requires outcome.SearchUrlNotAscii? ==>
      connected && pages(SearchUrl(lib, keywords, 10 * q)).Some? && !PageUrlsAscii(lib, pages(SearchUrl(lib, keywords, 10 * q)).value)
    requires outcome.SearchUrlNotAscii? ==>
      exists k :: EnqueueRaisedAt(before, after, PageList(lib, pages(SearchUrl(lib, keywords, 10 * q)).value), k)
    requires before <= after
    requires forall i :: |before| <= i < |after| ==>
      !after[i].hasCrawled && after[i].emails == None && after[i].url in PageUrls(lib, pages(SearchUrl(lib, keywords, 10 * q)).value)
    ensures StoppedAt(rows0, after, requests0, requests, pages, lib, keywords, q, connected, outcome)
  {
    SearchUrlsStep(lib, keywords, q);
    SeededRowsStep(rows0, before, after, pages, lib, keywords, q);
    PrefixKeepsUrls(before, after);
    if outcome.SearchUrlNotAscii? {
      var links := PageList(lib, pages(SearchUrl(lib, keywords, 10 * q)).value);
      var k: nat :| EnqueueRaisedAt(before, after, links, k);
      forall i | |rows0| <= i < |after|
        ensures after[i].url in SeedUrls(pages, lib, keywords, q) || after[i].url in links[..k]
      {
        if i < |before| {
          assert after[i] == before[i];
        }
      }
      assert RaisedOnPageAt(rows0, after, pages, lib, keywords, q, links, k);
    }
  }

  /** Step 1 of `crawl`: fetch the fifty search pages in order and enqueue
      every result and ad link each one lists. The loop runs over the page
      index `q`; the offset of page `q` is `10 * q`, the `q`-th value of
      `range(0, MAX_SEARCH_RESULTS, 10)`. A page that does not answer
      makes `findall(None)` raise, and a listed link with a byte above 0x7f
      makes `enqueue` raise: the seeding stops there, the rows enqueued
      before it stay, and no later link of that page is enqueued. */
  method Seed(db: CrawlerDb, web: Web, lib: Library, keywords: string) returns (outcome: CrawlOutcome)
    requires db.Valid()
    modifies db, web
    ensures db.Valid() && db.connected == old(db.connected)
    ensures outcome == Finished || SeedingStopped(outcome)
    ensures outcome == Finished <==> SeedingSucceeds(web.pages, lib, keywords, 50, db.connected)
    ensures SeedingStopped(outcome) ==>
      && outcome.page < 50
      && SeedingSucceeds(web.pages, lib, keywords, outcome.page, db.connected)
      && !SearchPageSeeds(web.pages, lib, keywords, outcome.page, db.connected)
    ensures outcome.SearchPageFailed? ==> web.pages(SearchUrl(lib, keywords, 10 * outcome.page)).None?
    ensures outcome.SearchUrlNotAscii? ==> db.connected && web.pages(SearchUrl(lib, keywords, 10 * outcome.page)).Some?
    ensures outcome.SearchUrlNotAscii? ==> RaisedOnPage(old(db.rows), db.rows, web.pages, lib, keywords, outcome.page)
    ensures web.requests == old(web.requests) + SearchUrls(lib, keywords, PagesFetched(outcome))
    ensures old(db.rows) <= db.rows
    ensures forall i :: |old(db.rows)| <= i < |db.rows| ==>
      && !db.rows[i].hasCrawled && db.rows[i].emails == None
      && db.rows[i].url in SeedUrls(web.pages, lib, keywords, PagesFetched(outcome))
    ensures db.connected ==> forall u :: u in SeedUrls(web.pages, lib, keywords, PagesRead(outcome)) ==> HasUrl(db.rows, u)
  {
    ghost var rows0 := db.rows;
    ghost var requests0 := web.requests;
    var q := 0;
    while q < MaxSearchResults / 10
      invariant 0 <= q <= MaxSearchResults / 10
      invariant db.Valid() && db.connected == old(db.connected)
      invariant SeededUpTo(rows0, db.rows, requests0, web.requests, web.pages, lib, keywords, q, db.connected)
    {
      var stop := SeedPage(db, web, lib, keywords, q, rows0, requests0);
      if stop.Some? {
        return stop.value;
      }
      q := q + 1;
    }
    return Finished;
  }

  /** After seeding and draining to the end: every row that was uncrawled
      before seeding, and every seeded row, holds its level-1 outcome; every
      other added row is a level-2 row, since a url the table already holds
      is never enqueued again. */
  lemma SeededAndDrained(rows0: seq<Website>, seeded: seq<Website>, rows: seq<Website>, nextId: nat,
                         pages: string -> Option<string>, lib: Library, seedUrls: set<string>)
    requires rows0 <= seeded
    requires forall i :: |rows0| <= i < |seeded| ==> !seeded[i].hasCrawled && seeded[i].url in seedUrls
    requires forall u :: u in seedUrls ==> HasUrl(seeded, u)
    requires DrainInvariant(seeded, rows, pages, lib) && AllCrawled(rows)
    requires WellFormed(rows, nextId)
    ensures forall i :: 0 <= i < |rows0| && !rows0[i].hasCrawled ==> Level1Outcome(rows[i], pages, lib)
    ensures forall i :: |rows0| <= i < |rows| ==>
      if rows[i].url in seedUrls then Level1Outcome(rows[i], pages, lib) else Level2Row(rows[i], pages, lib)
  {
    DrainedRowsHoldLevel1(seeded, rows, pages, lib);
    forall i | 0 <= i < |rows0| && !rows0[i].hasCrawled ensures Level1Outcome(rows[i], pages, lib) {
      assert seeded[i] == rows0[i];
    }
  }

  /** `crawl(keywords)`: seed the frontier from the search pages, then drain
      it unless the seeding raised. */
  method Crawl(db: CrawlerDb, web: Web, lib: Library, keywords: string) returns (outcome: CrawlOutcome)
    requires db.Valid()
    modifies db, web
    ensures db.Valid() && db.connected == old(db.connected)
    ensures Grows(old(db.rows), db.rows)
    ensures outcome.Finished? || outcome.LinkNotAscii? <==> SeedingSucceeds(web.pages, lib, keywords, 50, db.connected)
    ensures SeedingStopped(outcome) ==>
      && outcome.page < 50
      && SeedingSucceeds(web.pages, lib, keywords, outcome.page, db.connected)
      && !SearchPageSeeds(web.pages, lib, keywords, outcome.page, db.connected)
      && (outcome.SearchPageFailed? ==> web.pages(SearchUrl(lib, keywords, 10 * outcome.page)).None?)
      && (outcome.SearchUrlNotAscii? ==> RaisedOnPage(old(db.rows), db.rows, web.pages, lib, keywords, outcome.page))
      && web.requests == old(web.requests) + SearchUrls(lib, keywords, outcome.page + 1)
      && old(db.rows) <= db.rows
      && (forall i :: |old(db.rows)| <= i < |db.rows| ==>
            && !db.rows[i].hasCrawled && db.rows[i].emails == None
            && db.rows[i].url in SeedUrls(web.pages, lib, keywords, outcome.page + 1))
    ensures !SeedingStopped(outcome) ==> old(web.requests) + SearchUrls(lib, keywords, 50) <= web.requests
    ensures outcome == LinkNotAscii ==> db.connected && RaisedAtLevel2(db.rows, web.pages, lib)
    ensures db.connected ==> forall u :: u in SeedUrls(web.pages, lib, keywords, PagesRead(outcome)) ==> HasUrl(db.rows, u)
    ensures outcome == Finished && db.connected ==>
      && AllCrawled(db.rows)
      && (forall i :: 0 <= i < |old(db.rows)| && !old(db.rows)[i].hasCrawled ==> Level1Outcome(db.rows[i], web.pages, lib))
      && (forall i :: |old(db.rows)| <= i < |db.rows| ==>
            if db.rows[i].url in SeedUrls(web.pages, lib, keywords, 50)
            then Level1Outcome(db.rows[i], web.pages, lib)
            else Level2Row(db.rows[i], web.pages, lib))
  {
    outcome := Seed(db, web, lib, keywords);
    ghost var seeded := db.rows;
    PrefixGrows(old(db.rows), seeded);
    if outcome != Finished {
      return;
    }
    var raised := Drain(db, web, lib);
    GrowsIsTransitive(old(db.rows), seeded, db.rows);
    if raised {
      outcome := LinkNotAscii;
    }
    if db.connected {
      forall u | u in SeedUrls(web.pages, lib, keywords, 50) ensures HasUrl(db.rows, u) {
        GrowsKeepsUrls(seeded, db.rows, u);
      }
      if !raised {
        SeededAndDrained(old(db.rows), seeded, db.rows, db.nextId, web.pages, lib, SeedUrls(web.pages, lib, keywords, 50));
      }
    }
  }

  /** Appending rows keeps every url the table holds. */
  lemma PrefixKeepsUrls(before: seq<Website>, after: seq<Website>)
    requires before <= after
    ensures forall u :: HasUrl(before, u) ==> HasUrl(after, u)
  {
    forall u | HasUrl(before, u) ensures HasUrl(after, u) {
      var i :| 0 <= i < |before| && before[i].url == u;
      assert after[i] == before[i];
    }
  }

  /** Appending rows is growing. */
  lemma PrefixGrows(before: seq<Website>, after: seq<Website>)
    requires before <= after
    ensures Grows(before, after)
  {
  }

  lemma GrowsIsTransitive(a: seq<Website>, b: seq<Website>, c: seq<Website>)
    requires Grows(a, b) && Grows(b, c)
    ensures Grows(a, c)
  {
  }

  // ---------------------------------------------------------------------
  // The command line
  // ---------------------------------------------------------------------

  /** What `sys.argv[1].lower()` asks for. */
  datatype Command = ExportEmails | ExportDomains | CrawlFor(keywords: string)

  function ParseCommand(arg: string): Command {
    var a := Lower(arg);
    if a == "--emails" || a == "-e" then ExportEmails
    else if a == "--domains" || a == "-d" then ExportDomains
    else CrawlFor(a)
  }

  /** The dispatch ignores case, and the keywords searched for are the
      argument lower-cased. */
  lemma ParseCommandIgnoresCase(arg: string)
    ensures ParseCommand(Lower(arg)) == ParseCommand(arg)
    ensures ParseCommand(arg).CrawlFor? ==>
      ParseCommand(arg).keywords == Lower(arg) && Lower(ParseCommand(arg).keywords) == ParseCommand(arg).keywords
  {
    LowerIdempotent(arg);
  }

  /** The flags in any case select an export; anything else is a search. */
  lemma ParseCommandFlags()
    ensures ParseCommand("--EMAILS") == ExportEmails && ParseCommand("-E") == ExportEmails
    ensures ParseCommand("--Domains") == ExportDomains && ParseCommand("-d") == ExportDomains
    ensures ParseCommand("Web Design") == CrawlFor("web design")
  {
    assert Lower("-d") == "-d";
    assert Lower("-E") == "-e";
  }

  /** What one run of the program produces: the text written to the emails
      or domains file (one entry per line, in the set's unspecified order),
      a completed crawl, or an exception caught at the top level. */
  datatype RunOutcome = EmailsSaved(content: string) | DomainsSaved(content: string) | CrawlDone | Failed

  /** The `__main__` block, including the module-level `db.connect()`. A
      missing argument raises `IndexError`; a domain scan that raises, and a
      crawl whose seeding stops at a search page or whose level-2 `enqueue`
      raises, also end in the top-level handler. */
  method Run(db: CrawlerDb, web: Web, lib: Library, argv: seq<string>) returns (result: RunOutcome)
    requires db.Valid()
    modifies db, web
    ensures db.Valid() && db.connected
    ensures Grows(old(db.rows), db.rows)
    ensures |argv| < 2 ==> result == Failed && db.rows == old(db.rows)
    ensures |argv| >= 2 && ParseCommand(argv[1]) == ExportEmails ==>
      db.rows == old(db.rows) && result == EmailsSaved(Join(lib.listOf(AllEmails(db.rows)), '\n'))
    ensures |argv| >= 2 && ParseCommand(argv[1]) == ExportDomains ==>
      db.rows == old(db.rows) &&
      match AllDomains(db.rows, lib.hostname)
      case None => result == Failed
      case Some(ds) => result == DomainsSaved(Join(lib.listOf(ds), '\n'))
    ensures |argv| >= 2 && ParseCommand(argv[1]).CrawlFor? ==>
      && (result == CrawlDone || result == Failed)
      && (result == CrawlDone ==> SeedingSucceeds(web.pages, lib, ParseCommand(argv[1]).keywords, 50, true))
      && (result == Failed && SeedingSucceeds(web.pages, lib, ParseCommand(argv[1]).keywords, 50, true) ==>
            RaisedAtLevel2(db.rows, web.pages, lib))
  {
    db.Connect();
    if |argv| < 2 {
      return Failed;
    }
    match ParseCommand(argv[1])
    case ExportEmails =>
      var emails := db.GetAllEmails();
      result := EmailsSaved(Join(lib.listOf(emails.value), '\n'));
    case ExportDomains =>
      var domains := db.GetAllDomains(lib.hostname);
      if domains.Domains? {
        result := DomainsSaved(Join(lib.listOf(domains.domains), '\n'));
      } else {
        result := Failed;
      }
    case CrawlFor(keywords) =>
      var outcome := Crawl(db, web, lib, keywords);
      result := if outcome == Finished then CrawlDone else Failed;
  }

  // ---------------------------------------------------------------------
  // What the export gives back after a crawl
  // ---------------------------------------------------------------------

  /** The emails a crawled row contributes to the export are exactly the
      emails found on its page; the one exception is a level-2 row whose page
      showed none, which stored `",".join([])` and so exports `""`. */
  lemma ExportedEmailsOfRow(row: Website, pages: string -> Option<string>, lib: Library)
    requires ListsSets(lib)
    requires Level1Outcome(row, pages, lib) || Level2Row(row, pages, lib)
    ensures FindEmailsInHtml(pages(row.url)) != {} ==> EmailsOf(row) == FindEmailsInHtml(pages(row.url))
    ensures FindEmailsInHtml(pages(row.url)) == {} ==> EmailsOf(row) == if row.emails.Some? then {""} else {}
  {
    var found := FindEmailsInHtml(pages(row.url));
    if row.emails.Some? {
      var l := lib.listOf(found);
      assert Enumerates(l, found);
      EnumerationSize(l, found);
      if found == {} {
        assert l == [];
        assert Split("", ',') == [""];
      } else {
        ExtractedEmailsAreTokens(pages(row.url));
        SplitOfJoin(l, ',');
      }
    }
  }

  /** After a crawl from an empty table, the export holds exactly the emails
      found on the crawled pages, plus `""` when some level-2 page showed none.
      Every other entry has the shape of an email address. */
  lemma {:induction false} ExportAfterCrawl(rows: seq<Website>, pages: string -> Option<string>, lib: Library)
    requires ListsSets(lib)
    requires forall i :: 0 <= i < |rows| ==> Level1Outcome(rows[i], pages, lib) || Level2Row(rows[i], pages, lib)
    ensures forall x :: x in AllEmails(rows) && x != "" ==>
      IsEmailToken(x) && exists i :: 0 <= i < |rows| && x in FindEmailsInHtml(pages(rows[i].url))
    ensures forall i, x :: 0 <= i < |rows| && x in FindEmailsInHtml(pages(rows[i].url)) ==> x in AllEmails(rows)
  {
    forall x | x in AllEmails(rows) && x != ""
      ensures IsEmailToken(x) && exists i :: 0 <= i < |rows| && x in FindEmailsInHtml(pages(rows[i].url))
    {
      AllEmailsMembership(rows, x);
      var i :| 0 <= i < |rows| && x in EmailsOf(rows[i]);
      ExportedEmailsOfRow(rows[i], pages, lib);
      ExtractedEmailsAreTokens(pages(rows[i].url));
    }
    forall i, x | 0 <= i < |rows| && x in FindEmailsInHtml(pages(rows[i].url)) ensures x in AllEmails(rows) {
      ExportedEmailsOfRow(rows[i], pages, lib);
      AllEmailsMembership(rows, x);
    }
  }

  /** The export file lists each entry on its own line: when there is at
      least one entry and none holds a line break, splitting the text on line
      breaks gives the set back. */
  lemma ExportFileLines(lib: Library, items: set<string>)
    requires ListsSets(lib)
    requires items != {}
    requires forall x :: x in items ==> '\n' !in x
    ensures (set x | x in Split(Join(lib.listOf(items), '\n'), '\n')) == items
  {
    var l := lib.listOf(items);
    assert Enumerates(l, items);
    EnumerationSize(l, items);
    SplitOfJoin(l, '\n');
  }
}
