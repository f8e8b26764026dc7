# python-email-crawler, modelled in Dafny

The crawler googles a keyword string, puts every result link into a
SQLite-backed frontier (the `website` table of `CrawlerDb`), and then drains
that frontier. For each uncrawled url it looks for email addresses on the
page itself (level 1). When the page shows none, it follows every candidate
link on the page (level 2), and each of those pages that answers is
enqueued as a row that is born crawled. The command line either runs such a
crawl or exports every email or every reduced domain, one per line.

The project has four modules:

- `Builtins` (`builtins.dfy`): the Python 2 string and set operations the
  code depends on, with their edge cases written out. `"".split(",")` is
  `[""]`, `",".join([])` is `""` and `s.find("")` is `0`.
- `Database` (`database.dfy`): the class `CrawlerDb`. Its fields are the
  `connected` flag, the table as a sequence of rows in insertion order, and
  the next id the table hands out. The table invariant: ids increase, urls
  are unique and 7-bit, and a row holds emails only once it is crawled.
  Each method is proved against value-level functions (`NewRow`,
  `MarkCrawled`, `AllEmails`, `AllDomains`, `ReduceHostname`), and lemmas
  are proved about those functions.
- `Extraction` (`extraction.dfy`): the email regex, written as a scanner.
  It reproduces the leftmost, greedy and backtracking behaviour of `findall`
  for that pattern. The module also holds the classification of raw hrefs
  into candidate links.
- `EmailCrawler` (`crawler.dfy`): `retrieve_html` as a `Web` object. Its
  `pages` function gives each url's page or `None`, and its `requests` log
  lists the urls fetched, in order. The module also holds
  `find_emails_2_level_deep`, the seeding and draining phases of `crawl`,
  and the `__main__` dispatch.

The library calls the crawler makes are taken as given, as fields of
`Extraction.Library`:

- `urlparse` (netloc and hostname), `urljoin` (`None` when it raises) and
  `urlencode`;
- the anchor, result-link and ad-link regexes;
- the order in which a set is listed.

Properties that need the listing to be a duplicate-free enumeration of the
set require `ListsSets(lib)`.

Pages are Python 2 byte strings, while the url the drain hands to level 2
comes back from SQLite as `unicode`. Mixing the two, and the `unicode(...)`
calls in `enqueue`, raise `UnicodeDecodeError` on a byte above 0x7f. The
model writes these raises out with `IsAscii`:

- in `find_links_in_html_with_same_hostname` the raise is caught and the
  href is dropped;
- in `enqueue` it escapes. It ends the seeding (`SearchUrlNotAscii`) or the
  drain (`LinkNotAscii`), and the top-level handler catches it.

Storing the level-1 emails as `",".join(list(email_set))` and splitting the
text on commas in the export gives the emails back, because an
email-shaped match contains no comma (`TokenHasNoSeparator`).

## Where the code differs from its own comments

The model follows the code in each case below.

- **`retrieve_html`**
  - The docstring (email_crawler.py:84-88) promises the page "as an ascii
    string" and "On any error, return."
  - The second promise does not hold for every error. `urllib2.Request(url)`
    at line 89 runs before the `try`. In Python 2.7 it parses the url, and
    a netloc with an unbalanced `[` or `]` (`http://[x/`, say) makes it raise
    `ValueError`. That exception leaves `retrieve_html` and then `crawl`.
    The model leaves this raise out; it is listed under "Left out".
  - Errors inside the `try` give `None`, but not through the `HTTPError`
    branch: `HTTPError` is a subclass of `URLError`, so the handler at
    line 96 catches it first and the status handling at lines 98-103 never
    runs. `request` stays `None`, `request.read()` raises, and the function
    returns `None`.
  - The first promise does not hold: `str(data)` is the raw bytes, so a page
    may carry bytes above 0x7f. The model allows any page.
- **`dequeue`**
  - The comment at database.py:55 says "Get the first thing in the queue".
  - The query has no `ORDER BY`, so the row handed out is any uncrawled
    row.
- **Step 1 of `crawl`**
  - The docstring (email_crawler.py:44-45) says the search results are all
    put in the database.
  - A search page that does not answer makes `google_url_regex.findall(None)`
    raise `TypeError` (`SearchPageFailed`). A listed link with a byte above
    0x7f makes `unicode(url)` in `enqueue` raise (`SearchUrlNotAscii`).
    Either way the crawl stops there, before the drain.
- **Candidate links**
  - The docstring (email_crawler.py:155) says the function finds the links
    "with same hostname as url".
  - In the code, `link.find(url.netloc)` is used as a truth value, so an
    absolute link is dropped only when it *starts* with the netloc. Since
    the link starts with `http`, every 7-bit absolute link is kept whenever
    the netloc is non-empty and does not start with `h`, whichever host it
    points to.
  - An href with a byte above 0x7f is dropped when it starts with `/` or
    `http`: mixing it with the `unicode` netloc (the concatenation at line
    168, the `find` at line 170) raises, and the handler at lines 176-177
    swallows the error.
- **Level 2**
  - The docstring (email_crawler.py:117) says level 2 stores all results
    in the database and returns None.
  - It returns `set()`. A level-2 page that shows no emails is stored with
    `",".join([]) == ""` rather than NULL, so the emails export contains
    the empty string.
  - A link that `urljoin` produced with a byte above 0x7f makes `enqueue`
    raise. The exception escapes the drain, and the row being worked on
    stays uncrawled.
  - A candidate whose netloc has an unbalanced bracket makes
    `urllib2.Request` raise when level 2 fetches it (line 89), with the
    same effect. The model leaves this raise out.
- **`get_all_domains`**
  - The comment at database.py:112 says a hostname whose second-to-last
    label is shorter than four characters has three parts.
  - In the code, a url whose hostname is `None` (`None.split`) raises, and
    so does a single-label hostname (`hostname[-2]`). The export then fails
    at the top level.

## Model

| member | source | states |
|---|---|---|
| Builtins.Find | email_crawler.py:170 | `find` gives the lowest index at which the substring occurs, or -1 when it occurs nowhere |
| Builtins.FindZeroIffPrefix | email_crawler.py:170 | `find` returns 0 exactly when the string starts with the substring, which is the one case the truthiness test rejects |
| Builtins.Split | database.py:93 | `split` on one separator returns at least one part, and no part contains the separator |
| Builtins.Join | database.py:45 | `",".join(l)`; characterised by `JoinOfSplit`, `SplitOfJoin` and `JoinIsAscii` |
| Builtins.JoinOfSplit | database.py:111-113 | joining the parts of a split on the same separator gives the original string back |
| Builtins.SplitOfJoin | database.py:93 | splitting the join of a non-empty list of separator-free parts gives the list back |
| Builtins.SplitHasTwoPartsIff | database.py:111-113 | a string splits into two or more labels exactly when it contains the separator |
| Builtins.JoinOfTailIsSuffix | database.py:113 | re-joining the last labels of a split gives a suffix of the joined whole |
| Builtins.JoinIsAscii | database.py:45 | joining 7-bit parts with a 7-bit separator gives a 7-bit text, so `unicode(",".join(emails))` cannot raise for them |
| Builtins.Lower | email_crawler.py:187 | `lower()` keeps the length, maps each ASCII capital to its lower-case letter, keeps every other character, and so leaves no ASCII capital |
| Builtins.LowerIdempotent | email_crawler.py:187 | lower-casing twice is the same as lower-casing once |
| Builtins.NatToString | email_crawler.py:62 | `str(page_index)`; characterised by `NatToStringRoundTrip` |
| Builtins.NatToStringRoundTrip | email_crawler.py:62 | `str(n)` is a non-empty string of decimal digits that reads back as `n` |
| Builtins.Range | email_crawler.py:60 | `range(start, stop, step)`; characterised by `RangeIsArithmetic` |
| Builtins.EnumerationSize | email_crawler.py:78 | `list(s)` of a set has exactly as many entries as the set has elements |
| Database.NewRow | database.py:43-45 | the row `enqueue` inserts; characterised by `EnqueuePreservesWellFormed`, `StoredListRoundTrip` and `StoredEmptyListExportsEmptyString` |
| Database.MarkCrawled | database.py:75-77 | the `update ... where id == website.id`; characterised by `MarkCrawledAt` and `MarkCrawledUnknownId` |
| Database.AllEmails | database.py:89-96 | the set `get_all_emails` builds; characterised by `AllEmailsMembership` |
| Database.DomainOf | database.py:110-113 | the reduced hostname of one url, or a raise; characterised by `ReducedHostnameIsLabelSuffix` |
| Database.AllDomains | database.py:106-116 | the set `get_all_domains` builds, or a raise; characterised by `AllDomainsRaisesIff` and `AllDomainsMembership` |
| Database.ReduceHostname | database.py:111-113 | the domain heuristic; characterised by `ReducedHostnameIsLabelSuffix` and the `Reduce...` lemmas |
| Database.CrawlerDb.constructor | database.py:9-10 | a new `CrawlerDb` is not connected and its table is empty |
| Database.CrawlerDb.Connect | database.py:12-28 | `connect` makes the table available and leaves the stored rows as they were |
| Database.CrawlerDb.Enqueue | database.py:30-49 | inserts exactly when connected, the url is absent, and neither the url nor the joined email text has a byte above 0x7f; such a byte on a new url makes `unicode` raise (`EncodeError`) with the table unchanged; a duplicate or a closed connection returns False and changes nothing; the new row is crawled with the comma-joined list when emails are given, otherwise uncrawled; after a call that does not raise on a connected table the url is present; the invariant is kept |
| Database.CrawlerDb.Dequeue | database.py:52-69 | returns some uncrawled row of the table; returns None exactly when not connected or every row is crawled |
| Database.CrawlerDb.Crawled | database.py:72-78 | when connected, sets `has_crawled` and the emails on the row with the given id and on no other row; the invariant is kept |
| Database.CrawlerDb.GetAllEmails | database.py:81-96 | None when not connected; otherwise the union over all rows of the stored text split on commas, rows without emails skipped |
| Database.CrawlerDb.GetAllDomains | database.py:98-116 | NotConnected when not connected; Raised when some url has no usable hostname; otherwise the set of reduced hostnames |
| Database.EnqueuePreservesWellFormed | database.py:30-49 | inserting the new row for an absent 7-bit url keeps ids increasing, urls unique and 7-bit, and emails only on crawled rows |
| Database.StoredUrlIsAscii | database.py:43 | every url in the table is 7-bit, so `unicode(url)` never raises on a url the duplicate check finds |
| Database.MarkCrawledAt | database.py:75-77 | updating by the id of row `i` changes row `i` only, because ids are unique |
| Database.MarkCrawledUnknownId | database.py:75-77 | updating an id that no row has leaves the table unchanged |
| Database.MarkCrawledPreservesWellFormed | database.py:72-78 | `crawled` keeps the table invariant |
| Database.UncrawledCountZeroIff | database.py:56-69 | the number of rows `dequeue` can hand out is zero exactly when every row is crawled |
| Database.UncrawledCountAfterMark | database.py:72-78 | marking one uncrawled row crawled lowers that number by exactly one |
| Database.UncrawledCountCrawledSuffix | database.py:44-45 | appending rows that are born crawled does not change that number |
| Database.UncrawledCountAppend | database.py:43-46 | appending one row adds one to that number exactly when the row is uncrawled |
| Database.GrowsKeepsUrls | database.py:30-49 | a url present in the table stays present while the table only grows |
| Database.AllEmailsMembership | database.py:89-96 | an email is exported exactly when some row's stored text, split on commas, contains it |
| Database.StoredListRoundTrip | database.py:45 | a non-empty list of comma-free emails stored by `enqueue` exports as exactly its elements |
| Database.StoredEmptyListExportsEmptyString | database.py:44-45 | an empty list is stored on a crawled row and exports as the empty string |
| Database.AllDomainsRaisesIff | database.py:107-114 | the domain scan raises exactly when some row's url has no hostname or a single-label hostname |
| Database.AllDomainsMembership | database.py:106-116 | when the scan succeeds, a domain is exported exactly when it is the reduced hostname of some row |
| Database.ReducedHostnameIsLabelSuffix | database.py:111-113 | the reduction fails exactly for a hostname without a dot; otherwise it is the last three labels when the second-to-last is shorter than four characters, else the last two, and is a suffix of the hostname |
| Database.ReduceKeepsLastTwo | database.py:112-113 | with a second-level label of four or more characters, the last two labels are kept |
| Database.ReduceKeepsAllThree | database.py:112-113 | with a short second-to-last label and three labels, the whole hostname is kept |
| Database.ReduceKeepsLastThree | database.py:112-113 | with a short second-to-last label and four labels, the last three are kept |
| Database.ReduceHostnameExamples | database.py:112-113 | `just2us.com.sg`, `www.abc.com.sg`, `mail.example.com` and `shop.longname.org` reduce to `just2us.com.sg`, `abc.com.sg`, `example.com` and `longname.org` |
| Database.ReduceHostnameSingleLabelRaises | database.py:113 | `localhost` makes `hostname[-2]` raise |
| Database.Scenario | database.py:130-142 | after two enqueues and two dequeue-and-mark rounds, the third dequeue finds nothing, both rows are crawled, and exactly one of them holds `"a,b"` |
| Database.ScenarioSetUp | database.py:131-136 | connecting and enqueueing `'111'` and `'222'` gives two uncrawled rows with ids 1 and 2 |
| Database.CrawlNext | database.py:137-140 | one dequeue-and-mark round marks exactly one row that was uncrawled, with the given emails, and changes no other row |
| Database.ScenarioCrawlTwice | database.py:137-142 | each dequeue hands out a still-uncrawled row, so the two rounds crawl both rows |
| Extraction.RunEnd | email_crawler.py:17 | a greedy character class stops at the first character outside the class, or at the end |
| Extraction.LastTldDot | email_crawler.py:17 | backtracking the domain part finds the last dot that is followed by two letters, and there is none when it fails |
| Extraction.TldLength | email_crawler.py:17 | `[A-Z]{2,4}`-style repetition takes letters up to the cap, stopping early only at the end or at a non-letter |
| Extraction.MatchAt | email_crawler.py:17 | the match of the email regex at one position; characterised by `MatchIsEmailToken` |
| Extraction.MatchIsEmailToken | email_crawler.py:17 | every match has the shape `local@domain.tld`, with the three parts in their character classes and a two-to-four-letter ending |
| Extraction.FindAll | email_crawler.py:148 | `email_regex.findall(html)`; characterised by `FindAllTokens` |
| Extraction.FindAllTokens | email_crawler.py:147-149 | everything `findall` returns is email-shaped and occurs in the text |
| Extraction.TokenHasNoSeparator | email_crawler.py:17 | an email-shaped string contains neither a comma nor a line break |
| Extraction.TokenIsAscii | email_crawler.py:17 | an email-shaped string is 7-bit |
| Extraction.FindEmailsInHtml | email_crawler.py:144-150 | `find_emails_in_html`; characterised by `ExtractedEmailsAreTokens` and `NoAtSignNoMatch` |
| Extraction.ExtractedEmailsAreTokens | email_crawler.py:144-150 | `find_emails_in_html(None)` is empty; otherwise every result is an email-shaped, comma-free and newline-free substring of the page |
| Extraction.ListedEmailsAreAscii | email_crawler.py:137-138 | the comma-joined list of a page's emails is 7-bit, so a level-2 `enqueue` never raises on its emails |
| Extraction.NoAtSignNoMatch | email_crawler.py:144-150 | a page without `@` yields no email |
| Extraction.ScanFindsEmailAfterText | email_crawler.py:147-149 | the scan skips a leading non-email character and returns `a@b.io` |
| Extraction.ScanStopsAfterFourLetters | email_crawler.py:17 | in `a@b.info5` the match ends after four letters of top-level domain, leaving the digit out |
| Extraction.ContactLineHasItsPieces | email_crawler.py:17 | the line `Contact: Jane.Doe@Example.CO foo@bar.io` is the one `IsContactLine` describes piece by piece |
| Extraction.MatchesMixedCase | email_crawler.py:17 | under `re.IGNORECASE`, a match starts at `Jane.Doe@Example.CO`, capitals on both sides of the `@` and in the top-level domain, and ends at the space after it |
| Extraction.MatchesLowerCase | email_crawler.py:17 | in the line, no match starts at the space, and one starts at `foo@bar.io` and runs to the end |
| Extraction.ScanFindsMixedCase | email_crawler.py:17 | `findall` on the line gives `Jane.Doe@Example.CO` then `foo@bar.io`, case kept as written |
| Extraction.ContactLineEmails | email_crawler.py:144-150 | `find_emails_in_html` on the line gives exactly the set of those two addresses, case kept |
| Extraction.ClassifyLink | email_crawler.py:165-177 | what one href adds to the link set; characterised by `ClassifyLinkCases` |
| Extraction.FindLinksWithSameHostname | email_crawler.py:153-179 | the candidate links of a page; characterised by `LinksFromMembership` and `NoFragmentCandidates` |
| Extraction.LinksFromMembership | email_crawler.py:160-179 | a candidate link is exactly the classification of some raw href of the page |
| Extraction.ClassifyLinkCases | email_crawler.py:165-177 | `/path` becomes `http://netloc/path`, or is dropped when it has a byte above 0x7f; an absolute link is dropped exactly when it has such a byte or starts with the netloc; `#frag` is dropped; anything else is what `urljoin` gives, and is dropped when `urljoin` raises |
| Extraction.AbsoluteLinksKept | email_crawler.py:166-171 | when the netloc is non-empty and does not start with `h`, every 7-bit absolute link is kept, whatever host it names |
| Extraction.NonAsciiCandidateWasJoined | email_crawler.py:165-177 | with a 7-bit netloc, a candidate with a byte above 0x7f can only come from `urljoin` |
| Extraction.NoFragmentCandidates | email_crawler.py:157-173 | no page gives no candidate links, and a fragment-only href never becomes one |
| EmailCrawler.Web.Retrieve | email_crawler.py:83-110 | a fetch gives the url's page or None and logs the url as requested |
| EmailCrawler.CrawlLink | email_crawler.py:134-138 | one link is fetched; when it answers and is new, it is appended as a crawled row holding the list of its page's emails, unless its url has a byte above 0x7f, when `enqueue` raises; otherwise the table is unchanged |
| EmailCrawler.CrawlLinkAt | email_crawler.py:131-138 | one turn of the level-2 loop extends what the loop has done to one more link |
| EmailCrawler.LinksCrawled | email_crawler.py:131-138 | when the level-2 loop ends, after the last link or at a raise, the links fetched are all of the list without a raise; with a raise they are the list up to and including the link whose `enqueue` raised, which is not stored, and every earlier link that answered is in the table (`StoppedAtLink`); rows were only appended, each a level-2 row for one of the links |
| EmailCrawler.CrawlLinks | email_crawler.py:131-138 | the links are fetched once each, in order: all of them when no `enqueue` raises; on a raise, the list up to and including the link whose `enqueue` raised, which is not stored (`StoppedAtLink`); the table only has rows appended, each a level-2 row for one of the links; every link fetched before a raise, or every link when there is none, that answered is in the table |
| EmailCrawler.FindEmails2LevelDeep | email_crawler.py:113-141 | returns the level-1 page's emails; when there are some, nothing else is fetched and the table is unchanged; otherwise the listed candidate links are fetched in order, all of them unless an `enqueue` raises, in which case the fetches stop at the link that raised, which is not stored (`StoppedAtLink`); each link fetched before that which answers is in the table, as a new level-2 row unless it was already there |
| EmailCrawler.Level2FollowsCandidates | email_crawler.py:129-131 | the links level 2 visits are exactly the candidate links, and none are visited when the level-1 page did not answer |
| EmailCrawler.Level2RaiseNeedsJoinedHref | email_crawler.py:130-138 | with a 7-bit netloc, an `enqueue` at level 2 raises only when the page has an href that `urljoin` turned into a link with a byte above 0x7f; level 2 can also raise in `urllib2.Request` (line 89), which the model leaves out |
| EmailCrawler.EnqueueEach | email_crawler.py:65-68 | enqueueing a list of search links raises exactly when the table is connected and some link has a byte above 0x7f; it raises at the first such link `k`, when every link before `k` is in the table and every appended row is for a link before `k`; it only appends uncrawled rows without emails for links of the list, and without a raise every link is in the table |
| EmailCrawler.EnqueueAt | email_crawler.py:65-66 | one step of that loop keeps the prefix facts: the rows appended so far are uncrawled and for links already handled, and a raise leaves the table as it was, with every earlier link stored |
| EmailCrawler.EnqueuedAll | email_crawler.py:65-68 | when the loop ends, by a raise or at the end of the list, the prefix facts give the contract of `EnqueueEach` |
| EmailCrawler.AppendLevel2Rows | email_crawler.py:130-138 | rows appended at level 2 keep the drain invariant and do not add to the uncrawled count |
| EmailCrawler.MarkLevel1Row | email_crawler.py:77-81 | marking a dequeued row with its level-1 outcome keeps the drain invariant and removes one uncrawled row |
| EmailCrawler.MarkRowCrawled | email_crawler.py:78-81 | `crawled` with the joined level-1 emails, or none, keeps the drain invariant and removes one uncrawled row |
| EmailCrawler.CrawlRow | email_crawler.py:73-81 | one drain turn keeps the drain invariant; it lowers the uncrawled count by one, or raises at level 2 and leaves the row uncrawled; with the network down, it makes exactly one fetch and adds no row |
| EmailCrawler.Drain | email_crawler.py:72-81 | the drain ends with every row crawled, or with a level-2 raise that leaves an uncrawled row on whose page level 2 raises; every row it crawled that was uncrawled holds its level-1 outcome, and every added row is a level-2 row; with the network down, nothing raises, no rows are added and exactly one fetch is made per row that was uncrawled |
| EmailCrawler.DrainedRowsHoldLevel1 | email_crawler.py:72-81 | after the drain, every row that was uncrawled holds the emails found at level 1, or none |
| EmailCrawler.SearchUrls | email_crawler.py:60-63 | the search urls of the first `n` result pages, in fetch order; characterised by `SearchUrlsStep` and `SearchUrlsFollowRange` |
| EmailCrawler.SearchUrlsStep | email_crawler.py:60-63 | the search urls of the first `q + 1` pages are those of the first `q`, then the url with offset `10 * q` |
| EmailCrawler.SearchUrlsFollowRange | email_crawler.py:60-62 | the fifty search urls fetched are, in order, the urls for the offsets of `range(0, MAX_SEARCH_RESULTS, 10)` |
| EmailCrawler.RangeIsArithmetic | email_crawler.py:60 | `range(start, stop, step)` is `start, start + step, ...`, all below `stop`, and stops at the first value not below it |
| EmailCrawler.SearchOffsetsAreFiftyPages | email_crawler.py:24-60 | `range(0, MAX_SEARCH_RESULTS, 10)` has fifty offsets, and the `q`-th is `10 * q` |
| EmailCrawler.EnqueuePage | email_crawler.py:65-68 | enqueueing one search page's result and ad links raises exactly when the table is connected and one of them has a byte above 0x7f; the raise comes at the first such link in the order result links then ad links, with every link before it stored and no row for a link after it, so a raising result link stops all ad links; it appends only uncrawled rows for those links, and without a raise all of them are in the table |
| EmailCrawler.PageRaisedInResults | email_crawler.py:65-66 | a raise among the result links is a raise at the same position of the whole page's link list, and no ad link is enqueued |
| EmailCrawler.PageEnqueued | email_crawler.py:65-68 | after the result links are all enqueued, the outcome of the ad links gives the page's outcome: a raise among the ad links is a raise at its position after all result links, with every result link stored |
| EmailCrawler.RaisedInFirst | email_crawler.py:65-68 | a raise at link `k` of a list is a raise at link `k` of that list followed by more links |
| EmailCrawler.RaisedInSecond | email_crawler.py:65-68 | once every link of a first list is stored, a raise at link `k` of a second list is a raise at link `|first| + k` of both lists together |
| EmailCrawler.SeedStep | email_crawler.py:65-68 | enqueueing one answered search page's result and ad links adds them to the urls the table holds |
| EmailCrawler.SeededRowsStep | email_crawler.py:65-68 | the rows seeded from the first `q` pages, followed by rows for the links of page `q`, are rows for links of the first `q + 1` pages |
| EmailCrawler.SeedingGoesOn | email_crawler.py:60-68 | when search page `q` answers and its links are enqueued without a raise, the first `q + 1` pages are seeded |
| EmailCrawler.SeedingStopsAt | email_crawler.py:63-68 | when search page `q` does not answer, or one of its links raises, the seeding stops at page `q` with the earlier pages seeded; on a raise, every link of page `q` before the raising one is stored and no row is for a later one |
| EmailCrawler.SeedPage | email_crawler.py:60-68 | one search page is fetched; the seeding goes on when it answers and its links are enqueued, and otherwise stops at this page; when one of its links raises, the links of the page before it are stored and no row is added for a link after it |
| EmailCrawler.Seed | email_crawler.py:60-68 | the search pages are fetched in order; seeding finishes exactly when all fifty answer and list only 7-bit links; otherwise it stops at the first page that does not, after fetching it; only uncrawled rows are appended, each for a result or ad link of the pages fetched, and every such link of the pages read is in the table; when a link raises, it is the first non-7-bit link of its page in result-then-ad order, every link of that page before it is stored and the page adds no row for a link after it |
| EmailCrawler.SeededAndDrained | email_crawler.py:60-81 | after seeding and draining, every row that was uncrawled and every seeded row holds its level-1 outcome, and every other added row is a level-2 row |
| EmailCrawler.Crawl | email_crawler.py:34-81 | the table only grows; the seeding completes exactly when every search page answers with 7-bit links; a crawl stopped at a search page fetches no page past it and adds only uncrawled rows for links of the pages fetched, and when a link raised, the links of that page before it are stored and none after it; a crawl stopped at level 2 leaves an uncrawled row on whose page level 2 raises; a finished crawl leaves every row crawled, every row uncrawled on entry and every seeded row with its level-1 outcome, and every other added row a level-2 row |
| EmailCrawler.ParseCommand | email_crawler.py:187-212 | the dispatch on the lower-cased argument; characterised by `ParseCommandIgnoresCase` and `ParseCommandFlags` |
| EmailCrawler.ParseCommandIgnoresCase | email_crawler.py:187-212 | the dispatch does not depend on the argument's case, and the keywords searched for are the lower-cased argument |
| EmailCrawler.ParseCommandFlags | email_crawler.py:187-212 | `--EMAILS` and `-E` export emails, `--Domains` and `-d` export domains, and `Web Design` searches for `web design` |
| EmailCrawler.SearchUrl | email_crawler.py:61-62 | the search url for one offset; characterised by `SearchUrlsStep` and `SearchUrlsFollowRange` |
| EmailCrawler.Run | email_crawler.py:184-219 | a missing argument fails; the email export writes every stored email one per line; the domain export writes the domains or fails when the scan raises; a crawl is reported done only when every search page answered with 7-bit links, and a crawl that fails after that left a row on which level 2 raised |
| EmailCrawler.ExportedEmailsOfRow | email_crawler.py:76-80 | a crawled row exports exactly the emails found on its page; a level-2 row whose page showed none exports `""` |
| EmailCrawler.ExportAfterCrawl | email_crawler.py:188-198 | after a crawl, the exported emails are exactly those found on the crawled pages, except for a possible `""`, and each has the shape of an email |
| EmailCrawler.ExportFileLines | email_crawler.py:194-195 | the export file holds each entry on its own line: splitting the text on line breaks gives the set back |

## Left out

- Networking (`urllib2`, the User-Agent header, status codes): a fetch is
  the pure function `Web.pages` from url to page or `None`.
- The standard library parsers: `urlparse`, `urljoin`, `urlencode` and the
  anchor, result-link and ad-link regexes are uninterpreted functions in
  `Extraction.Library`. `urljoin` gives `None` where it would raise (a
  `ValueError` or a `UnicodeDecodeError`). Only the email regex is
  modelled.
- Set iteration order: `list(s)` and `for x in s` are `Library.listOf`, a
  function of the set's value. CPython's order can also depend on insertion
  history, which is not modelled.
- SQLAlchemy and SQLite: the table is an in-memory sequence. The
  persistence and reload of rows between runs and `close` are not
  modelled. The one failure of the database layer that is modelled is the
  `UnicodeDecodeError` of a byte above 0x7f. The select at database.py:35
  would also fail on such a url; the model raises at line 43 instead, which
  ends the same way because every stored url is 7-bit, so such a url is
  never a duplicate.
- Other database errors (a locked or missing file, a failed insert):
  `execute` raises instead of returning a false value, so the `return
  False` at database.py:49 is unreachable. These errors are not modelled.
- `save_html`, `HTML_DIR` and the `os` calls: the crawler never calls it.
- File writing: `Run` returns the text that `writelines` would write
  instead of writing the emails or domains file.
- Logging, `ColorStreamHandler`, `traceback` and the `settings` module:
  they have no effect on state.
- `KeyboardInterrupt`: an interrupt is not modelled.
- The `link == None` guard in `find_links_in_html_with_same_hostname`: the
  regex never returns `None`.
- `Database.CrawlerDb.Crawled`: it does not model a return value, because
  the source returns `None` on success and `False` only when not connected.
  No caller reads it.
- `EmailCrawler.Seed`: it loops over the page index `q` and fetches offset
  `10 * q` rather than iterating the list `range(0, 500, 10)`.
  `SearchUrlsFollowRange` proves the two fetch the same urls.
- `EmailCrawler.Web.Retrieve`: it does not model the `ValueError` that
  `urllib2.Request(url)` raises at email_crawler.py:89, outside the `try`,
  for a url whose netloc has an unbalanced `[` or `]`. A fetch always
  gives a page or `None`. In the source such a url, kept as a candidate
  link or dequeued as a row, makes the exception escape `crawl`, and the
  row being worked on stays uncrawled.
- `EmailCrawler.Drain`: it does not state which row is dequeued, because
  the query has no order.
- `EmailCrawler.Crawl`: it does not state the requests of a crawl that
  reaches the drain beyond the fifty search pages, which are a prefix of
  them. The level-2 fetches depend on the pages and on set order.
- `EmailCrawler.Run`: it does not model the module-level `db` as a global,
  and it does not state what the crawl stores. It is connected on entry,
  as the import does, and `Crawl`'s contract states what is stored.
- Unicode semantics beyond the 7-bit test: strings are sequences of `char`.
  `lower()` and `[A-Z]` under `IGNORECASE` act on ASCII letters only.
