/** The pattern extractor of email_crawler.py: `find_emails_in_html`, which
    runs the email regex `[A-Z0-9._%+-]+@[A-Z0-9.-]+\.[A-Z]{2,4}` (case
    insensitive) through `findall`, and `find_links_in_html_with_same_hostname`,
    which sorts the raw hrefs of a page into candidate links. */
module Extraction {
  import opened Builtins

  /** The library functions the crawler calls into, taken as given:
      `urlparse`, `urljoin`, `urlencode`, the three other regexes, and the
      order in which the interpreter lists the elements of a set. */
  datatype Library = Library(
    netloc: string -> string,             // urlparse(url).netloc
    hostname: string -> Option<string>,   // urlparse(url).hostname
    urljoin: (string, string) -> Option<string>,  // urljoin(urlparse(url).geturl(), link); None when it raises
    anchorHrefs: string -> seq<string>,   // url_regex.findall(html)
    resultUrls: string -> seq<string>,    // google_url_regex.findall(html)
    adUrls: string -> seq<string>,        // google_adurl_regex.findall(html)
    encodeQuery: string -> string,        // urllib.urlencode({'q': keywords})
    listOf: set<string> -> seq<string>)   // list(s), and the order of `for x in s`

  /** Listing a set gives each of its elements once, in some order. */
  ghost predicate ListsSets(lib: Library) {
    forall s :: Enumerates(lib.listOf(s), s)
  }

  // ---------------------------------------------------------------------
  // The email pattern
  // ---------------------------------------------------------------------

  /** `[A-Z]` under `re.IGNORECASE` on a byte string: ASCII letters only. */
  predicate IsLetter(c: char) {
    'A' <= c <= 'Z' || 'a' <= c <= 'z'
  }

  predicate IsDigit(c: char) {
    '0' <= c <= '9'
  }

  /** `[A-Z0-9._%+-]`, the characters before the `@`. */
  predicate IsLocalChar(c: char) {
    IsLetter(c) || IsDigit(c) || c == '.' || c == '_' || c == '%' || c == '+' || c == '-'
  }

  /** `[A-Z0-9.-]`, the characters after the `@`. */
  predicate IsDomainChar(c: char) {
    IsLetter(c) || IsDigit(c) || c == '.' || c == '-'
  }

  /** `e` matches the whole email pattern with its `@` at `at` and the dot
      before the final two to four letters at `dot`. */
  ghost predicate EmailShape(e: string, at: nat, dot: nat) {
    && 0 < at && at + 1 < dot && dot + 3 <= |e| <= dot + 5
    && e[at] == '@' && e[dot] == '.'
    && (forall k :: 0 <= k < at ==> IsLocalChar(e[k]))
    && (forall k :: at < k < dot ==> IsDomainChar(e[k]))
    && (forall k :: dot < k < |e| ==> IsLetter(e[k]))
  }

  ghost predicate IsEmailToken(e: string) {
    exists at, dot :: EmailShape(e, at, dot)
  }

  /** The end of the longest run of `inClass` characters starting at `i`:
      what a greedy `[...]+` consumes. */
  function RunEnd(s: string, i: nat, inClass: char -> bool): (e: nat)
    requires i <= |s|
    ensures i <= e <= |s|
    ensures forall k :: i <= k < e ==> inClass(s[k])
    ensures e < |s| ==> !inClass(s[e])
    decreases |s| - i
  {
    if i == |s| || !inClass(s[i]) then i else RunEnd(s, i + 1, inClass)
  }

  /** `\.[A-Z]{2,4}` can start at `p`. */
  predicate TldDotAt(s: string, p: nat) {
    p + 2 < |s| && s[p] == '.' && IsLetter(s[p + 1]) && IsLetter(s[p + 2])
  }

  /** Backtracking the greedy `[A-Z0-9.-]+` that started at `j`: the last
      position in `(j, hi]` where `\.[A-Z]{2,4}` can follow. */
  function LastTldDot(s: string, j: nat, hi: nat): (r: Option<nat>)
    ensures r.Some? ==> j < r.value <= hi && TldDotAt(s, r.value)
    ensures r.Some? ==> forall p :: r.value < p <= hi ==> !TldDotAt(s, p)
    ensures r.None? ==> forall p :: j < p <= hi ==> !TldDotAt(s, p)
    decreases hi
  {
    if hi <= j then None
    else if TldDotAt(s, hi) then Some(hi)
    else LastTldDot(s, j, hi - 1)
  }

  /** What the greedy `[A-Z]{2,4}`-style repetition takes from `k`: as many
      letters as there are, up to `cap`. */
  function TldLength(s: string, k: nat, cap: nat): (n: nat)
    requires k <= |s|
    ensures n <= cap && k + n <= |s|
    ensures forall m :: k <= m < k + n ==> IsLetter(s[m])
    ensures n == cap || k + n == |s| || !IsLetter(s[k + n])
    decreases cap
  {
    if cap == 0 || k == |s| || !IsLetter(s[k]) then 0 else 1 + TldLength(s, k + 1, cap - 1)
  }

  /** Where a match of the email pattern starting at `i` ends, if there is
      one. The local part is the maximal run of local characters and must be
      followed by `@` (a shorter run is followed by a local character, so
      backtracking cannot help); the domain part backtracks to the last dot
      followed by two letters; the final letters are taken greedily. */
  function MatchAt(s: string, i: nat): (r: Option<nat>)
    requires i < |s|
    ensures r.Some? ==> i < r.value <= |s|
  {
    var e := RunEnd(s, i, IsLocalChar);
    if e == i || e == |s| || s[e] != '@' then None
    else
      var d := RunEnd(s, e + 1, IsDomainChar);
      match LastTldDot(s, e + 1, d - 1)
      case None => None
      case Some(p) => Some(p + 1 + TldLength(s, p + 1, 4))
  }

  /** `email_regex.findall(s[i..])`: scan left to right; after a match, go on
      from its end, otherwise from the next character. */
  function FindAll(s: string, i: nat): seq<string>
    requires i <= |s|
    decreases |s| - i
  {
    if i == |s| then []
    else
      match MatchAt(s, i)
      case None => FindAll(s, i + 1)
      case Some(end) => [s[i..end]] + FindAll(s, end)
  }

  /** `find_emails_in_html(html)`: the set of matches, empty for `None`. */
  function FindEmailsInHtml(html: Option<string>): set<string> {
    match html
    case None => {}
    case Some(h) => set m | m in FindAll(h, 0)
  }

  /** Every match is a substring of the scanned text that has the shape of
      the email pattern. */
  lemma MatchIsEmailToken(s: string, i: nat)
    requires i < |s| && MatchAt(s, i).Some?
    ensures IsEmailToken(s[i..MatchAt(s, i).value])
  {
    var e := RunEnd(s, i, IsLocalChar);
    var d := RunEnd(s, e + 1, IsDomainChar);
    var p := LastTldDot(s, e + 1, d - 1).value;
    var end := MatchAt(s, i).value;
    var n := TldLength(s, p + 1, 4);
    assert end == p + 1 + n;
    assert n >= 2 by {
      assert IsLetter(s[p + 1]) && IsLetter(s[p + 2]);
    }
    var m := s[i..end];
    assert EmailShape(m, e - i, p - i) by {
      forall k | 0 <= k < e - i ensures IsLocalChar(m[k]) {
        assert m[k] == s[i + k];
      }
      forall k | e - i < k < p - i ensures IsDomainChar(m[k]) {
        assert m[k] == s[i + k];
      }
      forall k | p - i < k < |m| ensures IsLetter(m[k]) {
        assert m[k] == s[i + k];
      }
    }
  }

  /** Every string `findall` returns from position `i` on is an email-shaped
      substring of the text at or after `i`. */
  lemma {:induction false} FindAllTokens(s: string, i: nat)
    requires i <= |s|
    ensures forall m :: m in FindAll(s, i) ==> IsEmailToken(m) && exists k :: i <= k && OccursAt(s, m, k)
    decreases |s| - i
  {
    if i < |s| {
      match MatchAt(s, i)
      case None =>
        FindAllTokens(s, i + 1);
      case Some(end) =>
        FindAllTokens(s, end);
        MatchIsEmailToken(s, i);
        assert OccursAt(s, s[i..end], i);
    }
  }

  /** An email-shaped string is 7-bit: every character class of the pattern
      is ASCII. */
  lemma TokenIsAscii(e: string)
    requires IsEmailToken(e)
    ensures IsAscii(e)
  {
    var at: nat, dot: nat :| EmailShape(e, at, dot);
    forall k | 0 <= k < |e| ensures e[k] as int < 128 {
      if k < at {
        assert IsLocalChar(e[k]);
      } else if at < k < dot {
        assert IsDomainChar(e[k]);
      } else if dot < k {
        assert IsLetter(e[k]);
      }
    }
  }

  /** The text `enqueue` stores for the emails of a page, `",".join` of the
      listed set, is 7-bit, so storing it never raises. */
  lemma ListedEmailsAreAscii(lib: Library, html: Option<string>)
    requires ListsSets(lib)
    ensures IsAscii(Join(lib.listOf(FindEmailsInHtml(html)), ','))
  {
    var found := FindEmailsInHtml(html);
    var list := lib.listOf(found);
    assert Enumerates(list, found);
    ExtractedEmailsAreTokens(html);
    forall k | 0 <= k < |list| ensures IsAscii(list[k]) {
      assert list[k] in found;
      TokenIsAscii(list[k]);
    }
    JoinIsAscii(list, ',');
  }

  /** An email-shaped string holds no comma (so `",".join` of emails splits
      back) and no line break (so `"\n".join` of them is one per line). */
  lemma TokenHasNoSeparator(e: string)
    requires IsEmailToken(e)
    ensures ',' !in e && '\n' !in e
  {
    var at: nat, dot: nat :| EmailShape(e, at, dot);
    forall k | 0 <= k < |e| ensures e[k] != ',' && e[k] != '\n' {
      if k < at {
        assert IsLocalChar(e[k]);
      } else if at < k < dot {
        assert IsDomainChar(e[k]);
      } else if dot < k {
        assert IsLetter(e[k]);
      }
    }
  }

  /** What `find_emails_in_html` promises: nothing for `None`, and otherwise
      only email-shaped, comma-free substrings of the page. */
  lemma ExtractedEmailsAreTokens(html: Option<string>)
    ensures html.None? ==> FindEmailsInHtml(html) == {}
    ensures forall m :: m in FindEmailsInHtml(html) ==>
      && IsEmailToken(m) && ',' !in m && '\n' !in m
      && exists k :: OccursAt(html.value, m, k)
  {
    if html.Some? {
      FindAllTokens(html.value, 0);
      forall m | m in FindEmailsInHtml(html) ensures ',' !in m && '\n' !in m {
        TokenHasNoSeparator(m);
      }
    }
  }

  /** A page without an `@` yields no email. */
  lemma {:induction false} NoAtSignNoMatch(s: string, i: nat)
    requires i <= |s| && '@' !in s
    ensures FindAll(s, i) == []
    decreases |s| - i
  {
    if i < |s| {
      var e := RunEnd(s, i, IsLocalChar);
      assert e < |s| ==> s[e] != '@';
      NoAtSignNoMatch(s, i + 1);
    }
  }

  /** The two positions of `" a@b.io"` a scan looks at. */
  lemma MatchesAfterText()
    ensures MatchAt(" a@b.io", 0) == None
    ensures MatchAt(" a@b.io", 1) == Some(7)
  {
    var s := " a@b.io";
    assert RunEnd(s, 0, IsLocalChar) == 0;
    assert RunEnd(s, 2, IsLocalChar) == 2;
    assert RunEnd(s, 1, IsLocalChar) == 2;
    assert RunEnd(s, 3, IsDomainChar) == 7;
    assert LastTldDot(s, 3, 6) == Some(4);
    assert TldLength(s, 5, 4) == 2;
  }

  /** A scan that skips text which is not an email and picks out the one
      that is. */
  lemma ScanFindsEmailAfterText()
    ensures FindAll(" a@b.io", 0) == ["a@b.io"]
  {
    var s := " a@b.io";
    MatchesAfterText();
    assert FindAll(s, 7) == [];
    assert s[1..7] == "a@b.io";
  }

  /** The match at the start of `"a@b.info5"` ends after four letters. */
  lemma MatchTakesFourLetters()
    ensures MatchAt("a@b.info5", 0) == Some(8)
  {
    var s := "a@b.info5";
    assert RunEnd(s, 1, IsLocalChar) == 1;
    assert RunEnd(s, 0, IsLocalChar) == 1;
    assert RunEnd(s, 2, IsDomainChar) == 9;
    assert !TldDotAt(s, 8) && !TldDotAt(s, 7) && !TldDotAt(s, 6) && !TldDotAt(s, 5) && !TldDotAt(s, 4);
    assert LastTldDot(s, 2, 8) == Some(3);
    assert TldLength(s, 4, 4) == 4;
  }

  /** The domain part gives back characters until a dot followed by letters
      can come next, and at most four letters end the match, so a trailing
      digit is left out. */
  lemma ScanStopsAfterFourLetters()
    ensures FindAll("a@b.info5", 0) == ["a@b.info"]
  {
    var s := "a@b.info5";
    MatchTakesFourLetters();
    assert s[0..8] == "a@b.info";
    assert RunEnd(s, 8, IsLocalChar) == 9;
    assert MatchAt(s, 8) == None;
  }

  /** The run of `inClass` characters from `i` ends at `e` when all of
      `s[i..e]` are in the class and `s[e]`, if any, is not. */
  lemma RunEndIs(s: string, i: nat, e: nat, inClass: char -> bool)
    requires i <= e <= |s|
    requires forall k :: i <= k < e ==> inClass(s[k])
    requires e < |s| ==> !inClass(s[e])
    ensures RunEnd(s, i, inClass) == e
  {
  }

  /** `s` is the line `"Contact: Jane.Doe@Example.CO foo@bar.io"`, given
      piece by piece. */
  ghost predicate IsContactLine(s: string) {
    && |s| == 39
    && s[..9] == "Contact: "
    && s[9..28] == "Jane.Doe@Example.CO"
    && s[28] == ' '
    && s[29..39] == "foo@bar.io"
  }

  /** The line, written as its pieces one after the other, is one. */
  lemma ContactLineHasItsPieces()
    ensures IsContactLine("Contact: " + "Jane.Doe@Example.CO" + " " + "foo@bar.io")
  {
    var title, first, second := "Contact: ", "Jane.Doe@Example.CO", "foo@bar.io";
    var s := title + first + " " + second;
    assert s[..9] == title;
    assert s[9..28] == first;
    assert s[29..39] == second;
  }

  /** No match starts in `"Contact: "`: the run of local characters there
      ends at the colon or the space, not at an `@`. */
  lemma NoMatchInLabel(s: string, i: nat)
    requires |s| >= 9 && s[..9] == "Contact: " && i < 9
    ensures MatchAt(s, i) == None
  {
    assert s[7] == s[..9][7] && s[8] == s[..9][8];
    assert forall k :: 0 <= k < 9 ==> s[k] == s[..9][k] && s[k] != '@';
    var e := RunEnd(s, i, IsLocalChar);
    assert e < 9;
  }

  /** The scan passes over `"Contact: "` character by character. */
  lemma {:induction false} ScanSkipsLabel(s: string, i: nat)
    requires |s| >= 9 && s[..9] == "Contact: " && i <= 9
    ensures FindAll(s, i) == FindAll(s, 9)
    decreases 9 - i
  {
    if i < 9 {
      NoMatchInLabel(s, i);
      ScanSkipsLabel(s, i + 1);
    }
  }

  /** `Jane.Doe`, with its capitals, is a run of local characters that
      ends at the `@`. */
  lemma MixedCaseLocalPart(s: string)
    requires |s| >= 18 && s[9..18] == "Jane.Doe@"
    ensures RunEnd(s, 9, IsLocalChar) == 17 && s[17] == '@'
  {
    var t := s[9..18];
    assert forall k :: 9 <= k < 18 ==> s[k] == t[k - 9];
    RunEndIs(s, 9, 17, IsLocalChar);
  }

  /** In `Example.CO` the domain part gives back the two capitals after the
      last dot, and the match takes them. */
  lemma MixedCaseDomain(s: string)
    requires |s| > 28 && s[18..28] == "Example.CO" && s[28] == ' '
    ensures RunEnd(s, 18, IsDomainChar) == 28
    ensures LastTldDot(s, 18, 27) == Some(25)
    ensures TldLength(s, 26, 4) == 2
  {
    var t := s[18..28];
    assert forall k :: 18 <= k < 28 ==> s[k] == t[k - 18];
    RunEndIs(s, 18, 28, IsDomainChar);
    assert TldDotAt(s, 25) && !TldDotAt(s, 26) && !TldDotAt(s, 27);
  }

  /** Upper-case letters match on both sides of the `@`. */
  lemma MatchesMixedCase(s: string)
    requires |s| > 28 && s[9..28] == "Jane.Doe@Example.CO" && s[28] == ' '
    ensures MatchAt(s, 9) == Some(28)
  {
    assert s[9..18] == s[9..28][..9];
    assert s[18..28] == s[9..28][9..];
    MixedCaseLocalPart(s);
    MixedCaseDomain(s);
  }

  /** The second address, after the space. */
  lemma MatchesLowerCase(s: string)
    requires |s| == 39 && s[28] == ' ' && s[29..39] == "foo@bar.io"
    ensures MatchAt(s, 28) == None
    ensures MatchAt(s, 29) == Some(39)
  {
    var t := s[29..39];
    assert forall k :: 29 <= k < 39 ==> s[k] == t[k - 29];
    RunEndIs(s, 28, 28, IsLocalChar);
    RunEndIs(s, 29, 32, IsLocalChar);
    RunEndIs(s, 33, 39, IsDomainChar);
    assert TldDotAt(s, 36) && !TldDotAt(s, 37) && !TldDotAt(s, 38);
    assert LastTldDot(s, 33, 38) == Some(36);
    assert TldLength(s, 37, 4) == 2;
  }

  /** A scan that finds nothing in `s[..9]`, a match in `s[9..28]`, nothing
      at the next character and a match running to the end, gives those two
      matches. */
  lemma {:induction false} ScanOfContactLine(s: string)
    requires |s| == 39 && FindAll(s, 0) == FindAll(s, 9)
    requires MatchAt(s, 9) == Some(28) && MatchAt(s, 28) == None && MatchAt(s, 29) == Some(39)
    ensures FindAll(s, 0) == [s[9..28], s[29..39]]
  {
    assert FindAll(s, 39) == [];
    assert FindAll(s, 28) == FindAll(s, 29) == [s[29..39]];
  }

  /** The scan of the line finds both addresses, in order and as written:
      the pattern is matched without regard to case, and the matches keep
      the case of the page. */
  lemma ScanFindsMixedCase(s: string)
    requires IsContactLine(s)
    ensures FindAll(s, 0) == ["Jane.Doe@Example.CO", "foo@bar.io"]
  {
    ScanSkipsLabel(s, 0);
    MatchesMixedCase(s);
    MatchesLowerCase(s);
    ScanOfContactLine(s);
  }

  /** `find_emails_in_html` on the line gives both addresses, case kept. */
  lemma ContactLineEmails(s: string)
    requires IsContactLine(s)
    ensures FindEmailsInHtml(Some(s)) == {"Jane.Doe@Example.CO", "foo@bar.io"}
  {
    ScanFindsMixedCase(s);
    TwoMatchesFound(s, "Jane.Doe@Example.CO", "foo@bar.io");
  }

  /** A scan giving two matches gives the set of the two. */
  lemma TwoMatchesFound(html: string, a: string, b: string)
    requires FindAll(html, 0) == [a, b]
    ensures FindEmailsInHtml(Some(html)) == {a, b}
  {
    var found := FindAll(html, 0);
    assert forall m :: m in found <==> m == a || m == b;
  }

  // ---------------------------------------------------------------------
  // Candidate links
  // ---------------------------------------------------------------------

  /** What the loop body of `find_links_in_html_with_same_hostname` does with
      one raw href of the page at `url`: a root-relative path is put under
      `http://` and the page's netloc; an absolute `http` link is kept when
      `link.find(netloc)` is truthy, i.e. not 0; a fragment is dropped;
      anything else is resolved with `urljoin`. The page's url comes from
      the table, so its netloc is `unicode`: concatenating it with, or
      searching for it in, an href holding a byte above 0x7f raises
      `UnicodeDecodeError`, which the `except` clause swallows, dropping
      the href. A `urljoin` that raises drops the href the same way. */
  function ClassifyLink(lib: Library, url: string, link: string): Option<string> {
    var netloc := lib.netloc(url);
    if StartsWith(link, "/") then
      if IsAscii(link) then Some("http://" + netloc + link) else None
    else if StartsWith(link, "http") || StartsWith(link, "https") then
      if !IsAscii(link) then None
      else if Find(link, netloc) != 0 then Some(link) else None
    else if StartsWith(link, "#") then None
    else lib.urljoin(url, link)
  }

  /** The set the loop builds over a list of raw hrefs. */
  function LinksFrom(lib: Library, url: string, links: seq<string>): set<string> {
    if links == [] then {}
    else
      LinksFrom(lib, url, links[..|links| - 1]) +
      match ClassifyLink(lib, url, links[|links| - 1])
      case None => {}
      case Some(l) => {l}
  }

  /** `find_links_in_html_with_same_hostname(url, html)`. */
  function FindLinksWithSameHostname(lib: Library, url: string, html: Option<string>): set<string> {
    match html
    case None => {}
    case Some(h) => LinksFrom(lib, url, lib.anchorHrefs(h))
  }

  /** A candidate link is exactly the classification of some raw href. */
  lemma {:induction false} LinksFromMembership(lib: Library, url: string, links: seq<string>, x: string)
    ensures x in LinksFrom(lib, url, links) <==> exists k :: 0 <= k < |links| && ClassifyLink(lib, url, links[k]) == Some(x)
  {
    if links != [] {
      var front := links[..|links| - 1];
      LinksFromMembership(lib, url, front, x);
      if exists k :: 0 <= k < |front| && ClassifyLink(lib, url, front[k]) == Some(x) {
        var k :| 0 <= k < |front| && ClassifyLink(lib, url, front[k]) == Some(x);
        assert links[k] == front[k];
      }
      if exists k :: 0 <= k < |links| && ClassifyLink(lib, url, links[k]) == Some(x) {
        var k :| 0 <= k < |links| && ClassifyLink(lib, url, links[k]) == Some(x);
        if k < |front| {
          assert links[k] == front[k];
        }
      }
    }
  }

  /** The four cases of the classification. The absolute-link test is a
      truthiness test on an index: a link is dropped exactly when it starts
      with the page's netloc, so a link to another host is kept, and with an
      empty netloc every absolute link is dropped. In the first two cases an
      href with a byte above 0x7f is dropped. */
  lemma ClassifyLinkCases(lib: Library, url: string, link: string)
    ensures StartsWith(link, "/") ==>
      ClassifyLink(lib, url, link) == (if IsAscii(link) then Some("http://" + lib.netloc(url) + link) else None)
    ensures !StartsWith(link, "/") && StartsWith(link, "http") ==>
      ClassifyLink(lib, url, link) ==
        (if !IsAscii(link) || StartsWith(link, lib.netloc(url)) then None else Some(link))
    ensures StartsWith(link, "#") ==> ClassifyLink(lib, url, link) == None
    ensures !StartsWith(link, "/") && !StartsWith(link, "http") && !StartsWith(link, "#") ==>
      ClassifyLink(lib, url, link) == lib.urljoin(url, link)
  {
    FindZeroIffPrefix(link, lib.netloc(url));
    if StartsWith(link, "https") {
      assert link[..4] == "https"[..4];
    }
  }

  /** Since an absolute link begins with `http`, it can only begin with a
      netloc that is empty or itself begins with `h`: for any other page,
      every 7-bit absolute link is kept, whatever host it points to. */
  lemma AbsoluteLinksKept(lib: Library, url: string, link: string)
    requires StartsWith(link, "http") && IsAscii(link)
    requires |lib.netloc(url)| > 0 && lib.netloc(url)[0] != 'h'
    ensures ClassifyLink(lib, url, link) == Some(link)
  {
    ClassifyLinkCases(lib, url, link);
    assert link[0] == 'h';
  }

  /** Under a 7-bit netloc the first two cases only produce 7-bit links, so
      a candidate with a byte above 0x7f came out of `urljoin`. */
  lemma NonAsciiCandidateWasJoined(lib: Library, url: string, link: string)
    requires IsAscii(lib.netloc(url))
    requires ClassifyLink(lib, url, link).Some? && !IsAscii(ClassifyLink(lib, url, link).value)
    ensures !StartsWith(link, "/") && !StartsWith(link, "http") && !StartsWith(link, "#")
    ensures ClassifyLink(lib, url, link) == lib.urljoin(url, link)
  {
    ClassifyLinkCases(lib, url, link);
  }

  /** No page, no links; and a fragment-only href never becomes a candidate. */
  lemma NoFragmentCandidates(lib: Library, url: string, html: Option<string>)
    ensures html.None? ==> FindLinksWithSameHostname(lib, url, html) == {}
    ensures html.Some? ==> forall k :: 0 <= k < |lib.anchorHrefs(html.value)| && StartsWith(lib.anchorHrefs(html.value)[k], "#") ==>
      ClassifyLink(lib, url, lib.anchorHrefs(html.value)[k]).None?
  {
    if html.Some? {
      forall k | 0 <= k < |lib.anchorHrefs(html.value)| && StartsWith(lib.anchorHrefs(html.value)[k], "#")
        ensures ClassifyLink(lib, url, lib.anchorHrefs(html.value)[k]).None?
      {
        ClassifyLinkCases(lib, url, lib.anchorHrefs(html.value)[k]);
      }
    }
  }
}
