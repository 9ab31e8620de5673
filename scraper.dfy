/**
 * scraper.py: the page processor `extract_next_links` (fetch guards, the
 * near-duplicate gate, word counting and link canonicalisation), the URL
 * filter `is_valid`, and `scraper`, which composes the two.
 */
module Scraper {
  import opened Wrappers
  import opened Text
  import opened Similarity

  /** `resp.raw_response`: its URL ("" when absent) and its body, already decoded to text. */
  datatype RawResponse = RawResponse(url: string, content: Option<string>)

  /** The fetch result `resp`: final URL ("" when absent), status, and the raw response if any. */
  datatype Response = Response(url: string, status: int, raw: Option<RawResponse>)

  /** What the HTML parser yields: the visible text, and every anchor's `href` in document order. */
  datatype Document = Document(text: string, hrefs: seq<string>)

  /** The fields of `urlparse(url)` that `is_valid` reads. */
  datatype ParsedUrl = ParsedUrl(scheme: string, netloc: string, path: string)

  /** A page that passed every guard: the base URL for resolving links, and its document. */
  datatype Page = Page(base: string, doc: Document)

  /** What one call of `extract_next_links` returns, and the state it leaves. */
  datatype Extraction = Extraction(links: seq<string>, counts: map<string, nat>, index: SeenIndex)

  // ---------------------------------------------------------------------------
  // Fetch guards
  // ---------------------------------------------------------------------------

  /**
   * The guards before the duplicate check: a response and a raw response
   * must exist, the status must be 200, the body must be non-empty, some
   * base URL must be known (the raw response's, else the response's, else
   * the requested one), and the body must parse.
   */
  function Admit(parseHtml: string -> Option<Document>, url: string, resp: Option<Response>): (p: Option<Page>)
    ensures p.Some? ==>
      && resp.Some? && resp.value.status == 200 && resp.value.raw.Some?
      && var raw := resp.value.raw.value;
      && raw.content.Some? && raw.content.value != []
      && parseHtml(raw.content.value) == Some(p.value.doc)
      && p.value.base != []
      && p.value.base == (if raw.url != [] then raw.url else if resp.value.url != [] then resp.value.url else url)
    ensures
      (&& resp.Some? && resp.value.status == 200 && resp.value.raw.Some?
       && var raw := resp.value.raw.value;
       && raw.content.Some? && raw.content.value != [] && parseHtml(raw.content.value).Some?
       && (raw.url != [] || resp.value.url != [] || url != []))
      ==> p.Some?
  {
    if resp.None? || resp.value.raw.None? then None
    else if resp.value.status != 200 then None
    else
      var raw := resp.value.raw.value;
      if raw.content.None? || raw.content.value == [] then None
      else
        var base := if raw.url != [] then raw.url else if resp.value.url != [] then resp.value.url else url;
        if base == [] then None
        else
          match parseHtml(raw.content.value)
          case None => None
          case Some(doc) => Some(Page(base, doc))
  }

  // ---------------------------------------------------------------------------
  // Word counts
  // ---------------------------------------------------------------------------

  /** `word_counts.get(w, 0)`. */
  function Count(counts: map<string, nat>, w: string): nat {
    if w in counts then counts[w] else 0
  }

  /** The counts after adding one for every word that is non-empty and not a stop word. */
  function Tally(counts: map<string, nat>, words: seq<string>, stopWords: set<string>): map<string, nat> {
    if words == [] then counts
    else
      var before := Tally(counts, words[..|words| - 1], stopWords);
      var w := words[|words| - 1];
      if w != [] && w !in stopWords then before[w := Count(before, w) + 1] else before
  }

  /** Every key is a counted word: non-empty, not a stop word, seen at least once. */
  ghost predicate CountsWellFormed(counts: map<string, nat>, stopWords: set<string>) {
    forall w :: w in counts ==> w != [] && w !in stopWords && counts[w] >= 1
  }

  // ---------------------------------------------------------------------------
  // Links
  // ---------------------------------------------------------------------------

  /** The schemes of hrefs that are dropped before resolution. */
  const SkippedSchemes: seq<string> := ["javascript:", "mailto:", "tel:", "data:"]

  /** A trimmed href that is dropped: a skipped scheme or a same-page fragment, in any case. */
  predicate IsSkippedHref(href: string) {
    var lower := LowerStr(href);
    (exists scheme :: scheme in SkippedSchemes && StartsWith(lower, scheme)) || StartsWith(lower, "#")
  }

  /** `s.split("#", 1)[0]`: everything before the first `#`. */
  function BeforeFragment(s: string): (r: string)
    ensures '#' !in r
    ensures |r| <= |s| && r == s[..|r|]
    ensures |r| < |s| ==> s[|r|] == '#'
  {
    if s == [] || s[0] == '#' then [] else [s[0]] + BeforeFragment(s[1..])
  }

  /** A link as `extract_next_links` returns it: non-empty, fragment-free, trimmed. */
  predicate IsCanonical(link: string) {
    link != [] && '#' !in link && !IsSpace(link[0]) && !IsSpace(link[|link| - 1])
  }

  /**
   * One anchor's link: trim the href, drop it when empty or skipped,
   * resolve it against the base (None when resolution fails), cut the
   * fragment, trim again, and drop it when nothing is left.
   */
  function Canonicalize(urlJoin: (string, string) -> Option<string>, base: string, href: string): (link: Option<string>)
    ensures link.Some? ==> IsCanonical(link.value)
    ensures link.Some? <==>
      var h := Strip(href);
      h != [] && !IsSkippedHref(h) && urlJoin(base, h).Some? && Strip(BeforeFragment(urlJoin(base, h).value)) != []
    ensures link.Some? ==> link.value == Strip(BeforeFragment(urlJoin(base, Strip(href)).value))
  {
    var h := Strip(href);
    if h == [] || IsSkippedHref(h) then None
    else
      match urlJoin(base, h)
      case None => None
      case Some(absolute) =>
        var link := Strip(BeforeFragment(absolute));
        if link == [] then None else Some(link)
  }

  /** The links of all anchors, in anchor order, repeats included. */
  function Canonicals(urlJoin: (string, string) -> Option<string>, base: string, hrefs: seq<string>): (links: seq<string>)
    ensures forall i :: 0 <= i < |links| ==> IsCanonical(links[i])
  {
    if hrefs == [] then []
    else
      var before := Canonicals(urlJoin, base, hrefs[..|hrefs| - 1]);
      match Canonicalize(urlJoin, base, hrefs[|hrefs| - 1])
      case None => before
      case Some(link) => before + [link]
  }

  /** Index of the first occurrence of `x` in `xs`. */
  function FirstIndex(xs: seq<string>, x: string): (k: nat)
    requires x in xs
    ensures k < |xs| && xs[k] == x
  {
    if xs[0] == x then 0 else 1 + FirstIndex(xs[1..], x)
  }

  /** No element appears twice. */
  predicate Distinct(xs: seq<string>) {
    forall i, j :: 0 <= i < j < |xs| ==> xs[i] != xs[j]
  }

  /** Keeps the first occurrence of every element, in order. */
  function Dedupe(xs: seq<string>): (d: seq<string>)
    ensures Distinct(d)
    ensures forall x :: x in d <==> x in xs
  {
    if xs == [] then []
    else
      var d := Dedupe(xs[..|xs| - 1]);
      var x := xs[|xs| - 1];
      assert forall y :: y in xs <==> y in xs[..|xs| - 1] || y == x;
      if x in d then d else d + [x]
  }

  /** What `extract_next_links` returns for a novel page. */
  function Links(urlJoin: (string, string) -> Option<string>, base: string, hrefs: seq<string>): seq<string> {
    Dedupe(Canonicals(urlJoin, base, hrefs))
  }

  method CollectLinks(urlJoin: (string, string) -> Option<string>, base: string, hrefs: seq<string>)
    returns (outList: seq<string>)
    ensures outList == Links(urlJoin, base, hrefs)
  {
    outList := [];
    var seenSet: set<string> := {};
    var i := 0;
    while i < |hrefs|
      invariant 0 <= i <= |hrefs|
      invariant outList == Dedupe(Canonicals(urlJoin, base, hrefs[..i]))
      invariant forall x :: x in seenSet <==> x in outList
    {
      assert hrefs[..i + 1][..i] == hrefs[..i];
      var absolute := Canonicalize(urlJoin, base, hrefs[i]);
      if absolute.Some? && absolute.value !in seenSet {
        seenSet := seenSet + {absolute.value};
        outList := outList + [absolute.value];
      }
      i := i + 1;
    }
    assert hrefs[..|hrefs|] == hrefs;
  }

  // ---------------------------------------------------------------------------
  // is_valid
  // ---------------------------------------------------------------------------

  const AllowedLinks: seq<string> := ["ics.uci.edu", "cs.uci.edu", "informatics.uci.edu", "stat.uci.edu"]
  const AllowedSublinks: seq<string> := [".ics.uci.edu", ".cs.uci.edu", ".informatics.uci.edu", ".stat.uci.edu"]

  /** The extensions of the pattern `.*\.(css|js|...|gz)$`, with `jpe?g` and `tiff?` spelled out. */
  const BlockedExtensions: set<string> := {
    "css", "js", "bmp", "gif", "jpeg", "jpg", "ico",
    "png", "tiff", "tif", "mid", "mp2", "mp3", "mp4",
    "wav", "avi", "mov", "mpeg", "ram", "m4v", "mkv", "ogg", "ogv", "pdf",
    "ps", "eps", "tex", "ppt", "pptx", "doc", "docx", "xls", "xlsx", "names",
    "data", "dat", "exe", "bz2", "tar", "msi", "bin", "7z", "psd", "dmg", "iso",
    "epub", "dll", "cnf", "tgz", "sha1",
    "thmx", "mso", "arff", "rtf", "jar", "csv",
    "rm", "smil", "wmv", "swf", "wma", "zip", "rar", "gz"
  }

  /** One of the allowed domains, or a host ending in `.` followed by one of them. */
  predicate IsAllowedHost(host: string) {
    host in AllowedLinks || exists d :: d in AllowedSublinks && EndsWith(host, d)
  }

  /** `re.match(r".*\.(ext|...)$", path)`: some `.` is followed by a listed extension that ends the path. */
  predicate MatchesBlockedExtension(path: string) {
    exists k :: 0 <= k < |path| && path[k] == '.' && path[k + 1..] in BlockedExtensions
  }

  /** `is_valid`: http(s), a non-empty allowed host, and no blocked file extension. */
  predicate IsValid(u: ParsedUrl) {
    && (u.scheme == "http" || u.scheme == "https")
    && var host := LowerStr(u.netloc);
    && host != []
    && IsAllowedHost(host)
    && !MatchesBlockedExtension(LowerStr(if u.path == [] then "/" else u.path))
  }

  /** `[link for link in links if is_valid(link)]`. */
  function ValidLinks(urlParse: string -> ParsedUrl, links: seq<string>): (kept: seq<string>)
    ensures forall x :: x in kept <==> x in links && IsValid(urlParse(x))
  {
    if links == [] then []
    else
      var before := ValidLinks(urlParse, links[..|links| - 1]);
      var x := links[|links| - 1];
      assert forall y :: y in links <==> y in links[..|links| - 1] || y == x;
      if IsValid(urlParse(x)) then before + [x] else before
  }

  // ---------------------------------------------------------------------------
  // extract_next_links as a function of the state before the call
  // ---------------------------------------------------------------------------

  ghost function Extract(
    sha256: string -> Digest, stopWords: set<string>,
    parseHtml: string -> Option<Document>, urlJoin: (string, string) -> Option<string>,
    url: string, resp: Option<Response>, counts: map<string, nat>, idx: SeenIndex): Extraction
  {
    match Admit(parseHtml, url, resp)
    case None => Extraction([], counts, idx)
    case Some(page) =>
      var d := Check(sha256, idx, page.doc.text);
      if d.duplicate then Extraction([], counts, d.after)
      else Extraction(Links(urlJoin, page.base, page.doc.hrefs), Tally(counts, Tokens(LowerStr(page.doc.text)), stopWords), d.after)
  }

  // ---------------------------------------------------------------------------
  // The module-level state of scraper.py
  // ---------------------------------------------------------------------------

  class PageScraper {
    /** `word_counts`: occurrences of every non-stop word over all novel pages. */
    var wordCounts: map<string, nat>
    /** The near-duplicate detector's state. */
    const detector: Detector
    /** `variables.stop_words`. */
    const stopWords: set<string>
    /** HTML parsing: None when the parser fails. */
    const parseHtml: string -> Option<Document>
    /** `urljoin(base, href)`: None when it raises. */
    const urlJoin: (string, string) -> Option<string>
    /** `urlparse(url)`. */
    const urlParse: string -> ParsedUrl

    ghost predicate Valid()
      reads this, detector
    {
      detector.Valid() && CountsWellFormed(wordCounts, stopWords)
    }

    constructor (detector: Detector, stopWords: set<string>, parseHtml: string -> Option<Document>,
                 urlJoin: (string, string) -> Option<string>, urlParse: string -> ParsedUrl)
      requires detector.Valid()
      ensures Valid()
      ensures wordCounts == map[]
      ensures this.detector == detector && this.stopWords == stopWords && this.parseHtml == parseHtml
      ensures this.urlJoin == urlJoin && this.urlParse == urlParse
    {
      this.detector := detector;
      this.stopWords := stopWords;
      this.parseHtml := parseHtml;
      this.urlJoin := urlJoin;
      this.urlParse := urlParse;
      wordCounts := map[];
    }

    method ExtractNextLinks(url: string, resp: Option<Response>) returns (links: seq<string>)
      requires Valid()
      modifies this, detector
      ensures Valid()
      ensures Extraction(links, wordCounts, detector.Index())
           == Extract(detector.sha256, stopWords, parseHtml, urlJoin, url, resp, old(wordCounts), old(detector.Index()))
    {
      var admitted := Admit(parseHtml, url, resp);
      if admitted.None? {
        return [];
      }
      var page := admitted.value;
      var duplicate := detector.IsDuplicatePage(page.doc.text);
      if duplicate {
        return [];
      }
      ghost var afterCheck := detector.Index();
      TallyPreservesWellFormed(wordCounts, Tokens(LowerStr(page.doc.text)), stopWords);
      CountWords(Tokens(LowerStr(page.doc.text)));
      assert detector.Index() == afterCheck;
      links := CollectLinks(urlJoin, page.base, page.doc.hrefs);
    }

    /** Adds every non-stop word of a novel page to `wordCounts`. */
    method CountWords(words: seq<string>)
      modifies this
      ensures wordCounts == Tally(old(wordCounts), words, stopWords)
    {
      var i := 0;
      while i < |words|
        invariant 0 <= i <= |words|
        invariant wordCounts == Tally(old(wordCounts), words[..i], stopWords)
      {
        assert words[..i + 1][..i] == words[..i];
        var w := words[i];
        if w != [] && w !in stopWords {
          wordCounts := wordCounts[w := Count(wordCounts, w) + 1];
        }
        i := i + 1;
      }
      assert words[..|words|] == words;
    }

    /** `scraper`: the extracted links that pass `is_valid`, in order. */
    method Scrape(url: string, resp: Option<Response>) returns (links: seq<string>)
      requires Valid()
      modifies this, detector
      ensures Valid()
      ensures var e := Extract(detector.sha256, stopWords, parseHtml, urlJoin, url, resp, old(wordCounts), old(detector.Index()));
        links == ValidLinks(urlParse, e.links) && wordCounts == e.counts && detector.Index() == e.index
    {
      var all := ExtractNextLinks(url, resp);
      links := ValidLinks(urlParse, all);
    }
  }

  // ---------------------------------------------------------------------------
  // Lemmas
  // ---------------------------------------------------------------------------

  /** A word's count goes up by exactly its number of occurrences, unless it is a stop word. */
  lemma {:induction false} TallyCount(counts: map<string, nat>, words: seq<string>, stopWords: set<string>, w: string)
    ensures Count(Tally(counts, words, stopWords), w)
         == Count(counts, w) + (if w == [] || w in stopWords then 0 else multiset(words)[w])
    ensures w in Tally(counts, words, stopWords) <==> w in counts || (w != [] && w !in stopWords && w in words)
    decreases |words|
  {
    if words != [] {
      var prefix := words[..|words| - 1];
      TallyCount(counts, prefix, stopWords, w);
      assert words == prefix + [words[|words| - 1]];
      assert multiset(words) == multiset(prefix) + multiset{words[|words| - 1]};
    }
  }

  lemma {:induction false} TallyPreservesWellFormed(counts: map<string, nat>, words: seq<string>, stopWords: set<string>)
    requires CountsWellFormed(counts, stopWords)
    ensures CountsWellFormed(Tally(counts, words, stopWords), stopWords)
    decreases |words|
  {
    if words != [] {
      TallyPreservesWellFormed(counts, words[..|words| - 1], stopWords);
    }
  }

  /** `d` lists elements of `xs` in the order of their first occurrence in `xs`. */
  ghost predicate InFirstOccurrenceOrder(xs: seq<string>, d: seq<string>) {
    && (forall y :: y in d ==> y in xs)
    && (forall i, j :: 0 <= i < j < |d| ==> FirstIndex(xs, d[i]) < FirstIndex(xs, d[j]))
  }

  /** `Dedupe` keeps the anchors' first-occurrence order. */
  lemma {:induction false} DedupeFirstOccurrenceOrder(xs: seq<string>)
    ensures InFirstOccurrenceOrder(xs, Dedupe(xs))
    decreases |xs|
  {
    if xs != [] {
      var prefix := xs[..|xs| - 1];
      var x := xs[|xs| - 1];
      DedupeFirstOccurrenceOrder(prefix);
      var d := Dedupe(prefix);
      OrderExtends(xs, d);
      if x !in d {
        assert x !in prefix;
        assert d != [] ==> d[|d| - 1] in d;
        FirstIndexOfLast(xs);
        assert Dedupe(xs) == d + [x];
        OrderAppendLast(xs, d);
      } else {
        assert Dedupe(xs) == d;
      }
    }
  }

  lemma OrderExtends(xs: seq<string>, d: seq<string>)
    requires xs != [] && InFirstOccurrenceOrder(xs[..|xs| - 1], d)
    ensures InFirstOccurrenceOrder(xs, d)
    ensures forall y :: y in d ==> FirstIndex(xs, y) < |xs| - 1
  {
    var prefix := xs[..|xs| - 1];
    forall y | y in prefix
      ensures FirstIndex(xs, y) == FirstIndex(prefix, y)
    {
      FirstIndexOfPrefix(xs, prefix, y);
    }
    forall y | y in d
      ensures y in xs
    {
      assert y in prefix;
    }
  }

  lemma OrderAppendLast(xs: seq<string>, d: seq<string>)
    requires xs != [] && FirstIndex(xs, xs[|xs| - 1]) == |xs| - 1
    requires InFirstOccurrenceOrder(xs, d)
    requires d != [] ==> FirstIndex(xs, d[|d| - 1]) < |xs| - 1
    ensures InFirstOccurrenceOrder(xs, d + [xs[|xs| - 1]])
  {
    var x := xs[|xs| - 1];
    var d' := d + [x];
    assert forall y :: y in d' ==> y in xs by {
      forall y | y in d'
        ensures y in xs
      {
        if y != x {
          assert y in d;
        }
      }
    }
    forall i, j | 0 <= i < j < |d'|
      ensures FirstIndex(xs, d'[i]) < FirstIndex(xs, d'[j])
    {
      assert d'[i] == d[i];
      if j < |d| {
        assert d'[j] == d[j];
      } else {
        assert d'[j] == x;
        assert i == |d| - 1 || FirstIndex(xs, d[i]) < FirstIndex(xs, d[|d| - 1]);
      }
    }
  }

  lemma {:induction false} FirstIndexOfPrefix(xs: seq<string>, prefix: seq<string>, y: string)
    requires prefix <= xs && y in prefix
    ensures FirstIndex(xs, y) == FirstIndex(prefix, y)
    decreases |prefix|
  {
    if xs[0] != y {
      assert prefix[0] == xs[0];
      FirstIndexOfPrefix(xs[1..], prefix[1..], y);
    }
  }

  /**
   * No earlier position holds the element `FirstIndex` finds, so the index
   * is the first occurrence. This is what gives `InFirstOccurrenceOrder`,
   * stated over `FirstIndex`, its meaning.
   */
  lemma {:induction false} FirstIndexIsFirst(xs: seq<string>, x: string)
    requires x in xs
    ensures forall k :: 0 <= k < FirstIndex(xs, x) ==> xs[k] != x
    decreases |xs|
  {
    if xs[0] != x {
      FirstIndexIsFirst(xs[1..], x);
      forall k | 0 <= k < FirstIndex(xs, x)
        ensures xs[k] != x
      {
        if k > 0 {
          assert xs[k] == xs[1..][k - 1];
        }
      }
    }
  }

  lemma FirstIndexOfLast(xs: seq<string>)
    requires xs != [] && xs[|xs| - 1] !in xs[..|xs| - 1]
    ensures FirstIndex(xs, xs[|xs| - 1]) == |xs| - 1
  {
  }

  lemma {:induction false} CanonicalsAppend(urlJoin: (string, string) -> Option<string>, base: string, a: seq<string>, b: seq<string>)
    ensures Canonicals(urlJoin, base, a + b) == Canonicals(urlJoin, base, a) + Canonicals(urlJoin, base, b)
    decreases |b|
  {
    if b == [] {
      assert a + b == a;
    } else {
      var b' := b[..|b| - 1];
      assert (a + b)[..|a + b| - 1] == a + b';
      assert (a + b)[|a + b| - 1] == b[|b| - 1];
      CanonicalsAppend(urlJoin, base, a, b');
    }
  }

  /** An anchor that yields no link can be removed without changing the result. */
  lemma SkippedAnchorContributesNothing(urlJoin: (string, string) -> Option<string>, base: string,
                                        a: seq<string>, href: string, b: seq<string>)
    requires Canonicalize(urlJoin, base, href) == None
    ensures Links(urlJoin, base, a + [href] + b) == Links(urlJoin, base, a + b)
  {
    CanonicalsAppend(urlJoin, base, a + [href], b);
    CanonicalsAppend(urlJoin, base, a, [href]);
    CanonicalsAppend(urlJoin, base, a, b);
    assert Canonicals(urlJoin, base, [href]) == [] by {
      assert [href][..0] == [];
    }
  }

  /** Every anchor that yields a link puts that link among the anchors' links. */
  lemma {:induction false} CanonicalsComplete(urlJoin: (string, string) -> Option<string>, base: string,
                                              hrefs: seq<string>, i: nat)
    requires i < |hrefs| && Canonicalize(urlJoin, base, hrefs[i]).Some?
    ensures Canonicalize(urlJoin, base, hrefs[i]).value in Canonicals(urlJoin, base, hrefs)
    decreases |hrefs|
  {
    if i < |hrefs| - 1 {
      var init := hrefs[..|hrefs| - 1];
      assert init[i] == hrefs[i];
      CanonicalsComplete(urlJoin, base, init, i);
    }
  }

  /** Every link among the anchors' links is the link of some anchor. */
  lemma {:induction false} CanonicalsSound(urlJoin: (string, string) -> Option<string>, base: string,
                                           hrefs: seq<string>, l: string)
    requires l in Canonicals(urlJoin, base, hrefs)
    ensures exists i :: 0 <= i < |hrefs| && Canonicalize(urlJoin, base, hrefs[i]) == Some(l)
    decreases |hrefs|
  {
    var n := |hrefs| - 1;
    var init := hrefs[..n];
    LastOrEarlier(urlJoin, base, hrefs, l);
    if Canonicalize(urlJoin, base, hrefs[n]) != Some(l) {
      CanonicalsSound(urlJoin, base, init, l);
      assert forall i :: 0 <= i < |init| ==> init[i] == hrefs[i];
    }
  }

  /** A link among the anchors' links comes from the last anchor or from those before it. */
  lemma LastOrEarlier(urlJoin: (string, string) -> Option<string>, base: string,
                      hrefs: seq<string>, l: string)
    requires l in Canonicals(urlJoin, base, hrefs)
    ensures hrefs != []
    ensures Canonicalize(urlJoin, base, hrefs[|hrefs| - 1]) == Some(l)
      || l in Canonicals(urlJoin, base, hrefs[..|hrefs| - 1])
  {
  }

  /** Empty hrefs and those starting with `javascript:`, `mailto:`, `tel:`, `data:` or `#`, in any case, yield nothing. */
  lemma SkippedHrefYieldsNothing(urlJoin: (string, string) -> Option<string>, base: string, href: string)
    requires var h := Strip(href);
      h == [] || StartsWith(LowerStr(h), "#")
      || exists scheme :: scheme in SkippedSchemes && StartsWith(LowerStr(h), scheme)
    ensures Canonicalize(urlJoin, base, href) == None
  {
  }

  /** Everything `extract_next_links` returns is distinct, fragment-free, non-empty and trimmed. */
  lemma LinksAreCanonicalAndDistinct(urlJoin: (string, string) -> Option<string>, base: string, hrefs: seq<string>)
    ensures var links := Links(urlJoin, base, hrefs);
      && Distinct(links)
      && (forall l :: l in links ==> IsCanonical(l))
  {
    var cs := Canonicals(urlJoin, base, hrefs);
    forall l | l in Links(urlJoin, base, hrefs)
      ensures IsCanonical(l)
    {
      assert l in cs;
    }
  }

  lemma {:induction false} BeforeFragmentCut(u: string, fragment: string)
    requires '#' !in u
    ensures BeforeFragment(u + "#" + fragment) == u
    decreases |u|
  {
    if u != [] {
      assert (u + "#" + fragment)[1..] == u[1..] + "#" + fragment;
      BeforeFragmentCut(u[1..], fragment);
    }
  }

  /** Two hrefs resolving to URLs that agree up to the fragment give the same link. */
  lemma FragmentVariantsAgree(urlJoin: (string, string) -> Option<string>, base: string,
                              h1: string, h2: string, a1: string, a2: string)
    requires Strip(h1) != [] && !IsSkippedHref(Strip(h1)) && urlJoin(base, Strip(h1)) == Some(a1)
    requires Strip(h2) != [] && !IsSkippedHref(Strip(h2)) && urlJoin(base, Strip(h2)) == Some(a2)
    requires BeforeFragment(a1) == BeforeFragment(a2)
    ensures Canonicalize(urlJoin, base, h1) == Canonicalize(urlJoin, base, h2)
  {
  }

  /** An href resolving to `u#fragment` gives the same link as one resolving to plain `u`. */
  lemma FragmentIsDropped(urlJoin: (string, string) -> Option<string>, base: string,
                          h1: string, h2: string, u: string, fragment: string)
    requires '#' !in u
    requires Strip(h1) != [] && !IsSkippedHref(Strip(h1)) && urlJoin(base, Strip(h1)) == Some(u)
    requires Strip(h2) != [] && !IsSkippedHref(Strip(h2)) && urlJoin(base, Strip(h2)) == Some(u + "#" + fragment)
    ensures Canonicalize(urlJoin, base, h1) == Canonicalize(urlJoin, base, h2)
  {
    BeforeFragmentCut(u, fragment);
    assert BeforeFragment(u) == u;
    FragmentVariantsAgree(urlJoin, base, h1, h2, u, u + "#" + fragment);
  }

  /** A fetch that fails a guard returns no links and changes neither the counts nor the detector. */
  lemma RejectedFetchChangesNothing(
    sha256: string -> Digest, stopWords: set<string>,
    parseHtml: string -> Option<Document>, urlJoin: (string, string) -> Option<string>,
    url: string, resp: Option<Response>, counts: map<string, nat>, idx: SeenIndex)
    requires
      || resp.None? || resp.value.raw.None? || resp.value.status != 200
      || resp.value.raw.value.content.None? || resp.value.raw.value.content.value == []
    ensures Extract(sha256, stopWords, parseHtml, urlJoin, url, resp, counts, idx) == Extraction([], counts, idx)
  {
  }

  /** A page the detector calls a duplicate returns no links and changes neither the counts nor the detector. */
  lemma DuplicateChangesNothing(
    sha256: string -> Digest, stopWords: set<string>,
    parseHtml: string -> Option<Document>, urlJoin: (string, string) -> Option<string>,
    url: string, resp: Option<Response>, counts: map<string, nat>, idx: SeenIndex)
    requires Admit(parseHtml, url, resp).Some?
    requires Check(sha256, idx, Admit(parseHtml, url, resp).value.doc.text).duplicate
    ensures Extract(sha256, stopWords, parseHtml, urlJoin, url, resp, counts, idx) == Extraction([], counts, idx)
  {
  }

  /**
   * A novel page adds to every non-stop word's count exactly its number of
   * occurrences among the lower-cased tokens, and returns its links.
   */
  lemma NovelPageCounts(
    sha256: string -> Digest, stopWords: set<string>,
    parseHtml: string -> Option<Document>, urlJoin: (string, string) -> Option<string>,
    url: string, resp: Option<Response>, counts: map<string, nat>, idx: SeenIndex, w: string)
    requires Admit(parseHtml, url, resp).Some?
    requires !Check(sha256, idx, Admit(parseHtml, url, resp).value.doc.text).duplicate
    ensures var page := Admit(parseHtml, url, resp).value;
      var e := Extract(sha256, stopWords, parseHtml, urlJoin, url, resp, counts, idx);
      && Count(e.counts, w) == Count(counts, w) + (if w in stopWords then 0 else multiset(Tokens(LowerStr(page.doc.text)))[w])
      && e.links == Links(urlJoin, page.base, page.doc.hrefs)
  {
    var page := Admit(parseHtml, url, resp).value;
    var words := Tokens(LowerStr(page.doc.text));
    TallyCount(counts, words, stopWords, w);
    if w == [] {
      assert w !in words;
    }
  }

  /** The filter keeps order: filtering a concatenation is concatenating the filtered parts. */
  lemma {:induction false} ValidLinksAppend(urlParse: string -> ParsedUrl, a: seq<string>, b: seq<string>)
    ensures ValidLinks(urlParse, a + b) == ValidLinks(urlParse, a) + ValidLinks(urlParse, b)
    decreases |b|
  {
    if b == [] {
      assert a + b == a;
    } else {
      var b' := b[..|b| - 1];
      assert (a + b)[..|a + b| - 1] == a + b';
      assert (a + b)[|a + b| - 1] == b[|b| - 1];
      ValidLinksAppend(urlParse, a, b');
    }
  }

  lemma {:induction false} ValidLinksKeepsDistinct(urlParse: string -> ParsedUrl, links: seq<string>)
    requires Distinct(links)
    ensures Distinct(ValidLinks(urlParse, links))
    decreases |links|
  {
    if links != [] {
      var prefix := links[..|links| - 1];
      var x := links[|links| - 1];
      assert Distinct(prefix);
      ValidLinksKeepsDistinct(urlParse, prefix);
      var before := ValidLinks(urlParse, prefix);
      assert x !in prefix;
      assert x !in before;
      if IsValid(urlParse(x)) {
        var kept := before + [x];
        assert ValidLinks(urlParse, links) == kept;
        forall i, j | 0 <= i < j < |kept|
          ensures kept[i] != kept[j]
        {
          assert kept[i] == before[i];
          if j < |before| {
            assert kept[j] == before[j];
          }
        }
      }
    }
  }

  /** Every link `scraper` returns passes `is_valid`, is canonical, and appears once. */
  lemma ScrapedLinksWellFormed(urlParse: string -> ParsedUrl, urlJoin: (string, string) -> Option<string>,
                               base: string, hrefs: seq<string>)
    ensures var kept := ValidLinks(urlParse, Links(urlJoin, base, hrefs));
      && (forall l :: l in kept ==> IsValid(urlParse(l)) && IsCanonical(l))
      && Distinct(kept)
  {
    LinksAreCanonicalAndDistinct(urlJoin, base, hrefs);
    ValidLinksKeepsDistinct(urlParse, Links(urlJoin, base, hrefs));
  }

  // --- is_valid ---

  /** Some `.` followed by a member of `exts` to the end is the same as ending in `.` + a member. */
  lemma DotExtensionIsSuffix(path: string, exts: set<string>)
    ensures (exists k :: 0 <= k < |path| && path[k] == '.' && path[k + 1..] in exts)
        <==> exists e :: e in exts && EndsWith(path, "." + e)
  {
    if exists k :: 0 <= k < |path| && path[k] == '.' && path[k + 1..] in exts {
      var k :| 0 <= k < |path| && path[k] == '.' && path[k + 1..] in exts;
      var e := path[k + 1..];
      assert path[|path| - |"." + e|..] == "." + e;
    }
    if exists e :: e in exts && EndsWith(path, "." + e) {
      var e :| e in exts && EndsWith(path, "." + e);
      var k := |path| - |e| - 1;
      assert path[k] == ("." + e)[0];
      assert path[k + 1..] == e;
    }
  }

  /** The regular-expression reading of the extension rule is a plain suffix test. */
  lemma BlockedExtensionIsSuffix(path: string)
    ensures MatchesBlockedExtension(path) <==> exists e :: e in BlockedExtensions && EndsWith(path, "." + e)
  {
    DotExtensionIsSuffix(path, BlockedExtensions);
  }

  /** Ending in `.` + d is ending in d with a `.` just before it. */
  lemma DotSuffix(host: string, d: string)
    ensures EndsWith(host, "." + d) <==> |host| > |d| && host[|host| - |d| - 1] == '.' && EndsWith(host, d)
  {
    if EndsWith(host, "." + d) {
      assert host[|host| - |d| - 1] == ("." + d)[0];
      assert host[|host| - |d|..] == host[|host| - |d| - 1..][1..];
    }
    if |host| > |d| && host[|host| - |d| - 1] == '.' && EndsWith(host, d) {
      assert host[|host| - |d| - 1..] == [host[|host| - |d| - 1]] + host[|host| - |d|..];
    }
  }

  /** Being allowed by a domain: equal to it, or ending in `.` followed by it. */
  predicate UnderDomain(host: string, d: string) {
    host == d || (|host| > |d| && host[|host| - |d| - 1] == '.' && EndsWith(host, d))
  }

  lemma SublinkIsDotted(i: nat)
    requires i < |AllowedLinks|
    ensures |AllowedSublinks| == |AllowedLinks| && AllowedSublinks[i] == "." + AllowedLinks[i]
  {
    var d := AllowedLinks[i];
    var sub := AllowedSublinks[i];
    assert |sub| == |"." + d|;
    forall k | 0 <= k < |sub|
      ensures sub[k] == ("." + d)[k]
    {
      if k > 0 {
        assert ("." + d)[k] == d[k - 1];
      }
    }
  }

  /** A host is allowed exactly when it is an allowed domain or ends in `.` followed by one. */
  lemma AllowedHostDotBoundary(host: string)
    ensures IsAllowedHost(host) <==> exists d :: d in AllowedLinks && UnderDomain(host, d)
  {
    if IsAllowedHost(host) {
      if host in AllowedLinks {
        assert UnderDomain(host, host);
      } else {
        var sub :| sub in AllowedSublinks && EndsWith(host, sub);
        var i :| 0 <= i < |AllowedSublinks| && AllowedSublinks[i] == sub;
        SublinkIsDotted(i);
        DotSuffix(host, AllowedLinks[i]);
        assert UnderDomain(host, AllowedLinks[i]);
      }
    }
    if exists d :: d in AllowedLinks && UnderDomain(host, d) {
      var d :| d in AllowedLinks && UnderDomain(host, d);
      if host != d {
        var i :| 0 <= i < |AllowedLinks| && AllowedLinks[i] == d;
        SublinkIsDotted(i);
        DotSuffix(host, d);
        assert AllowedSublinks[i] in AllowedSublinks && EndsWith(host, AllowedSublinks[i]);
      }
    }
  }

  /**
   * `is_valid` in plain terms: http or https; a non-empty lower-cased host
   * that is an allowed domain or a dot-separated subdomain of one; and a
   * lower-cased path (or "/") that does not end in `.` + a listed extension.
   */
  lemma IsValidExactly(u: ParsedUrl)
    ensures var host := LowerStr(u.netloc);
      var path := LowerStr(if u.path == [] then "/" else u.path);
      IsValid(u) <==>
        && (u.scheme == "http" || u.scheme == "https")
        && host != []
        && (exists d :: d in AllowedLinks && UnderDomain(host, d))
        && !(exists e :: e in BlockedExtensions && EndsWith(path, "." + e))
  {
    AllowedHostDotBoundary(LowerStr(u.netloc));
    BlockedExtensionIsSuffix(LowerStr(if u.path == [] then "/" else u.path));
  }

  lemma AllowedHostEndsWithU(host: string)
    requires IsAllowedHost(host)
    ensures host != [] && host[|host| - 1] == 'u'
  {
    if host !in AllowedLinks {
      var sub :| sub in AllowedSublinks && EndsWith(host, sub);
      assert host[|host| - 1] == sub[|sub| - 1];
    }
  }

  /** A netloc carrying an explicit port never passes, since every allowed host ends in a letter. */
  lemma ExplicitPortRejected(u: ParsedUrl, host: string, port: string)
    requires u.netloc == host + ":" + port
    requires port != [] && forall i :: 0 <= i < |port| ==> '0' <= port[i] <= '9'
    ensures !IsValid(u)
  {
    var lowered := LowerStr(u.netloc);
    assert lowered[|lowered| - 1] == LowerChar(port[|port| - 1]);
    if IsAllowedHost(lowered) {
      AllowedHostEndsWithU(lowered);
    }
  }

  /** `is_valid` ignores the case of the host and of the path. */
  lemma IsValidIgnoresCase(u: ParsedUrl)
    ensures IsValid(u) == IsValid(u.(netloc := LowerStr(u.netloc), path := LowerStr(u.path)))
  {
    LowerStrIdempotent(u.netloc);
    LowerStrIdempotent(u.path);
  }

  lemma SubdomainAllowed()
    ensures IsAllowedHost("www.ics.uci.edu")
  {
    var host := "www.ics.uci.edu";
    var sub := AllowedSublinks[0];
    forall k | 0 <= k < |sub|
      ensures host[3..][k] == sub[k]
    {
    }
    assert EndsWith(host, sub);
  }

  /** A host that merely ends in an allowed domain's letters, without the dot, is refused. */
  lemma LookalikeHostRefused()
    ensures !IsAllowedHost("evilics.uci.edu")
  {
    var host := "evilics.uci.edu";
    assert !EndsWith(host, AllowedSublinks[0]) by {
      assert host[|host| - |AllowedSublinks[0]|] == 'l';
    }
    assert !EndsWith(host, AllowedSublinks[1]) by {
      assert host[|host| - |AllowedSublinks[1]|] == 'i';
    }
    assert !EndsWith(host, AllowedSublinks[2]);
    assert !EndsWith(host, AllowedSublinks[3]) by {
      assert host[|host| - |AllowedSublinks[3]|] == 'i';
    }
  }

  /** `jpe?g` and `tiff?` cover both spellings, in any case. */
  lemma BlockedExtensionExamples()
    ensures MatchesBlockedExtension(LowerStr("/photo.JPG"))
    ensures MatchesBlockedExtension(LowerStr("/photo.jpeg"))
    ensures MatchesBlockedExtension(LowerStr("/scan.TIFF"))
    ensures MatchesBlockedExtension(LowerStr("/notes.PDF"))
  {
    assert LowerStr("/photo.JPG")[6] == '.' && LowerStr("/photo.JPG")[7..] == "jpg";
    assert LowerStr("/photo.jpeg")[6] == '.' && LowerStr("/photo.jpeg")[7..] == "jpeg";
    assert LowerStr("/scan.TIFF")[5] == '.' && LowerStr("/scan.TIFF")[6..] == "tiff";
    assert LowerStr("/notes.PDF")[6] == '.' && LowerStr("/notes.PDF")[7..] == "pdf";
  }

  lemma HostAlreadyLowercase()
    ensures LowerStr("www.ics.uci.edu") == "www.ics.uci.edu"
  {
    var host := "www.ics.uci.edu";
    forall k | 0 <= k < |host|
      ensures LowerStr(host)[k] == host[k]
    {
    }
  }

  lemma NoDotNoExtension()
    ensures !MatchesBlockedExtension(LowerStr("/about"))
  {
    var path := LowerStr("/about");
    assert forall k :: 0 <= k < |path| ==> path[k] != '.';
  }

  /** A page under an allowed subdomain with no file extension passes. */
  lemma PlainPageAccepted()
    ensures IsValid(ParsedUrl("https", "www.ics.uci.edu", "/about"))
  {
    HostAlreadyLowercase();
    SubdomainAllowed();
    NoDotNoExtension();
  }
}
