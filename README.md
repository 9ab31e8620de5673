# Crawler page core, modelled in Dafny

This project models the per-page logic of a focused web crawler. For each
fetched page the crawler:

- rejects bad fetch results;
- asks a near-duplicate detector whether it has seen the page's content
  before, either exactly or approximately;
- counts the page's non-stop words into a running table;
- extracts the page's outgoing links in canonical form, in order, without
  repeats;
- keeps only the links whose URL is on an allowed university host and does
  not name a binary or media file.

The model has four modules:

- `Wrappers` (`wrappers.dfy`): the `Option` datatype, used for Python's
  `None`.
- `Text` (`text.dfy`): the string operations the two source files take from
  Python's `str` and `re`:
  - `isspace` whitespace;
  - ASCII lower-casing;
  - `strip`;
  - the `\s+` → `" "` rewrite;
  - `re.findall` of a character class and `split()`, both as maximal runs;
  - `" ".join`.
- `Similarity` (`similarity.dfy`): `is_duplicate_page`, written three ways:
  - the ghost function `Check`, which maps the index before a call to the
    answer and the index after it;
  - the class `Detector`, whose fields `seenHashes` and `seenSigs` are the
    module-level `seen_hashes` and `seen_sigs` of the source. Its method
    `IsDuplicatePage` updates them in place and is proved equal to `Check`;
  - the loops that build the shingle set, the min-hash signature and the
    agreement count, each written as a method and proved against its
    specification function.
- `Scraper` (`scraper.dfy`): `extract_next_links`, `is_valid` and `scraper`.
  - The ghost function `Extract` describes one call of `extract_next_links`
    as a function of the word counts and detector index before the call.
  - The class `PageScraper` holds `word_counts` as a field and the detector
    it consults. Its method `ExtractNextLinks` is proved equal to `Extract`;
    it runs the word-count loop in its method `CountWords`, and `Scrape`
    filters its result.
  - The link-deduplication loop over the anchors, with `out_list` and
    `seen_set`, is the module-level method `CollectLinks`. It touches no
    crawler state and is proved equal to the function `Links`.

SHA-256 is a parameter of type `string -> nat`. A digest is modelled as the
integer its hexadecimal spelling denotes. Each band value is that integer
reduced modulo 2^32, computed on `str(band) + shingle`.

HTML parsing, `urljoin` and `urlparse` are also parameters:

- `parseHtml` maps the body to the page text and the anchors' `href`
  values, or to `None` when parsing fails;
- `urlJoin` resolves an href against the base, or gives `None` when
  resolution raises;
- `urlParse` yields a record of scheme, netloc and path.

## Model

| member | source | states |
|---|---|---|
| Text.LowerStr | similarity.py:24 | lower-casing keeps the length and lower-cases each character in place |
| Text.Strip | scraper.py:92 | the result is a slice of the input with only whitespace before and after it, and has no whitespace at either end; so it is empty exactly when the input is all whitespace |
| Text.Collapse | similarity.py:25 | collapsing whitespace runs gives the empty string exactly for the empty input |
| Text.Runs | similarity.py:35 | every run returned by `findall`/`split` is non-empty and contains no separator character |
| Text.Tokens | similarity.py:35 | every token of `re.findall(r"[a-zA-Z0-9]+", …)` (also scraper.py:81) is a non-empty string of ASCII letters and digits |
| Text.RunsGaps | similarity.py:35 | `findall` and `split()` return every maximal run, in order: the input is the runs interleaved with stretches of separators only, and the stretches between two runs are non-empty, so together with the `Runs` contract no run could be longer and no character outside the runs is dropped |
| Text.StripLower | similarity.py:24 | stripping and lower-casing commute |
| Text.LowerStrIdempotent | scraper.py:131 | lower-casing twice is lower-casing once |
| Text.FieldsStrip | similarity.py:24 | stripping does not change the whitespace-separated fields |
| Text.CollapseStripped | similarity.py:25 | on text with no whitespace at either end, `re.sub(r"\s+", " ", t)` equals `" ".join(t.split())` |
| Similarity.Normalize | similarity.py:24-27 | the normalised text is empty exactly when the input is empty or all whitespace, which is the early `return False` |
| Similarity.NormalizeAsFields | similarity.py:24-25 | normalising equals lower-casing, splitting on whitespace and joining with single spaces, so normalisation only forgets case and the extent of whitespace |
| Similarity.MinHashSignature | similarity.py:44-55 | the signature has N = 64 entries; entry i is the least band-i value over all shingles |
| Similarity.BandValue | similarity.py:48-50 | a band value, `int(sha256(str(band) + shingle), 16) % 2**32`, lies in [0, 2^32) |
| Similarity.SignatureEntry | similarity.py:45-53 | each entry lies in [0, 2^32), is the band value of some shingle, and is at most every shingle's band value |
| Similarity.Agreements | similarity.py:58-61 | the number of agreeing positions of `zip(sig, old)` is at most the length of either signature |
| Similarity.NearIff | similarity.py:63 | `Near`, the test `same / 64 >= 0.8`, holds exactly when `5 * same >= 4 * 64`, that is when at least 52 positions agree |
| Similarity.Check | similarity.py:16-69 | a duplicate answer leaves the index unchanged; in every case the hash set and the signature list only grow, and the list only at its end |
| Similarity.BuildShingles | similarity.py:36-38 | the loop builds exactly `Shingles`, the set of joined contiguous K-word windows |
| Similarity.ComputeSignature | similarity.py:44-55 | the nested loop with its running minimum `best` produces the min-hash signature |
| Similarity.FindNear | similarity.py:57-64 | the scan answers true exactly when some stored signature is near the new one |
| Similarity.CountAgreements | similarity.py:58-61 | the `zip` loop counts the positions where the two signatures agree |
| Similarity.Detector.constructor | similarity.py:4-5 | the detector starts with no hashes and no signatures |
| Similarity.Detector.IsDuplicatePage | similarity.py:16-69 | the answer and the new `seen_hashes`/`seen_sigs` are those `Check` gives for the old state; both fields stay unchanged when the answer is true; the index stays well formed |
| Similarity.SameWordsSameDecision | similarity.py:24-32 | two texts with the same lower-cased whitespace-separated words get the same answer and leave the same index |
| Similarity.BlankIsNeutral | similarity.py:18-27 | empty or whitespace-only text is not a duplicate and changes nothing |
| Similarity.RegisteredThenDuplicate | similarity.py:29-32 | once a text has been accepted as novel, any text equal to it up to case and whitespace is an exact duplicate |
| Similarity.RepeatIsDuplicate | similarity.py:31-32 | asking twice about the same non-blank text gets "duplicate" the second time, whether the first call registered it or called it a near-duplicate |
| Similarity.ShinglesEmptyIff | similarity.py:36-40 | the shingle set `Shingles` is empty exactly when there are fewer than K = 3 words |
| Similarity.FewWordsRegisterHashOnly | similarity.py:34-42 | a new text with fewer than K words answers false, adds its hash, and leaves the signatures as they were |
| Similarity.SignaturePath | similarity.py:57-69 | past the hash check, the answer is "duplicate" exactly when some stored signature agrees in at least 52 of 64 positions; a novel page adds its hash and appends its signature as the last entry |
| Similarity.CheckPreservesWellFormed | similarity.py:41 | every call keeps the signatures 64 entries long and below 2^32, and never more numerous than the hashes |
| Similarity.SelfIsNear | similarity.py:57-64 | a signature agrees with itself in all 64 positions, so it is its own near-duplicate |
| Similarity.AgreementsCountsPositions | similarity.py:58-61 | the agreement count equals the size of the set of positions where `zip(sig, old)` pairs are equal |
| Scraper.Admit | scraper.py:27-74 | a page is admitted exactly when: a response and a raw response exist; the status is 200; the body is non-empty; the body parses; the base is the raw response's URL if non-empty, else the response's URL if non-empty, else the requested URL; and that base is non-empty |
| Scraper.BeforeFragment | scraper.py:104-105 | the result has no `#`, is a prefix of the input, and stops exactly at the first `#` |
| Scraper.Canonicalize | scraper.py:92-107 | an anchor yields a link exactly when its trimmed href is non-empty and not skipped, it resolves against the base, and the resolved URL is not blank once its fragment is cut; the link is then that trimmed, fragment-free URL, and so is non-empty, `#`-free and trimmed |
| Scraper.Canonicals | scraper.py:91-107 | every link extracted from the anchors is canonical |
| Scraper.CanonicalsComplete | scraper.py:91-113 | every anchor whose href yields a link puts that link among the extracted links |
| Scraper.CanonicalsSound | scraper.py:91-113 | every extracted link is the link of some anchor |
| Scraper.Dedupe | scraper.py:109-113 | the `seen_set` filter yields pairwise distinct links with the same elements as its input |
| Scraper.CollectLinks | scraper.py:88-115 | the loop over anchors, with `out_list` and `seen_set`, returns `Links`, the deduplicated canonical links |
| Scraper.ValidLinks | scraper.py:14 | a link is kept exactly when it is among the extracted links and passes `is_valid` |
| Scraper.PageScraper.constructor | scraper.py:10 | the word counts start empty |
| Scraper.PageScraper.ExtractNextLinks | scraper.py:16-115 | the returned links, the new `word_counts` and the new detector state are those `Extract` (one call of `extract_next_links` as a function of the old state) gives for the old state; the word counts stay well formed |
| Scraper.PageScraper.CountWords | scraper.py:80-86 | the word loop leaves the table `Tally` gives: one more per occurrence of every non-empty non-stop word |
| Scraper.PageScraper.Scrape | scraper.py:12-14 | `scraper` returns the extracted links filtered by `is_valid`, with the state `extract_next_links` leaves |
| Scraper.TallyCount | scraper.py:80-86 | under `Tally`, each word's count grows by exactly its number of occurrences, or by nothing if it is a stop word or empty; a key is present afterwards exactly when it was before or it was counted |
| Scraper.TallyPreservesWellFormed | scraper.py:82-84 | every key of the table is a non-empty, non-stop word with a positive count |
| Scraper.DedupeFirstOccurrenceOrder | scraper.py:109-113 | the deduplicated links appear in the order of their first occurrence |
| Scraper.CanonicalsAppend | scraper.py:91 | the links of a concatenation of anchor lists are the concatenation of their links |
| Scraper.SkippedAnchorContributesNothing | scraper.py:91-102 | removing an anchor that yields no link does not change the result |
| Scraper.SkippedHrefYieldsNothing | scraper.py:92-97 | an href that is empty after trimming, or that `IsSkippedHref` refuses (scraper.py:95-97) because it starts with `javascript:`, `mailto:`, `tel:`, `data:` or `#` in any case, yields no link |
| Scraper.LinksAreCanonicalAndDistinct | scraper.py:88-115 | the links `Links` returns are pairwise distinct, non-empty, `#`-free and trimmed |
| Scraper.FragmentVariantsAgree | scraper.py:104-107 | two hrefs whose resolved URLs agree before their first `#` give the same link |
| Scraper.FragmentIsDropped | scraper.py:104-107 | an href resolving to `u#fragment` gives the same link as one resolving to the fragment-free `u` |
| Scraper.RejectedFetchChangesNothing | scraper.py:27-40 | under `Extract`, a missing response or raw response, a status other than 200, or an empty body returns `[]` and leaves the counts and the detector unchanged |
| Scraper.DuplicateChangesNothing | scraper.py:77-78 | a page the detector calls a duplicate returns `[]` and leaves the counts and the detector's index unchanged |
| Scraper.NovelPageCounts | scraper.py:80-86 | on a novel page, each word's count grows by its occurrences among the lower-cased `[a-zA-Z0-9]+` tokens unless it is a stop word, and the page's links are returned |
| Scraper.ValidLinksAppend | scraper.py:14 | filtering keeps order: the filter of a concatenation is the concatenation of the filters |
| Scraper.ValidLinksKeepsDistinct | scraper.py:14 | filtering distinct links gives distinct links |
| Scraper.ScrapedLinksWellFormed | scraper.py:12-14 | every link `scraper` returns passes `is_valid`, is canonical, and appears once |
| Scraper.BlockedExtensionIsSuffix | scraper.py:140-148 | `MatchesBlockedExtension`, the `.*\.(…)$` match, is the same as ending in `.` followed by a listed extension |
| Scraper.AllowedHostDotBoundary | scraper.py:118-119 | `IsAllowedHost` (scraper.py:135) holds for a host exactly when it equals an allowed domain or ends in `.` followed by one |
| Scraper.IsValidExactly | scraper.py:121-148 | `IsValid`, the model of `is_valid`, holds exactly for http/https URLs with a non-empty allowed host (an allowed domain or a dot-subdomain of one) and a lower-cased path, or `/`, that does not end in a blocked extension |
| Scraper.ExplicitPortRejected | scraper.py:131-136 | a netloc with an explicit `:port` never passes, because the port is part of the compared host |
| Scraper.IsValidIgnoresCase | scraper.py:131-138 | `is_valid` gives the same answer after lower-casing the host and the path |
| Scraper.SubdomainAllowed | scraper.py:135 | `www.ics.uci.edu` is an allowed host |
| Scraper.LookalikeHostRefused | scraper.py:135 | `evilics.uci.edu`, which ends in an allowed domain's letters but not at a dot, is refused |
| Scraper.BlockedExtensionExamples | scraper.py:140-148 | `.JPG`, `.jpeg`, `.TIFF` and `.PDF` paths match the pattern after lower-casing |
| Scraper.PlainPageAccepted | scraper.py:121-148 | `https://www.ics.uci.edu/about` passes |

## Left out

- Fetching, HTTP response objects and `resp.error`: a response is a record
  with a URL, a status and an optional raw response, and a raw response is a
  URL and an optional body.
- Byte decoding with the declared or the UTF-8 encoding (scraper.py:55-69):
  decoding with `errors="replace"` always succeeds, so the body is given as
  text. The non-`str` content guard is therefore not modelled.
- BeautifulSoup and `get_text` (scraper.py:71-76, 91): a `parseHtml`
  parameter gives the text and the href list, or `None` for a parser
  exception.
- `urljoin` and `urlparse` internals (scraper.py:100, 127): these are the
  parameters `urlJoin` and `urlParse`.
- SHA-256 and UTF-8 encoding before hashing (similarity.py:29-30, 48-50):
  the hash is a parameter.
- The type guard `not isinstance(text, str)` (similarity.py:21-22): every
  value in the model is a string.
- The `print` and re-raise on `TypeError` in `is_valid` (scraper.py:150-152):
  this is diagnostic I/O on inputs the model's types exclude.
- The `try`/`except Exception: pass` around word counting (scraper.py:80-86):
  nothing in the modelled loop can raise.
- The stop-word list in the `variables` module: `variables` is not part of
  this model, and the list is a constructor parameter.
- Text.LowerStr: lower-cases ASCII letters only. Python's `str.lower` also
  maps other letters. A few of them, such as the Kelvin sign U+212A, lower
  to ASCII letters that can reach a token, a host or an extension.
- Scraper.MatchesBlockedExtension: the pattern's `$`, which also matches
  before a trailing newline, and `.`, which does not match a newline, are
  not modelled. The test is a plain suffix test, which is what the pattern
  does on a path without newlines.
- Text.Runs: its own contract states only that every run is non-empty and
  separator-free. That it returns every maximal run, in order, is stated by
  the lemma `Text.RunsGaps`.
- Text.Tokens: its own contract states only that every token is a non-empty
  run of ASCII letters and digits. That the tokens are all the maximal such
  runs, in order, is `Text.RunsGaps` applied to `Runs(s, NonWord)`.
- Similarity.Near: the threshold is the exact rational 0.8, not the nearest
  binary float. No value of `same / 64` lies between the two, so the answers
  agree.
- Port, date-segment, pagination, admin/wiki and trailing-dot rules: these
  are described for the crawler in general but do not appear in
  `is_valid`, so the model follows the code and has none of them.
- Concurrency: the module-level state is updated without locks, and the
  model treats calls as sequential.
