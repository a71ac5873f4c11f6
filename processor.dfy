/**
 * The news processor (processor.py): the cookie-banner heuristic, the
 * resolution of news-aggregator redirect links, article scraping with its
 * paragraph fallback and its 1000-character summary, title cleaning, and
 * the per-item record building of `process_news`.
 *
 * The HTTP session, the redirect decoder, the article extractor, the HTML
 * parser and the translator are not modelled: each is a field of
 * `Services`, an arbitrary function whose result (or failure) the model
 * takes as given.
 */
module Processor {
  import opened Wrappers
  import opened Strings
  import opened Seqs
  import Fetcher

  // ---------------------------------------------------------------------
  // Cookie banners
  // ---------------------------------------------------------------------

  /** The phrases whose presence marks a cookie-consent banner. */
  const CookieKeywords: seq<string> := [
    "cookie", "cookies", "consent", "zustimmen", "akzeptieren",
    "datenschutz", "privacy policy", "allow all", "alle akzeptieren",
    "wir verwenden cookies", "diese webseite verwendet cookies",
    "personal data", "partners", "advertising", "werbung"
  ]

  /** How many of `keywords` occur in `text`. */
  function KeywordCount(keywords: seq<string>, text: string): (n: nat)
    ensures n <= |keywords|
    decreases |keywords|
  {
    if keywords == [] then 0
    else
      KeywordCount(keywords[..|keywords| - 1], text)
      + (if IsSubstring(keywords[|keywords| - 1], text) then 1 else 0)
  }

  /** Some keyword of `keywords` occurs in `text`. */
  predicate OneListed(keywords: seq<string>, text: string)
  {
    exists i :: 0 <= i < |keywords| && IsSubstring(keywords[i], text)
  }

  /** Two different keywords of `keywords` occur in `text`. */
  predicate TwoListedIn(keywords: seq<string>, text: string)
  {
    exists i, j :: 0 <= i < j < |keywords| && IsSubstring(keywords[i], text) && IsSubstring(keywords[j], text)
  }

  /** Some keyword of a non-empty list occurs exactly when one of its front
      part does or its last one does. */
  lemma OneListedSnoc(keywords: seq<string>, text: string)
    requires keywords != []
    ensures var init := keywords[..|keywords| - 1];
      OneListed(keywords, text) <==> OneListed(init, text) || IsSubstring(keywords[|keywords| - 1], text)
  {
    var init := keywords[..|keywords| - 1];
    if OneListed(keywords, text) {
      var i :| 0 <= i < |keywords| && IsSubstring(keywords[i], text);
      if i < |init| {
        assert init[i] == keywords[i];
      }
    }
    if OneListed(init, text) {
      var i :| 0 <= i < |init| && IsSubstring(init[i], text);
      assert keywords[i] == init[i];
    }
  }

  /** Two keywords of a non-empty list occur exactly when two of its front
      part do, or one of them does and so does the last one. */
  lemma TwoListedSnoc(keywords: seq<string>, text: string)
    requires keywords != []
    ensures var init := keywords[..|keywords| - 1];
      TwoListedIn(keywords, text)
      == (TwoListedIn(init, text) || (OneListed(init, text) && IsSubstring(keywords[|keywords| - 1], text)))
  {
    var n := |keywords|;
    var init := keywords[..n - 1];
    if TwoListedIn(keywords, text) {
      TwoListedSplit(keywords, text);
    }
    if TwoListedIn(init, text) {
      var i, j :| 0 <= i < j < |init| && IsSubstring(init[i], text) && IsSubstring(init[j], text);
      assert keywords[i] == init[i] && keywords[j] == init[j];
    }
    if OneListed(init, text) && IsSubstring(keywords[n - 1], text) {
      var i :| 0 <= i < |init| && IsSubstring(init[i], text);
      assert keywords[i] == init[i];
    }
  }

  /** Two listed keywords are both in the front part, or one is the last. */
  lemma TwoListedSplit(keywords: seq<string>, text: string)
    requires keywords != [] && TwoListedIn(keywords, text)
    ensures var init := keywords[..|keywords| - 1];
      TwoListedIn(init, text) || (OneListed(init, text) && IsSubstring(keywords[|keywords| - 1], text))
  {
    var n := |keywords|;
    var init := keywords[..n - 1];
    var i, j :| 0 <= i < j < n && IsSubstring(keywords[i], text) && IsSubstring(keywords[j], text);
    assert init[i] == keywords[i];
    if j < n - 1 {
      assert init[j] == keywords[j];
      assert TwoListedIn(init, text);
    } else {
      assert OneListed(init, text);
    }
  }

  /** The count is positive exactly when some keyword occurs. */
  lemma {:induction false} KeywordCountPositive(keywords: seq<string>, text: string)
    ensures KeywordCount(keywords, text) >= 1 <==> OneListed(keywords, text)
    decreases |keywords|
  {
    if keywords != [] {
      KeywordCountPositive(keywords[..|keywords| - 1], text);
      OneListedSnoc(keywords, text);
    }
  }

  /** The count reaches two exactly when two different listed keywords occur. */
  lemma {:induction false} KeywordCountTwo(keywords: seq<string>, text: string)
    ensures KeywordCount(keywords, text) >= 2 <==> TwoListedIn(keywords, text)
    decreases |keywords|
  {
    if keywords != [] {
      var init := keywords[..|keywords| - 1];
      KeywordCountTwo(init, text);
      KeywordCountPositive(init, text);
      TwoListedSnoc(keywords, text);
    }
  }

  /** The banner heuristic: a non-empty text that is short and mentions two
      listed phrases, or whose stripped lower-cased form opens with a
      typical consent sentence. */
  predicate CookieConsent(text: string)
  {
    && text != []
    && (|| (|text| < 500 && KeywordCount(CookieKeywords, Lower(text)) >= 2)
        || StartsWith(Strip(Lower(text)), "wir verwenden cookies")
        || StartsWith(Strip(Lower(text)), "diese webseite verwendet"))
  }

  /** The keyword loop counts the listed phrases present in the lower-cased text. */
  method IsCookieConsentText(text: string) returns (banner: bool)
    ensures banner == CookieConsent(text)
  {
    if text == [] {
      return false;
    }
    var lowered := Lower(text);
    var count := 0;
    for i := 0 to |CookieKeywords|
      invariant count == KeywordCount(CookieKeywords[..i], lowered)
    {
      assert CookieKeywords[..i + 1][..i] == CookieKeywords[..i];
      if IsSubstring(CookieKeywords[i], lowered) {
        count := count + 1;
      }
    }
    assert CookieKeywords[..|CookieKeywords|] == CookieKeywords;
    if |text| < 500 && count >= 2 {
      return true;
    }
    var stripped := Strip(lowered);
    if StartsWith(stripped, "wir verwenden cookies") || StartsWith(stripped, "diese webseite verwendet") {
      return true;
    }
    return false;
  }

  /** Both "cookie" and "cookies" are listed, so any short text mentioning
      "cookies" counts two phrases and is taken for a banner. */
  lemma ShortCookieTextIsBanner(text: string)
    requires |text| < 500 && IsSubstring("cookies", Lower(text))
    ensures CookieConsent(text)
  {
    var lowered := Lower(text);
    assert CookieKeywords[0] == "cookie" && CookieKeywords[1] == "cookies";
    PrefixOccurs("cookie", "cookies", lowered);
    KeywordCountTwo(CookieKeywords, lowered);
  }

  /** A banner is short with two listed phrases, or opens with one of the
      two consent sentences once stripped and lower-cased; and conversely. */
  lemma BannerCases(text: string)
    ensures CookieConsent(text) <==>
      && text != []
      && (|| (|text| < 500 && TwoListedIn(CookieKeywords, Lower(text)))
          || StartsWith(Strip(Lower(text)), "wir verwenden cookies")
          || StartsWith(Strip(Lower(text)), "diese webseite verwendet"))
  {
    KeywordCountTwo(CookieKeywords, Lower(text));
  }

  // ---------------------------------------------------------------------
  // Redirects
  // ---------------------------------------------------------------------

  /** What the redirect decoder does with a link: raise, or return a status
      flag and possibly a decoded link (absent when the key is missing). */
  datatype DecoderOutcome = Raised | Returned(status: bool, decodedUrl: Option<string>)

  /** An aggregator link (one mentioning "news.google.com") is replaced by
      its decoded target when the decoder reports success and supplies one;
      in every other case the link is kept. */
  function ResolveRedirect(url: string, decoder: string -> DecoderOutcome): (r: string)
    ensures !IsSubstring("news.google.com", url) ==> r == url
    ensures r == url || (IsSubstring("news.google.com", url) && decoder(url) == Returned(true, Some(r)))
    ensures (&& IsSubstring("news.google.com", url) && decoder(url).Returned? && decoder(url).status
             && decoder(url).decodedUrl.Some?) ==> r == decoder(url).decodedUrl.value
  {
    if !IsSubstring("news.google.com", url) then url
    else
      match decoder(url)
      case Returned(true, Some(decoded)) => decoded
      case _ => url
  }

  // ---------------------------------------------------------------------
  // Scraping
  // ---------------------------------------------------------------------

  /** The outcome of an HTTP GET: a failure of any kind, or a response. */
  datatype FetchOutcome = GetFailed | Fetched(status: int, content: string)

  /** The external libraries the processor calls, as opaque functions.
      `extract` is the article extractor (absent when it finds nothing),
      `paragraphs` the text of every paragraph element of a page,
      `cleanHtml` the text of an HTML fragment (absent when the parser
      raises), `translate` the translator (absent when it raises), and
      `formatTime` the rendering of a timestamp. */
  datatype Services = Services(
    decoder: string -> DecoderOutcome,
    fetch: string -> FetchOutcome,
    extract: string -> Option<string>,
    paragraphs: string -> seq<string>,
    cleanHtml: string -> Option<string>,
    translate: string -> Option<string>,
    formatTime: int -> string)

  /** A paragraph worth keeping in the fallback: over 60 characters and not a banner. */
  predicate KeepParagraph(text: string)
  {
    |text| > 60 && !CookieConsent(text)
  }

  /** The fallback's selection over one more paragraph. */
  lemma FallbackStep(paragraphs: seq<string>, i: nat)
    requires i < |paragraphs|
    ensures var text := Strip(paragraphs[i]);
      Filter(Map(paragraphs[..i + 1], Strip), KeepParagraph)
        == Filter(Map(paragraphs[..i], Strip), KeepParagraph) + (if KeepParagraph(text) then [text] else [])
  {
    var text := Strip(paragraphs[i]);
    var seen := Map(paragraphs[..i], Strip);
    assert Map(paragraphs[..i + 1], Strip) == seen + [text];
    FilterAppend(seen, [text], KeepParagraph);
    assert Filter([text], KeepParagraph) == if KeepParagraph(text) then [text] else [];
  }

  /** The fallback's paragraph loop: every paragraph is stripped and kept
      when it is long enough and not a banner. */
  method FallbackParagraphs(paragraphs: seq<string>) returns (content: seq<string>)
    ensures content == Filter(Map(paragraphs, Strip), KeepParagraph)
  {
    content := [];
    assert Map(paragraphs[..0], Strip) == [];
    for i := 0 to |paragraphs|
      invariant content == Filter(Map(paragraphs[..i], Strip), KeepParagraph)
    {
      var text := Strip(paragraphs[i]);
      var banner := IsCookieConsentText(text);
      FallbackStep(paragraphs, i);
      if |text| > 60 && !banner {
        content := content + [text];
      }
    }
    assert paragraphs[..|paragraphs|] == paragraphs;
  }

  /** The fallback keeps stripped paragraphs only, each long and not a
      banner, in page order. */
  lemma FallbackKept(paragraphs: seq<string>)
    ensures var content := Filter(Map(paragraphs, Strip), KeepParagraph);
      && |content| <= |paragraphs|
      && forall k :: 0 <= k < |content| ==>
           |content[k]| > 60 && !CookieConsent(content[k])
           && exists i :: 0 <= i < |paragraphs| && content[k] == Strip(paragraphs[i])
  {
    var stripped := Map(paragraphs, Strip);
    var content := Filter(stripped, KeepParagraph);
    forall k | 0 <= k < |content|
      ensures exists i :: 0 <= i < |paragraphs| && content[k] == Strip(paragraphs[i])
    {
      assert content[k] in stripped;
      var i :| 0 <= i < |stripped| && stripped[i] == content[k];
      assert content[k] == Strip(paragraphs[i]);
    }
  }

  /** The piece a line adds to the summary: its stripped text and a space
      when that is over 30 characters, else nothing. */
  function Piece(line: string): string
  {
    if |Strip(line)| > 30 then Strip(line) + " " else []
  }

  /** A piece is no longer than its line plus the space, and ends in that space. */
  lemma PieceShape(line: string)
    ensures var p := Piece(line);
      |p| <= |line| + 1 && (p == [] || p[|p| - 1] == ' ')
  {
  }

  /** The pieces of several lines, in order. */
  function Pieces(lines: seq<string>): string
    decreases |lines|
  {
    if lines == [] then [] else Piece(lines[0]) + Pieces(lines[1..])
  }

  /** The summary loop from accumulated text `acc`: it stops at the first
      line whose unstripped length would take the total past 1000. */
  function Compose(lines: seq<string>, acc: string): string
    decreases |lines|
  {
    if lines == [] || |acc| + |lines[0]| > 1000 then acc
    else Compose(lines[1..], acc + Piece(lines[0]))
  }

  /** The summary of an extracted text: its lines composed, then stripped. */
  function Summary(text: string): string
  {
    Strip(Compose(Split(text, '\n'), ""))
  }

  /** The pieces of the first `j + 1` lines: the first line's, then those
      of the next `j`. */
  lemma PiecesCons(lines: seq<string>, j: nat)
    requires j < |lines|
    ensures Pieces(lines[..j + 1]) == Piece(lines[0]) + Pieces(lines[1..][..j])
  {
    assert lines[..j + 1][1..] == lines[1..][..j];
  }

  /** How many lines the summary loop gets through before it stops. */
  function Taken(lines: seq<string>, acc: string): (k: nat)
    ensures k <= |lines|
    decreases |lines|
  {
    if lines == [] || |acc| + |lines[0]| > 1000 then 0
    else 1 + Taken(lines[1..], acc + Piece(lines[0]))
  }

  lemma Associative(a: string, b: string, c: string)
    ensures a + (b + c) == (a + b) + c
  {
  }

  /** One fitting line: the loop adds its piece and goes on with the rest. */
  lemma ComposeStep(lines: seq<string>, acc: string)
    requires lines != [] && |acc| + |lines[0]| <= 1000
    ensures Compose(lines, acc) == Compose(lines[1..], acc + Piece(lines[0]))
    ensures Taken(lines, acc) == 1 + Taken(lines[1..], acc + Piece(lines[0]))
  {
  }

  /** The composed text is `acc` followed by the pieces of the lines the
      loop got through. */
  lemma {:induction false} ComposeIsPieces(lines: seq<string>, acc: string)
    ensures Compose(lines, acc) == acc + Pieces(lines[..Taken(lines, acc)])
    decreases |lines|
  {
    if lines == [] || |acc| + |lines[0]| > 1000 {
      assert Taken(lines, acc) == 0 && Compose(lines, acc) == acc;
      assert lines[..Taken(lines, acc)] == [];
      assert acc + Pieces([]) == acc;
    } else {
      var acc' := acc + Piece(lines[0]);
      var rest := lines[1..];
      var k' := Taken(rest, acc');
      ComposeStep(lines, acc);
      ComposeIsPieces(rest, acc');
      PiecesCons(lines, k');
      Associative(acc, Piece(lines[0]), Pieces(rest[..k']));
      assert Compose(lines, acc) == acc' + Pieces(rest[..k']);
      assert Pieces(lines[..k' + 1]) == Piece(lines[0]) + Pieces(rest[..k']);
      assert acc + Pieces(lines[..k' + 1]) == acc' + Pieces(rest[..k']);
      assert Taken(lines, acc) == k' + 1;
    }
  }

  /** The line the loop stopped at (if any) does not fit after the composed
      text: the loop breaks there rather than skipping it. */
  lemma {:induction false} ComposeStops(lines: seq<string>, acc: string)
    ensures Taken(lines, acc) < |lines| ==> |Compose(lines, acc)| + |lines[Taken(lines, acc)]| > 1000
    decreases |lines|
  {
    if lines != [] && |acc| + |lines[0]| <= 1000 {
      var acc' := acc + Piece(lines[0]);
      var rest := lines[1..];
      ComposeStep(lines, acc);
      ComposeStops(rest, acc');
      if Taken(rest, acc') < |rest| {
        assert lines[Taken(lines, acc)] == rest[Taken(rest, acc')];
      }
    }
  }

  /** The text the summary holds when the loop reaches line `j`, had it
      taken every line before it. */
  function Before(lines: seq<string>, acc: string, j: nat): string
    requires j <= |lines|
    decreases j
  {
    if j == 0 then acc else Before(lines[1..], acc + Piece(lines[0]), j - 1)
  }

  /** That text is `acc` followed by the pieces of the first `j` lines. */
  lemma {:induction false} BeforeIsPieces(lines: seq<string>, acc: string, j: nat)
    requires j <= |lines|
    ensures Before(lines, acc, j) == acc + Pieces(lines[..j])
    decreases j
  {
    if j == 0 {
      assert lines[..0] == [];
      assert acc + Pieces([]) == acc;
    } else {
      var rest := lines[1..];
      BeforeIsPieces(rest, acc + Piece(lines[0]), j - 1);
      PiecesCons(lines, j - 1);
      Associative(acc, Piece(lines[0]), Pieces(rest[..j - 1]));
    }
  }

  /** The first line fits when the loop takes at least one line, and the
      loop then goes on from the rest. */
  lemma TakenFirst(lines: seq<string>, acc: string)
    requires 0 < Taken(lines, acc)
    ensures lines != [] && |acc| + |lines[0]| <= 1000
    ensures Taken(lines, acc) == 1 + Taken(lines[1..], acc + Piece(lines[0]))
  {
  }

  /** Every line before the stop fits after the text composed so far. */
  lemma {:induction false} TakenLinesFit(lines: seq<string>, acc: string, j: nat)
    requires j < Taken(lines, acc)
    ensures |Before(lines, acc, j)| + |lines[j]| <= 1000
    decreases j
  {
    TakenFirst(lines, acc);
    if j > 0 {
      TakenLinesFit(lines[1..], acc + Piece(lines[0]), j - 1);
      assert lines[j] == lines[1..][j - 1];
    }
  }

  /** The shape of the summary text during the loop: at most 1001
      characters, and ending in a space unless empty. */
  predicate Spaced(text: string)
  {
    |text| <= 1001 && (text == [] || text[|text| - 1] == ' ')
  }

  /** One fitting line keeps the loop's text `Spaced`. */
  lemma SpacedStep(acc: string, line: string)
    requires Spaced(acc) && |acc| + |line| <= 1000
    ensures Spaced(acc + Piece(line))
  {
    var piece := Piece(line);
    PieceShape(line);
    if piece != [] {
      assert (acc + piece)[|acc + piece| - 1] == piece[|piece| - 1];
    }
  }

  /** The loop keeps its text `Spaced`. */
  lemma {:induction false} ComposeBound(lines: seq<string>, acc: string)
    requires Spaced(acc)
    ensures Spaced(Compose(lines, acc))
    decreases |lines|
  {
    if lines != [] && |acc| + |lines[0]| <= 1000 {
      SpacedStep(acc, lines[0]);
      ComposeBound(lines[1..], acc + Piece(lines[0]));
      ComposeStep(lines, acc);
    } else {
      assert Compose(lines, acc) == acc;
    }
  }

  /** Stripping text that ends in a space drops at least that space. */
  lemma StripSpaced(c: string)
    requires Spaced(c)
    ensures |Strip(c)| <= 1000
  {
    if c != [] {
      StripDropsTrailingSpace(c);
    }
  }

  /** A summary has at most 1000 characters. */
  lemma SummaryBound(text: string)
    ensures |Summary(text)| <= 1000
  {
    var c := Compose(Split(text, '\n'), "");
    assert Spaced("");
    ComposeBound(Split(text, '\n'), "");
    assert Spaced(c);
    StripSpaced(c);
    assert Summary(text) == Strip(c);
  }

  /** The summary loop's state after `i` lines with text `acc`: finishing
      the loop from here gives the full composition, and `acc` is `Spaced`. */
  predicate SummaryLoop(lines: seq<string>, i: nat, acc: string)
  {
    i <= |lines| && Compose(lines[i..], acc) == Compose(lines, "") && Spaced(acc)
  }

  /** A visit at a line that fits moves to the next line with that line's
      piece added. */
  lemma SummaryLoopStep(lines: seq<string>, i: nat, acc: string)
    requires SummaryLoop(lines, i, acc) && i < |lines| && |acc| + |lines[i]| <= 1000
    ensures SummaryLoop(lines, i + 1, acc + Piece(lines[i]))
  {
    SpacedStep(acc, lines[i]);
    ComposeStep(lines[i..], acc);
    assert lines[i..][1..] == lines[i + 1..];
  }

  /** Where the loop stops, its text is the full composition. */
  lemma SummaryLoopDone(text: string, i: nat, acc: string)
    requires var lines := Split(text, '\n');
      SummaryLoop(lines, i, acc) && (i == |lines| || |acc| + |lines[i]| > 1000)
    ensures Strip(acc) == Summary(text) && |Strip(acc)| <= 1000
  {
    StripSpaced(acc);
  }

  /** The summary loop, with its early exit. */
  method ComposeSummary(result: string) returns (summary: string)
    ensures summary == Summary(result)
    ensures |summary| <= 1000
  {
    var paragraphs := Split(result, '\n');
    var summaryText := "";
    var i := 0;
    while i < |paragraphs|
      invariant SummaryLoop(paragraphs, i, summaryText)
    {
      var p := paragraphs[i];
      if |summaryText| + |p| > 1000 {
        break;
      }
      SummaryLoopStep(paragraphs, i, summaryText);
      var stripped := Strip(p);
      if |stripped| > 30 {
        summaryText := summaryText + (stripped + " ");
      } else {
        assert summaryText + Piece(p) == summaryText;
      }
      i := i + 1;
    }
    SummaryLoopDone(result, i, summaryText);
    summary := Strip(summaryText);
  }

  /** The text the scraper settles on before the banner check: the
      extractor's, unless that is missing or under 100 characters and the
      paragraph fallback finds something, in which case the first 10 kept
      paragraphs joined by newlines. */
  function Extracted(content: string, svc: Services): Option<string>
  {
    var result := svc.extract(content);
    if result.None? || |result.value| < 100 then
      var kept := Filter(Map(svc.paragraphs(content), Strip), KeepParagraph);
      if kept != [] then Some(Join(Take(kept, 10), "\n")) else result
    else result
  }

  /** The extractor's text is used when it has at least 100 characters.
      Otherwise the first ten (at most) kept paragraphs of the page, joined
      by line breaks, replace it when any was kept, and the extractor's
      short or missing text stays when none was; nothing is extracted only
      when the extractor gave nothing and no paragraph was kept. */
  lemma ExtractedCases(content: string, svc: Services)
    ensures var e := svc.extract(content);
      var r := Extracted(content, svc);
      var kept := Filter(Map(svc.paragraphs(content), Strip), KeepParagraph);
      && (e.Some? && |e.value| >= 100 ==> r == e)
      && ((e.None? || |e.value| < 100) && kept != [] ==> r == Some(Join(Take(kept, 10), "\n")))
      && ((e.None? || |e.value| < 100) && kept == [] ==> r == e)
      && (r.None? <==> e.None? && kept == [])
  {
  }

  /** Scraping an article: `None` for a failed download, a status other
      than 200, nothing extracted, or a banner; otherwise the summary of the
      extracted text. */
  function Scrape(url: string, svc: Services): Option<string>
  {
    match svc.fetch(ResolveRedirect(url, svc.decoder))
    case GetFailed => None
    case Fetched(status, content) =>
      if status != 200 then None
      else
        var result := Extracted(content, svc);
        if result.None? || result.value == [] || CookieConsent(result.value) then None
        else Some(Summary(result.value))
  }

  /** The cases of `Scrape`: it fails exactly on a failed download, a bad
      status, an empty extraction or a banner, and what it returns is at
      most 1000 characters long. */
  lemma ScrapeCases(url: string, svc: Services)
    ensures var r := Scrape(url, svc);
      var response := svc.fetch(ResolveRedirect(url, svc.decoder));
      && (r.None? <==>
           || response.GetFailed?
           || response.status != 200
           || Extracted(response.content, svc).None?
           || Extracted(response.content, svc).value == []
           || CookieConsent(Extracted(response.content, svc).value))
      && (r.Some? ==> |r.value| <= 1000 && r.value == Summary(Extracted(response.content, svc).value))
  {
    var response := svc.fetch(ResolveRedirect(url, svc.decoder));
    if response.Fetched? && response.status == 200 {
      var result := Extracted(response.content, svc);
      if result.Some? {
        SummaryBound(result.value);
      }
    }
  }

  /** The scraper: redirect, download, extraction with the paragraph
      fallback, banner check and summary. */
  method ScrapeArticleContent(url: string, svc: Services) returns (summary: Option<string>)
    ensures summary == Scrape(url, svc)
    ensures summary.Some? ==> |summary.value| <= 1000
  {
    var finalUrl := ResolveRedirect(url, svc.decoder);
    var response := svc.fetch(finalUrl);
    if response.GetFailed? || response.status != 200 {
      return None;
    }
    var result := svc.extract(response.content);
    if result.None? || |result.value| < 100 {
      var content := FallbackParagraphs(svc.paragraphs(response.content));
      if content != [] {
        result := Some(Join(Take(content, 10), "\n"));
      }
    }
    assert result == Extracted(response.content, svc);
    if result.None? || result.value == [] {
      return None;
    }
    var banner := IsCookieConsentText(result.value);
    if banner {
      return None;
    }
    var s := ComposeSummary(result.value);
    return Some(s);
  }

  // ---------------------------------------------------------------------
  // Titles and items
  // ---------------------------------------------------------------------

  /** Title cleaning: a title ending in its source name loses every
      " - <source>" and is stripped; otherwise a title with " - " keeps
      what precedes the last one; otherwise it is unchanged. */
  function CleanTitle(title: string, source: string): (r: string)
    ensures |r| <= |title|
  {
    if source != [] && EndsWith(title, source) then
      DeleteShrinks(title, " - " + source);
      Strip(ReplaceAll(title, " - " + source, ""))
    else
      match RFind(title, " - ")
      case Some(i) => title[..i]
      case None => title
  }

  /** The second and third cases of title cleaning: without the source name
      at the end, the result is the text before the last " - ", or the whole
      title when there is none. */
  lemma CleanTitleSplit(title: string, source: string)
    requires source == [] || !EndsWith(title, source)
    ensures IsSubstring(" - ", title) ==>
      exists i :: OccursAt(" - ", title, i) && CleanTitle(title, source) == title[..i]
        && forall j :: i < j ==> !OccursAt(" - ", title, j)
    ensures !IsSubstring(" - ", title) ==> CleanTitle(title, source) == title
  {
  }

  /** The first case: a title made of a head, " - " and the source name,
      where the pattern " - <source>" first occurs at the end, is its head,
      stripped. */
  lemma CleanTitleDropsSuffix(head: string, source: string)
    requires source != []
    requires forall j :: 0 <= j < |head| ==> !OccursAt(" - " + source, head + " - " + source, j)
    ensures CleanTitle(head + " - " + source, source) == Strip(head)
  {
    var pat := " - " + source;
    var title := head + " - " + source;
    assert title == head + pat;
    assert title[|title| - |source|..] == source;
    assert title[|title| - |pat|..] == pat;
    ReplaceOnlyAtEnd(title, pat, "");
    assert title[..|title| - |pat|] == head;
    assert ReplaceAll(title, pat, "") == head + [] == head;
    assert EndsWith(title, source);
    assert CleanTitle(title, source) == Strip(ReplaceAll(title, pat, ""));
  }

  /** One item of `process_news` after processing. */
  datatype ProcessedItem = ProcessedItem(
    originalTitle: string,
    titleKo: string,
    link: string,
    published: string,
    source: string,
    summaryKo: string,
    keyword: string)

  /** HTML cleaning of a feed summary: the empty text stays empty, otherwise
      the parser's text, stripped; `None` when the parser raises. */
  function CleanText(text: string, svc: Services): (r: Option<string>)
    ensures text == [] ==> r == Some([])
  {
    if text == [] then Some([])
    else
      match svc.cleanHtml(text)
      case None => None
      case Some(t) => Some(Strip(t))
  }

  /** The feed-summary fallback: the cleaned feed summary with every
      " - <source>" and then every bare source name removed when the
      source name occurs in it. */
  function FeedSummary(item: Fetcher.NewsItem, svc: Services): (r: Option<string>)
    ensures r.None? <==> CleanText(item.summary, svc).None?
    ensures r.Some? ==> |r.value| <= |CleanText(item.summary, svc).value|
    ensures var cleaned := CleanText(item.summary, svc);
      cleaned.Some? && (item.source == [] || !IsSubstring(item.source, cleaned.value)) ==> r == cleaned
  {
    match CleanText(item.summary, svc)
    case None => None
    case Some(text) =>
      if item.source != [] && IsSubstring(item.source, text) then
        var once := ReplaceAll(text, " - " + item.source, "");
        DeleteShrinks(text, " - " + item.source);
        DeleteShrinks(once, item.source);
        Some(ReplaceAll(once, item.source, ""))
      else Some(text)
  }

  /** A cleaned feed summary "head - Source", where the source name occurs
      nowhere but at that end, falls back to its head. */
  lemma FeedSummaryDropsSuffix(item: Fetcher.NewsItem, svc: Services, head: string)
    requires item.source != []
    requires CleanText(item.summary, svc) == Some(head + " - " + item.source)
    requires forall j :: 0 <= j < |head| + 3 ==> !OccursAt(item.source, head + " - " + item.source, j)
    ensures FeedSummary(item, svc) == Some(head)
  {
    DeleteTrailingName(head, item.source);
  }

  /** The text handed to the translator: at most 1000 characters of the
      summary, followed by "..." when it was cut. */
  function Truncate(text: string): (r: string)
    ensures |text| <= 1000 ==> r == text
    ensures |text| > 1000 ==> |r| == 1003 && r[..1000] == text[..1000] && r[1000..] == "..."
  {
    if |text| > 1000 then text[..1000] + "..." else text
  }

  /** The translated summary: empty for an empty summary or a translator failure. */
  function SummaryKo(text: string, svc: Services): (r: string)
    ensures text == [] ==> r == []
    ensures r != [] ==> svc.translate(Truncate(text)) == Some(r)
    ensures text != [] && svc.translate(Truncate(text)).Some? ==> r == svc.translate(Truncate(text)).value
  {
    if text == [] then [] else svc.translate(Truncate(text)).GetOr([])
  }

  /** The record built for one news item, or `None` when processing the
      item raised (only the HTML cleaning of the feed summary can). */
  function Processed(item: Fetcher.NewsItem, svc: Services): Option<ProcessedItem>
  {
    var titlePart := CleanTitle(item.title, item.source);
    var titleKo := svc.translate(titlePart).GetOr(titlePart);
    var scraped := Scrape(item.link, svc);
    var summaryText := if scraped.Some? && scraped.value != [] then Some(scraped.value) else FeedSummary(item, svc);
    match summaryText
    case None => None
    case Some(text) =>
      Some(ProcessedItem(item.title, titleKo, item.link, svc.formatTime(item.published),
                         item.source, SummaryKo(text, svc), item.keyword))
  }

  /** The original title, link, source and keyword of an item are copied
      verbatim, and an item is dropped only when the scrape gave nothing
      and cleaning the feed summary failed. */
  lemma ProcessedCopies(item: Fetcher.NewsItem, svc: Services)
    ensures var r := Processed(item, svc);
      && (r.None? <==> (Scrape(item.link, svc) in {None, Some([])} && FeedSummary(item, svc).None?))
      && (r.Some? ==>
            && r.value.originalTitle == item.title
            && r.value.link == item.link
            && r.value.source == item.source
            && r.value.keyword == item.keyword
            && r.value.published == svc.formatTime(item.published))
      && (r.Some? ==>
            var titlePart := CleanTitle(item.title, item.source);
            r.value.titleKo == (if svc.translate(titlePart).Some? then svc.translate(titlePart).value else titlePart))
      && (r.Some? && Scrape(item.link, svc).Some? && Scrape(item.link, svc).value != [] ==>
            r.value.summaryKo == SummaryKo(Scrape(item.link, svc).value, svc))
      && (r.Some? && !(Scrape(item.link, svc).Some? && Scrape(item.link, svc).value != []) ==>
            r.value.summaryKo == SummaryKo(FeedSummary(item, svc).value, svc))
  {
  }

  /** Processing one item, as the body of the loop in `process_news`. */
  method ProcessItem(item: Fetcher.NewsItem, svc: Services) returns (r: Option<ProcessedItem>)
    ensures r == Processed(item, svc)
  {
    var titlePart := CleanTitle(item.title, item.source);
    var titleKo := svc.translate(titlePart).GetOr(titlePart);
    var summaryText := ScrapeArticleContent(item.link, svc);
    if summaryText.None? || summaryText.value == [] {
      summaryText := FeedSummary(item, svc);
      if summaryText.None? {
        return None;
      }
    }
    var summaryKo := SummaryKo(summaryText.value, svc);
    r := Some(ProcessedItem(item.title, titleKo, item.link, svc.formatTime(item.published),
                            item.source, summaryKo, item.keyword));
  }

  /** The records of a list of items, in order, skipping the failed ones. */
  function ProcessAll(items: seq<Fetcher.NewsItem>, svc: Services): seq<ProcessedItem>
    decreases |items|
  {
    if items == [] then []
    else
      ProcessAll(items[..|items| - 1], svc)
      + (match Processed(items[|items| - 1], svc) case None => [] case Some(p) => [p])
  }

  /** Processing distributes over concatenation: the records of `a + b` are
      those of `a` followed by those of `b`. */
  lemma {:induction false} ProcessAllAppend(a: seq<Fetcher.NewsItem>, b: seq<Fetcher.NewsItem>, svc: Services)
    ensures ProcessAll(a + b, svc) == ProcessAll(a, svc) + ProcessAll(b, svc)
    decreases |b|
  {
    if b == [] {
      assert a + b == a;
    } else {
      var b' := b[..|b| - 1];
      assert (a + b)[..|a + b| - 1] == a + b';
      ProcessAllAppend(a, b', svc);
    }
  }

  /** A failing item does not stop the others: the result is that of the
      list without it. */
  lemma FailedItemSkipped(a: seq<Fetcher.NewsItem>, bad: Fetcher.NewsItem, b: seq<Fetcher.NewsItem>, svc: Services)
    requires Processed(bad, svc).None?
    ensures ProcessAll(a + [bad] + b, svc) == ProcessAll(a + b, svc)
  {
    assert ProcessAll([bad], svc) == [] by {
      assert [bad][..0] == [];
    }
    ProcessAllAppend(a + [bad], b, svc);
    ProcessAllAppend(a, [bad], svc);
    ProcessAllAppend(a, b, svc);
    assert ProcessAll(a + [bad], svc) == ProcessAll(a, svc);
  }

  /** At most one record per item, and every record is that of some item. */
  lemma {:induction false} ProcessAllFromItems(items: seq<Fetcher.NewsItem>, svc: Services)
    ensures var out := ProcessAll(items, svc);
      && |out| <= |items|
      && forall k :: 0 <= k < |out| ==> exists i :: 0 <= i < |items| && Processed(items[i], svc) == Some(out[k])
    decreases |items|
  {
    if items != [] {
      var init := items[..|items| - 1];
      ProcessAllFromItems(init, svc);
      var out := ProcessAll(items, svc);
      var prev := ProcessAll(init, svc);
      forall k | 0 <= k < |out|
        ensures exists i :: 0 <= i < |items| && Processed(items[i], svc) == Some(out[k])
      {
        if k < |prev| {
          var i :| 0 <= i < |init| && Processed(init[i], svc) == Some(prev[k]);
          assert items[i] == init[i];
        } else {
          assert Processed(items[|items| - 1], svc) == Some(out[k]);
        }
      }
    }
  }

  /** The item loop of `process_news`. */
  method ProcessNews(items: seq<Fetcher.NewsItem>, svc: Services) returns (processed: seq<ProcessedItem>)
    ensures processed == ProcessAll(items, svc)
  {
    processed := [];
    for i := 0 to |items|
      invariant processed == ProcessAll(items[..i], svc)
    {
      assert items[..i + 1][..i] == items[..i];
      var r := ProcessItem(items[i], svc);
      if r.Some? {
        processed := processed + [r.value];
      }
    }
    assert items[..|items|] == items;
  }
}
