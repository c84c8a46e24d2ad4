/**
  The page-reading side of bot.js with the fetches peeled off: the fetched HTML
  or XML is a parameter. Covers `findinHtml` and `findLinkInHtml`, the search
  terms and result loop of `imageSearch` and `linkSearch`, the answer extraction
  of `wolframCommand` and the chart link of `noaaCommand`.
 */
module BotScrape {
  import opened Wrappers
  import opened Strings
  import opened Js
  import BotRouting

  /** `decodeURIComponent`: None stands for the URIError it throws. */
  type UriDecoder = string -> Option<string>

  const BadUri := "Cannot parse URI. Don't search for such silly nonsense."

  const ImageStart := "<img class=\"t0fcAb\""
  const ImageEnd := "&amp;s"
  const LinkStart := "<div class=\"kCrYT\"><a href="
  const LinkEnd := "&amp;sa=U&amp;"

  /**
    `findinHtml(source, startString, endString)`: the text after the first start
    marker up to the next end marker, and the position in `source` where the
    search for the next result resumes. The text found is no longer than the page.
   */
  function FindInHtml(source: string, startMarker: string, endMarker: string): (r: (string, int))
    ensures |r.0| <= |source|
  {
    var startIndex := IndexOf(source, startMarker) + |startMarker|;
    var rest := SubstringFrom(source, startIndex);
    var endIndex := IndexOf(rest, endMarker);
    (SubstringTo(rest, endIndex), endIndex + startIndex)
  }

  /** The text found never contains the end marker: the search stops at its first occurrence. */
  lemma FindInHtmlStops(source: string, startMarker: string, endMarker: string)
    requires |endMarker| > 0
    ensures !Contains(FindInHtml(source, startMarker, endMarker).0, endMarker)
  {
    var startIndex := IndexOf(source, startMarker) + |startMarker|;
    var rest := SubstringFrom(source, startIndex);
    var endIndex := IndexOf(rest, endMarker);
    if endIndex != -1 {
      AbsentBetween(rest, endMarker, 0, endIndex);
    }
  }

  /** Whatever `findinHtml` returns is a piece of the page. */
  lemma FindInHtmlInside(source: string, startMarker: string, endMarker: string)
    ensures Contains(source, FindInHtml(source, startMarker, endMarker).0)
  {
    var startIndex := IndexOf(source, startMarker) + |startMarker|;
    var rest := SubstringFrom(source, startIndex);
    var endIndex := IndexOf(rest, endMarker);
    var found := SubstringTo(rest, endIndex);
    var m := Clamp(startIndex, |source|);
    assert rest == source[m..];
    assert OccursAt(rest, found, 0);
    OccursShift(source, found, m, 0);
    OccurrenceFound(source, found, m);
  }

  /** With both markers present, the text strictly between them comes back, with the end marker's index. */
  lemma FindInHtmlBetween(source: string, startMarker: string, endMarker: string)
    requires IndexOf(source, startMarker) != -1
    requires IndexFrom(source, endMarker, IndexOf(source, startMarker) + |startMarker|) != -1
    ensures var from := IndexOf(source, startMarker) + |startMarker|;
      var k := IndexFrom(source, endMarker, from);
      FindInHtml(source, startMarker, endMarker) == (source[from..k], k)
  {
    var from := IndexOf(source, startMarker) + |startMarker|;
    IndexOfSuffix(source, endMarker, from);
    var k := IndexFrom(source, endMarker, from);
    assert source[from..][..k - from] == source[from..k];
  }

  /** With the start marker present and no end marker after it, nothing is found and the search steps back one place. */
  lemma FindInHtmlNoEnd(source: string, startMarker: string, endMarker: string)
    requires IndexOf(source, startMarker) != -1
    requires IndexFrom(source, endMarker, IndexOf(source, startMarker) + |startMarker|) == -1
    ensures FindInHtml(source, startMarker, endMarker) == ("", IndexOf(source, startMarker) + |startMarker| - 1)
  {
    IndexOfSuffix(source, endMarker, IndexOf(source, startMarker) + |startMarker|);
  }

  /**
    `findLinkInHtml`: the found text from its first `http` on, decoded; a text
    that does not decode gives the fixed apology and restarts the search at 0.
   */
  function FindLinkInHtml(source: string, startMarker: string, endMarker: string, decode: UriDecoder): (r: (string, int))
    ensures r.1 == 0 || r.1 == FindInHtml(source, startMarker, endMarker).1
  {
    var found := FindInHtml(source, startMarker, endMarker);
    match decode(LinkPart(found.0))
    case None => (BadUri, 0)
    case Some(d) => (d, found.1)
  }

  /** The found text from its first `http` on; all of it when there is none. */
  function LinkPart(text: string): string
  {
    SubstringFrom(text, IndexOf(text, "http"))
  }

  /** Without `http` the whole text is kept; with it, the text from its first `http` on. */
  lemma LinkPartShape(text: string)
    ensures !Contains(text, "http") ==> LinkPart(text) == text
    ensures Contains(text, "http") ==> StartsWith(LinkPart(text), "http") && LinkPart(text) == text[IndexOf(text, "http")..]
  {
  }

  /** A link decodes to the result and the search resumes after the end marker; otherwise the apology and a restart. */
  lemma FindLinkOutcome(source: string, startMarker: string, endMarker: string, decode: UriDecoder)
    ensures var found := FindInHtml(source, startMarker, endMarker);
      var r := FindLinkInHtml(source, startMarker, endMarker, decode);
      && (decode(LinkPart(found.0)).None? ==> r == (BadUri, 0))
      && (decode(LinkPart(found.0)).Some? ==> r == (decode(LinkPart(found.0)).value, found.1))
  {
  }

  /** The reply built from `count` results: one line per result, the page cut after each, so it ends a line. */
  function Results(html: string, count: int, startMarker: string, endMarker: string, decode: UriDecoder): (r: string)
    ensures count > 0 ==> |r| >= count && r[|r| - 1] == '\n'
    decreases count
  {
    if count <= 0 then ""
    else
      var found := FindLinkInHtml(html, startMarker, endMarker, decode);
      found.0 + "\n" + Results(SubstringFrom(html, found.1), count - 1, startMarker, endMarker, decode)
  }

  /** The result loop of `imageSearch` and `linkSearch`. */
  method CollectResults(html: string, count: int, startMarker: string, endMarker: string, decode: UriDecoder)
    returns (response: string)
    ensures response == Results(html, count, startMarker, endMarker, decode)
  {
    response := "";
    var rawHtml := html;
    var i := 0;
    while i < count
      invariant count <= 0 || 0 <= i <= count
      invariant response + Results(rawHtml, count - i, startMarker, endMarker, decode)
        == Results(html, count, startMarker, endMarker, decode)
      decreases count - i
    {
      var line, rest := NextResult(rawHtml, count - i, startMarker, endMarker, decode);
      AppendStep(response, line, Results(rest, count - i - 1, startMarker, endMarker, decode));
      rawHtml := rest;
      response := response + line;
      i := i + 1;
    }
  }

  /** Regrouping an appended line, which the loop needs to carry its invariant. */
  lemma AppendStep(a: string, b: string, c: string)
    ensures a + (b + c) == a + b + c
  {
  }

  /** One pass of the loop body: the next result line and the page cut after it. */
  method NextResult(html: string, count: int, startMarker: string, endMarker: string, decode: UriDecoder)
    returns (line: string, rest: string)
    requires count > 0
    ensures Results(html, count, startMarker, endMarker, decode)
      == line + Results(rest, count - 1, startMarker, endMarker, decode)
  {
    var found := FindLinkInHtml(html, startMarker, endMarker, decode);
    line := found.0 + "\n";
    rest := SubstringFrom(html, found.1);
  }

  /** A link that fails to decode fails again in every remaining slot: the page is not advanced. */
  lemma {:induction false} FailureRepeats(html: string, count: nat, startMarker: string, endMarker: string, decode: UriDecoder)
    requires FindLinkInHtml(html, startMarker, endMarker, decode) == (BadUri, 0)
    ensures Results(html, count, startMarker, endMarker, decode) == Repeat(BadUri + "\n", count)
  {
    if count > 0 {
      assert SubstringFrom(html, 0) == html;
      FailureRepeats(html, count - 1, startMarker, endMarker, decode);
    }
  }

  /** `n` copies of `line`. */
  function Repeat(line: string, n: nat): string
  {
    if n == 0 then "" else line + Repeat(line, n - 1)
  }

  /** `image ...` and `picture ...` ask for one image, anything else for the configured number. */
  function ImageCount(searchTerm: string, imageResults: int): int
  {
    if StartsWith(searchTerm, "image ") || StartsWith(searchTerm, "picture ") then 1 else imageResults
  }

  /** The term after the image word, with a leading `of` dropped. */
  function TermAfterWord(searchTerm: string): string
  {
    var term := BotRouting.AfterFirstSpace(searchTerm);
    if StartsWith(term, "of ") then BotRouting.AfterFirstSpace(term) else term
  }

  /** The search term and image count `imageSearch` derives from a message: the term with one space made `+`. */
  function ImageQuery(content: string, imageResults: int): (r: (string, int))
    ensures r.1 == 1 || r.1 == imageResults
    ensures |r.0| == |TermAfterWord(BotRouting.AfterFirstSpace(content))|
  {
    var searchTerm := BotRouting.AfterFirstSpace(content);
    (ReplaceFirst(TermAfterWord(searchTerm), " ", "+"), ImageCount(searchTerm, imageResults))
  }

  function ImageUrl(query: string): string
  {
    "http://www.google.com/search?q=" + query + "&tbm=isch"
  }

  /** The search term `linkSearch` derives from a message: the text after the mention, one space made `+`. */
  function LinkQuery(content: string): (r: string)
    ensures |r| == |BotRouting.AfterFirstSpace(content)|
    ensures ' ' !in BotRouting.AfterFirstSpace(content) ==> r == BotRouting.AfterFirstSpace(content)
  {
    IndexOfCharAbsent(BotRouting.AfterFirstSpace(content), ' ');
    ReplaceFirst(BotRouting.AfterFirstSpace(content), " ", "+")
  }

  function LinkUrl(query: string): string
  {
    "http://www.google.com/search?q=" + query
  }

  /** Singular words ask for one image, plural words for the configured number. */
  predicate IsSingularImageWord(word: string)
  {
    word == "image" || word == "picture"
  }

  predicate IsImageWord(word: string)
  {
    IsSingularImageWord(word) || word == "images" || word == "pictures"
  }

  /** The count depends only on whether the image word is singular. */
  lemma ImageCountOfWord(word: string, term: string, imageResults: int)
    requires IsImageWord(word)
    ensures ImageCount(word + " " + term, imageResults) == if IsSingularImageWord(word) then 1 else imageResults
  {
    var t := word + " " + term;
    if word == "images" {
      assert t[5] == 's';
    } else if word == "pictures" {
      assert t[0] == 'p' && t[7] == 's';
    } else if word == "image" {
      assert t[..6] == "image ";
    } else {
      assert t[0] == 'p';
      assert t[..8] == "picture ";
    }
  }

  /** `<mention> images of <term>` searches for `term`, with only its first space made a `+`. */
  lemma ImageQueryOf(mention: string, word: string, term: string, imageResults: int)
    requires ' ' !in mention && IsImageWord(word)
    ensures ImageQuery(mention + " " + word + " of " + term, imageResults)
      == (ReplaceFirst(term, " ", "+"), if IsSingularImageWord(word) then 1 else imageResults)
  {
    var searchTerm := word + " " + ("of " + term);
    assert mention + " " + word + " of " + term == mention + " " + searchTerm;
    BotRouting.AfterMention(mention, searchTerm);
    ImageCountOfWord(word, "of " + term, imageResults);
    TermAfterOf(word, term);
  }

  /** The word `of` after the image word is skipped. */
  lemma TermAfterOf(word: string, term: string)
    requires IsImageWord(word)
    ensures TermAfterWord(word + " " + ("of " + term)) == term
  {
    assert ' ' !in word;
    BotRouting.AfterMention(word, "of " + term);
    assert StartsWith("of " + term, "of ");
    assert "of " + term == "of" + " " + term;
    BotRouting.AfterMention("of", term);
  }

  /** Without `of`, the words after the image word are the search term. */
  lemma ImageQueryPlain(mention: string, word: string, term: string, imageResults: int)
    requires ' ' !in mention && IsImageWord(word) && !StartsWith(term, "of ")
    ensures ImageQuery(mention + " " + word + " " + term, imageResults)
      == (ReplaceFirst(term, " ", "+"), if IsSingularImageWord(word) then 1 else imageResults)
  {
    var searchTerm := word + " " + term;
    assert mention + " " + word + " " + term == mention + " " + searchTerm;
    BotRouting.AfterMention(mention, searchTerm);
    ImageCountOfWord(word, term, imageResults);
    assert ' ' !in word;
    BotRouting.AfterMention(word, term);
    assert TermAfterWord(searchTerm) == term;
  }

  /** Only the first space of a search term becomes `+`. */
  lemma QueryFirstSpace(a: string, b: string)
    requires ' ' !in a
    ensures ReplaceFirst(a + " " + b, " ", "+") == a + "+" + b
  {
    ReplaceFirstChar(a, ' ', b, "+");
  }

  const NoAnswer := "Sorry, I don't understand your query."

  /** The Wolfram|Alpha query: the arguments joined by single spaces. */
  function WolframInput(args: seq<string>): string
  {
    Join(args, " ")
  }

  /** `&amp;` then `&apos;` replaced everywhere, in that order; never longer than the text. */
  function Unescape(t: string): (r: string)
    ensures |r| <= |t|
  {
    ReplaceAllShrinks(t, "&amp;", "&");
    ReplaceAllShrinks(ReplaceAll(t, "&amp;", "&"), "&apos;", "'");
    ReplaceAll(ReplaceAll(t, "&amp;", "&"), "&apos;", "'")
  }

  /** A text pod: the body of the first `<plaintext>` after the pod, unescaped. */
  function TextPod(data: string, pod: int): (r: string)
    ensures r == NoAnswer || |r| <= |data|
  {
    var plaintext := IndexOfFrom(data, "<plaintext>", pod);
    if plaintext == -1 then NoAnswer
    else
      var start := plaintext + |"<plaintext>"|;
      var end := IndexOfFrom(data, "</plaintext", start);
      Unescape(Substring(data, start, end))
  }

  /** A plot pod: the quoted `src` value after the pod, trimmed, first `&amp;` restored, quotes dropped. */
  function PlotLink(data: string, pod: int): (r: string)
    ensures |r| <= |data|
  {
    var start := IndexOfFrom(data, "src='", pod) + |"src="|;
    var end := IndexOfFrom(data, "alt=", start);
    Unquote(Substring(data, start, end))
  }

  /** The `src` text trimmed, its first `&amp;` restored, its outer characters dropped. */
  function Unquote(t: string): (r: string)
    ensures |r| <= |t|
  {
    Slice(ReplaceFirst(Trim(t), "&amp;", "&"), 1, -1)
  }

  /** A quoted link followed by white space comes back without its quotes, its first `&amp;` restored. */
  lemma UnquoteQuoted(url: string)
    ensures Unquote("'" + url + "' ") == ReplaceFirst(url, "&amp;", "&")
  {
    var q := "'" + url + "'";
    assert "'" + url + "' " == q + " ";
    TrimTrailing(q, " ");
    ReplaceFirstInside('\'', url, '\'', "&amp;", "&");
    var u := ReplaceFirst(url, "&amp;", "&");
    assert ("'" + u + "'")[1..|u| + 1] == u;
  }

  const ResultPod := "<pod title='Result'"
  const CurrentPod := "<pod title='Current result'"
  const TablePod := "<pod title='Table'"
  const PlotPod := "<pod title='Plot'"
  const PlotsPod := "<pod title='Plots'"

  /** The answer `wolframCommand` extracts from the returned XML. */
  function WolframAnswer(data: string): (r: string)
    ensures (!Contains(data, ResultPod) && !Contains(data, CurrentPod) && !Contains(data, TablePod)
      && !Contains(data, PlotPod) && !Contains(data, PlotsPod)) ==> r == NoAnswer
    ensures Contains(data, ResultPod) ==> r == TextPod(data, IndexOf(data, ResultPod))
    ensures !Contains(data, ResultPod) && Contains(data, CurrentPod) ==> r == TextPod(data, IndexOf(data, CurrentPod))
    ensures !Contains(data, ResultPod) && !Contains(data, CurrentPod) && Contains(data, TablePod)
      ==> r == TextPod(data, IndexOf(data, TablePod))
  {
    var result := IndexOf(data, ResultPod);
    var current := IndexOf(data, CurrentPod);
    var table := IndexOf(data, TablePod);
    if result != -1 then TextPod(data, result)
    else if current != -1 then TextPod(data, current)
    else if table != -1 then TextPod(data, table)
    else
      var plot := IndexOf(data, PlotPod);
      var pod := if plot != -1 then plot else IndexOf(data, PlotsPod);
      if pod == -1 then NoAnswer else PlotLink(data, pod)
  }

  /** Without a text pod, a `Plot` pod is used, and failing that a `Plots` pod. */
  lemma WolframPlots(data: string)
    requires !Contains(data, ResultPod) && !Contains(data, CurrentPod) && !Contains(data, TablePod)
    ensures Contains(data, PlotPod) ==> WolframAnswer(data) == PlotLink(data, IndexOf(data, PlotPod))
    ensures !Contains(data, PlotPod) && Contains(data, PlotsPod) ==> WolframAnswer(data) == PlotLink(data, IndexOf(data, PlotsPod))
  {
  }

  /** A text pod with both tags gives back exactly the unescaped text between them. */
  lemma TextPodBody(data: string, pod: int)
    requires IndexOfFrom(data, "<plaintext>", pod) != -1
    requires IndexOfFrom(data, "</plaintext", IndexOfFrom(data, "<plaintext>", pod) + 11) != -1
    ensures var start := IndexOfFrom(data, "<plaintext>", pod) + 11;
      TextPod(data, pod) == Unescape(data[start..IndexOfFrom(data, "</plaintext", start)])
  {
  }

  /** A text pod without a closing tag swaps the bounds and gives the text BEFORE the body. */
  lemma TextPodUnclosed(data: string, pod: int)
    requires IndexOfFrom(data, "<plaintext>", pod) != -1
    requires IndexOfFrom(data, "</plaintext", IndexOfFrom(data, "<plaintext>", pod) + 11) == -1
    ensures var start := IndexOfFrom(data, "<plaintext>", pod) + 11;
      TextPod(data, pod) == Unescape(data[..start])
  {
  }

  /** A text pod with no `<plaintext>` after it is not understood. */
  lemma TextPodEmpty(data: string, pod: int)
    requires IndexOfFrom(data, "<plaintext>", pod) == -1
    ensures TextPod(data, pod) == NoAnswer
  {
  }

  /** Text without an ampersand is not changed by unescaping. */
  lemma UnescapePlain(t: string)
    requires '&' !in t
    ensures Unescape(t) == t
  {
    AbsentLead(t, "&amp;");
    ReplaceAllAbsent(t, "&amp;", "&");
    AbsentLead(t, "&apos;");
    ReplaceAllAbsent(t, "&apos;", "'");
  }

  /** A quoted link followed by one space comes back without its quotes, its first `&amp;` restored. */
  lemma PlotLinkQuoted(data: string, pod: int, url: string)
    requires IndexOfFrom(data, "src='", pod) != -1
    requires var start := IndexOfFrom(data, "src='", pod) + 4;
      var end := IndexOfFrom(data, "alt=", start);
      end != -1 && data[start..end] == "'" + url + "' "
    ensures PlotLink(data, pod) == ReplaceFirst(url, "&amp;", "&")
  {
    var start := IndexOfFrom(data, "src='", pod) + 4;
    var end := IndexOfFrom(data, "alt=", start);
    var t := Substring(data, start, end);
    assert t == "'" + url + "' ";
    assert PlotLink(data, pod) == Unquote(t);
    UnquoteQuoted(url);
  }

  const GithubCone := "https://protuhj.github.io/nhc-cones/atl_latest.png"
  const NhcSite := "https://www.nhc.noaa.gov"

  /** The chart path inside the contents area of the NHC front page, quotes included. */
  function NhcImagePath(page: string): (r: string)
    ensures |r| <= |page|
  {
    var startIdx := IndexOf(page, "<!-- START OF CONTENTS -->");
    var endIdx := IndexOfFrom(page, "<!-- END OF CONTENTS -->", startIdx);
    var contentArea := Substring(page, startIdx, endIdx);
    var tagStart := IndexOf(contentArea, "<img id=");
    var tagEnd := IndexOfFrom(contentArea, ">", tagStart);
    var imgTag := Substring(contentArea, tagStart, tagEnd);
    var linkStart := IndexOf(imgTag, "src=") + |"src="|;
    var linkEnd := IndexOfFrom(imgTag, "useMap=", linkStart);
    Substring(imgTag, linkStart, linkEnd)
  }

  /**
    When the page has both contents markers, an `<img id=` tag closed by `>` inside
    them, and `src=` then `useMap=` inside that tag, the chart path is exactly the
    text between `src=` and the first `useMap=` after it, and so holds no `useMap=`.
   */
  lemma NhcImagePathFound(page: string)
    requires var startIdx := IndexOf(page, "<!-- START OF CONTENTS -->");
      var endIdx := IndexOfFrom(page, "<!-- END OF CONTENTS -->", startIdx);
      startIdx != -1 && endIdx != -1 &&
      var area := page[startIdx..endIdx];
      var tagStart := IndexOf(area, "<img id=");
      var tagEnd := IndexOfFrom(area, ">", tagStart);
      tagStart != -1 && tagEnd != -1 &&
      var tag := area[tagStart..tagEnd];
      IndexOf(tag, "src=") != -1 && IndexOfFrom(tag, "useMap=", IndexOf(tag, "src=") + 4) != -1
    ensures var startIdx := IndexOf(page, "<!-- START OF CONTENTS -->");
      var area := page[startIdx..IndexOfFrom(page, "<!-- END OF CONTENTS -->", startIdx)];
      var tagStart := IndexOf(area, "<img id=");
      var tag := area[tagStart..IndexOfFrom(area, ">", tagStart)];
      var linkStart := IndexOf(tag, "src=") + 4;
      var link := tag[linkStart..IndexOfFrom(tag, "useMap=", linkStart)];
      NhcImagePath(page) == link && !Contains(link, "useMap=")
  {
    var startIdx := IndexOf(page, "<!-- START OF CONTENTS -->");
    var area := page[startIdx..IndexOfFrom(page, "<!-- END OF CONTENTS -->", startIdx)];
    var tagStart := IndexOf(area, "<img id=");
    var tag := area[tagStart..IndexOfFrom(area, ">", tagStart)];
    var linkStart := IndexOf(tag, "src=") + 4;
    AbsentBetween(tag, "useMap=", linkStart, IndexOfFrom(tag, "useMap=", linkStart));
  }

  /**
    `noaaCommand`: the fixed mirror URL when `nhc_from_github` is set, whatever the
    page; otherwise the NHC site followed by the chart path with every `'` removed.
   */
  function NoaaReply(fromGithub: bool, page: string): (r: string)
    ensures fromGithub ==> r == GithubCone
    ensures !fromGithub ==> r == NhcSite + Without(NhcImagePath(page), '\'')
    ensures !fromGithub ==> StartsWith(r, NhcSite) && '\'' !in r[|NhcSite|..]
  {
    if fromGithub then GithubCone
    else
      var path := NhcImagePath(page);
      ReplaceAllCharByNothing(path, '\'');
      var r := NhcSite + ReplaceAll(path, "'", "");
      assert r[..|NhcSite|] == NhcSite && r[|NhcSite|..] == Without(path, '\'');
      r
  }

  /** With the mirror switched on, the NHC page plays no part in the reply. */
  lemma NoaaMirrorIgnoresPage(page1: string, page2: string)
    ensures NoaaReply(true, page1) == NoaaReply(true, page2)
  {
  }
}
