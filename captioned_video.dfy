/** The runtime grouper of the captioned video component: fetched captions become pages
    of timed chunks, either by "smart" pairing of short words with even time sharing, or by
    adapting the chunks a caption already carries. Fetching, file watching, fonts and
    rendering are not modelled; the component is a function from the fetched caption list
    to the pages it shows. */
module CaptionedVideo {
  import opened Text
  import opened Captions
  import opened Timing
  import opened ConvertSrt

  /** A fetched caption (`CaptionWithTokens`): the fields the component reads, with the
      optional `tokens` list the converter writes. */
  datatype Caption = Caption(text: string, startMs: int, endMs: int, tokens: Option<seq<Token>>)

  // ---------------------------------------------------------------------------
  // Smart grouping

  /** The grouping test of `createSmartChunks`: the next word exists and is non-empty, and
      both words are at most three characters long. */
  predicate ShortPair(current: string, next: string) {
    next != "" && |current| <= 3 && |next| <= 3
  }

  /** Greedy grouping from the left: a word is paired with the next one when both are
      short, and shown alone otherwise. */
  function SmartGroup(words: seq<string>): (chunks: seq<string>)
    decreases |words|
  {
    if words == [] then []
    else if |words| >= 2 && ShortPair(words[0], words[1]) then
      [words[0] + " " + words[1]] + SmartGroup(words[2..])
    else [words[0]] + SmartGroup(words[1..])
  }

  /** There are at least half as many chunks as words (rounded up) and at most as many. */
  lemma {:induction false} SmartGroupCount(words: seq<string>)
    ensures (|words| + 1) / 2 <= |SmartGroup(words)| <= |words|
    decreases |words|
  {
    if words == [] {
    } else if |words| >= 2 && ShortPair(words[0], words[1]) {
      SmartGroupCount(words[2..]);
    } else {
      SmartGroupCount(words[1..]);
    }
  }

  /** `createSmartChunks(text)`: split on whitespace runs, then walk the words with a cursor
      that advances by two after a pair and by one after a single word. */
  method SmartChunks(text: string) returns (chunks: seq<string>)
    ensures chunks == SmartGroup(SplitWs(text))
  {
    var words := SplitWs(text);
    chunks := [];
    var i := 0;
    while i < |words|
      invariant 0 <= i <= |words|
      invariant chunks + SmartGroup(words[i..]) == SmartGroup(words)
      decreases |words| - i
    {
      var currentWord := words[i];
      if i + 1 < |words| && ShortPair(currentWord, words[i + 1]) {
        var chunk := currentWord + " " + words[i + 1];
        SmartGroupPairStep(words, i);
        ConcatAssoc(chunks, [chunk], SmartGroup(words[i + 2..]));
        chunks := chunks + [chunk];
        i := i + 2;
      } else {
        SmartGroupSingleStep(words, i);
        ConcatAssoc(chunks, [currentWord], SmartGroup(words[i + 1..]));
        chunks := chunks + [currentWord];
        i := i + 1;
      }
    }
    assert words[i..] == [];
  }

  /** The grouping of words[i..] when words i and i + 1 form a short pair. */
  lemma SmartGroupPairStep(words: seq<string>, i: nat)
    requires i + 1 < |words| && ShortPair(words[i], words[i + 1])
    ensures SmartGroup(words[i..]) == [words[i] + " " + words[i + 1]] + SmartGroup(words[i + 2..])
  {
    assert words[i..][0] == words[i] && words[i..][1] == words[i + 1];
    assert words[i..][2..] == words[i + 2..];
  }

  /** The grouping of words[i..] when word i is shown alone. */
  lemma SmartGroupSingleStep(words: seq<string>, i: nat)
    requires i < |words| && !(i + 1 < |words| && ShortPair(words[i], words[i + 1]))
    ensures SmartGroup(words[i..]) == [words[i]] + SmartGroup(words[i + 1..])
  {
    assert words[i..][0] == words[i];
    assert |words[i..]| >= 2 ==> words[i..][1] == words[i + 1];
    assert words[i..][1..] == words[i + 1..];
  }

  /** Joining the chunks with spaces gives the words joined with spaces: nothing is
      dropped, reordered or duplicated. */
  lemma {:induction false} SmartGroupJoin(words: seq<string>)
    ensures JoinSp(SmartGroup(words)) == JoinSp(words)
    decreases |words|
  {
    if words == [] {
    } else if |words| >= 2 && ShortPair(words[0], words[1]) {
      var rest := words[2..];
      SmartGroupJoin(rest);
      JoinPair(words[0], words[1], " ");
      assert words[..2] == [words[0], words[1]];
      if rest == [] {
        assert words == words[..2];
      } else {
        assert words == words[..2] + rest;
        JoinAppend(words[..2], rest, " ");
        JoinAppend([words[0] + " " + words[1]], SmartGroup(rest), " ");
      }
    } else {
      var rest := words[1..];
      SmartGroupJoin(rest);
      if rest == [] {
      } else {
        assert words == [words[0]] + rest;
        JoinAppend([words[0]], rest, " ");
        JoinAppend([words[0]], SmartGroup(rest), " ");
      }
    }
  }

  /** Words without whitespace come back from the chunks: splitting the joined chunks on
      whitespace gives the words again. */
  lemma SmartGroupSplit(words: seq<string>)
    requires |words| > 0 && Words(words)
    ensures SplitWs(JoinSp(SmartGroup(words))) == words
  {
    SmartGroupJoin(words);
    SplitWsJoin(words);
  }

  /** A chunk is either one of the words or two adjacent short words with a space between. */
  lemma {:induction false} SmartGroupChunks(words: seq<string>)
    ensures forall k :: 0 <= k < |SmartGroup(words)| ==>
      || SmartGroup(words)[k] in words
      || exists i :: 0 <= i < |words| - 1 && ShortPair(words[i], words[i + 1])
                                        && SmartGroup(words)[k] == words[i] + " " + words[i + 1]
    decreases |words|
  {
    if words != [] {
      var chunks := SmartGroup(words);
      var d := if |words| >= 2 && ShortPair(words[0], words[1]) then 2 else 1;
      var rest := words[d..];
      SmartGroupChunks(rest);
      assert chunks[1..] == SmartGroup(rest);
      forall k | 1 <= k < |chunks|
        ensures || chunks[k] in words
                || exists i :: 0 <= i < |words| - 1 && ShortPair(words[i], words[i + 1])
                                                  && chunks[k] == words[i] + " " + words[i + 1]
      {
        assert chunks[k] == SmartGroup(rest)[k - 1];
        if chunks[k] in rest {
          var j :| 0 <= j < |rest| && rest[j] == chunks[k];
          assert words[j + d] == chunks[k];
        } else {
          var j :| 0 <= j < |rest| - 1 && ShortPair(rest[j], rest[j + 1])
                                       && chunks[k] == rest[j] + " " + rest[j + 1];
          assert words[j + d] == rest[j] && words[j + d + 1] == rest[j + 1];
        }
      }
    }
  }

  /** The grouping is greedy and misses no pair: two neighbouring chunks that are both single
      words (no space in them) could not have been grouped. */
  lemma {:induction false} SmartGroupMaximal(words: seq<string>)
    requires forall i :: 0 <= i < |words| ==> ' ' !in words[i]
    ensures forall k :: 0 <= k < |SmartGroup(words)| - 1 ==>
      ' ' in SmartGroup(words)[k] || ' ' in SmartGroup(words)[k + 1]
      || !ShortPair(SmartGroup(words)[k], SmartGroup(words)[k + 1])
    decreases |words|
  {
    if words != [] {
      var chunks := SmartGroup(words);
      var d := if |words| >= 2 && ShortPair(words[0], words[1]) then 2 else 1;
      var rest := words[d..];
      SmartGroupMaximal(rest);
      assert chunks[1..] == SmartGroup(rest);
      if |chunks| > 1 {
        if d == 2 {
          assert ' ' in chunks[0] by { assert chunks[0][|words[0]|] == ' '; }
        } else {
          assert chunks[0] == words[0];
          SmartGroupHead(rest);
        }
      }
      forall k | 1 <= k < |chunks| - 1
        ensures ' ' in chunks[k] || ' ' in chunks[k + 1] || !ShortPair(chunks[k], chunks[k + 1])
      {
        assert chunks[k] == SmartGroup(rest)[k - 1] && chunks[k + 1] == SmartGroup(rest)[k];
      }
    }
  }

  /** The first chunk is the first word, or it holds a space. */
  lemma SmartGroupHead(words: seq<string>)
    requires words != [] && ' ' !in words[0]
    ensures SmartGroup(words)[0] == words[0] || ' ' in SmartGroup(words)[0]
  {
    if |words| >= 2 && ShortPair(words[0], words[1]) {
      assert SmartGroup(words)[0][|words[0]|] == ' ';
    }
  }

  /** Where no two neighbouring words are both short, every word is shown alone. */
  lemma {:induction false} SmartGroupSingles(words: seq<string>)
    requires forall i :: 0 <= i < |words| - 1 ==> !ShortPair(words[i], words[i + 1])
    ensures SmartGroup(words) == words
    decreases |words|
  {
    if words != [] {
      SmartGroupSingles(words[1..]);
      assert words == [words[0]] + words[1..];
    }
  }

  /** Where every word is non-empty and short, smart grouping is the converter's fixed
      pairing. */
  lemma {:induction false} SmartGroupAllShort(words: seq<string>)
    requires forall i :: 0 <= i < |words| ==> words[i] != "" && |words[i]| <= 3
    ensures SmartGroup(words) == FixedPairs(words)
    decreases |words|
  {
    if |words| >= 2 {
      SmartGroupAllShort(words[2..]);
      assert words[..2] == [words[0], words[1]];
      JoinPair(words[0], words[1], " ");
      assert Min(2, |words|) == 2;
    } else if |words| == 1 {
      assert words[..1] == words;
    }
  }

  /** A word of ASCII letters holds no whitespace. */
  lemma LettersNoWs(w: string)
    requires forall j :: 0 <= j < |w| ==> 'a' <= w[j] <= 'z' || 'A' <= w[j] <= 'Z'
    ensures NoWs(w)
  {
  }

  /** The example's words hold no whitespace. */
  lemma ExampleWords()
    ensures Words(["I", "am", "so", "very", "happy", "today"])
  {
    LettersNoWs("I");
    LettersNoWs("am");
    LettersNoWs("so");
    LettersNoWs("very");
    LettersNoWs("happy");
    LettersNoWs("today");
  }

  /** The last four words of the example joined with single spaces. */
  lemma ExampleJoinTail()
    ensures JoinSp(["so", "very", "happy", "today"]) == "so very happy today"
  {
    JoinPair("happy", "today", " ");
    assert "happy" + " " + "today" == "happy today";
    JoinCons("very", ["happy", "today"], " ");
    assert "very" + " " + "happy today" == "very happy today";
    JoinCons("so", ["very", "happy", "today"], " ");
    assert "so" + " " + "very happy today" == "so very happy today";
  }

  /** The last five words of the example joined with single spaces. */
  lemma ExampleJoinMid()
    ensures JoinSp(["am", "so", "very", "happy", "today"]) == "am so very happy today"
  {
    ExampleJoinTail();
    JoinCons("am", ["so", "very", "happy", "today"], " ");
    assert "am" + " " + "so very happy today" == "am so very happy today";
  }

  /** The example sentence is its words joined with single spaces. */
  lemma ExampleJoin()
    ensures JoinSp(["I", "am", "so", "very", "happy", "today"]) == "I am so very happy today"
  {
    ExampleJoinMid();
    JoinCons("I", ["am", "so", "very", "happy", "today"], " ");
    assert "I" + " " + "am so very happy today" == "I am so very happy today";
  }

  /** The example's words group as "I am", "so", "very", "happy", "today". */
  lemma ExampleGroup()
    ensures SmartGroup(["I", "am", "so", "very", "happy", "today"]) == ["I am", "so", "very", "happy", "today"]
  {
    var words := ["I", "am", "so", "very", "happy", "today"];
    var w2, w3, w4, w5 := ["so", "very", "happy", "today"], ["very", "happy", "today"], ["happy", "today"], ["today"];
    assert SmartGroup(w5) == ["today"] by { assert w5[1..] == []; }
    assert SmartGroup(w4) == ["happy", "today"] by { assert w4[1..] == w5; }
    assert SmartGroup(w3) == ["very", "happy", "today"] by { assert w3[1..] == w4; }
    assert SmartGroup(w2) == ["so", "very", "happy", "today"] by { assert w2[1..] == w3; }
    assert ShortPair(words[0], words[1]) && words[0] + " " + words[1] == "I am";
    assert words[2..] == w2;
  }

  /** `createSmartChunks("I am so very happy today")` gives "I am", "so", "very", "happy",
      "today". */
  lemma SmartGroupExample()
    ensures SmartGroup(SplitWs("I am so very happy today")) == ["I am", "so", "very", "happy", "today"]
  {
    ExampleWords();
    ExampleJoin();
    SplitWsJoin(["I", "am", "so", "very", "happy", "today"]);
    ExampleGroup();
  }

  // ---------------------------------------------------------------------------
  // Pages

  /** `chunks.map((chunk, index) => ({ text, fromMs: startMs + floor(index * d),
      toMs: startMs + floor((index + 1) * d) }))` with `d = (endMs - startMs) / n`. */
  function PageTokens(chunks: seq<string>, startMs: int, endMs: int): (tokens: seq<PageToken>)
    ensures |tokens| == |chunks|
  {
    var spans := Spans(startMs, endMs, |chunks|);
    seq(|chunks|, i requires 0 <= i < |chunks| => PageToken(chunks[i], spans[i].lo, spans[i].hi))
  }

  /** The windows of a page's tokens. */
  function PageSpans(tokens: seq<PageToken>): (spans: seq<Span>)
    ensures |spans| == |tokens|
  {
    seq(|tokens|, i requires 0 <= i < |tokens| => Span(tokens[i].fromMs, tokens[i].toMs))
  }

  /** The chunk texts of a page's tokens. */
  function PageTexts(tokens: seq<PageToken>): (texts: seq<string>)
    ensures |texts| == |tokens|
  {
    seq(|tokens|, i requires 0 <= i < |tokens| => tokens[i].text)
  }

  /** The tokens carry the chunks in order, each in its floor window of the page. */
  lemma PageTokensParts(chunks: seq<string>, startMs: int, endMs: int)
    ensures PageTexts(PageTokens(chunks, startMs, endMs)) == chunks
    ensures PageSpans(PageTokens(chunks, startMs, endMs)) == Spans(startMs, endMs, |chunks|)
  {
  }

  /** The page the smart grouper makes of one caption. */
  function SmartPage(c: Caption): Page {
    Page(c.text, c.startMs, c.endMs, c.endMs - c.startMs,
         PageTokens(SmartGroup(SplitWs(c.text)), c.startMs, c.endMs))
  }

  /** The pages the smart grouper makes of a caption list, one per caption, in order. */
  function SmartPages(captions: seq<Caption>): (pages: seq<Page>)
    ensures |pages| == |captions|
  {
    seq(|captions|, i requires 0 <= i < |captions| => SmartPage(captions[i]))
  }

  /** `createSmartTikTokCaptions(captions)`: one page per caption, pushed in order. */
  method CreateSmartTikTokCaptions(captions: seq<Caption>) returns (pages: seq<Page>)
    ensures pages == SmartPages(captions)
  {
    pages := [];
    for n := 0 to |captions|
      invariant pages == SmartPages(captions[..n])
    {
      var caption := captions[n];
      var durationMs := caption.endMs - caption.startMs;
      var chunks := SmartChunks(caption.text);
      var tokens := PageTokens(chunks, caption.startMs, caption.endMs);
      var page := Page(caption.text, caption.startMs, caption.endMs, durationMs, tokens);
      assert page == SmartPage(caption);
      assert captions[..n + 1] == captions[..n] + [caption];
      SmartPagesSnoc(captions[..n], caption);
      pages := pages + [page];
    }
    assert captions[..|captions|] == captions;
  }

  /** One more caption adds its smart page at the end. */
  lemma SmartPagesSnoc(captions: seq<Caption>, c: Caption)
    ensures SmartPages(captions + [c]) == SmartPages(captions) + [SmartPage(c)]
  {
    var cs := captions + [c];
    assert forall i :: 0 <= i < |captions| ==> cs[i] == captions[i];
  }

  /** A smart page keeps its caption's text and span, has at least one chunk (so the time
      share is never a division by zero), carries the caption's words in order, and its
      token windows tile the span. */
  lemma SmartPageShape(c: Caption)
    ensures var p := SmartPage(c);
      && p.text == c.text && p.startMs == c.startMs && p.endMs == c.endMs
      && p.durationMs == c.endMs - c.startMs
      && |p.tokens| >= 1
      && JoinSp(PageTexts(p.tokens)) == JoinSp(SplitWs(c.text))
      && Tiles(PageSpans(p.tokens), c.startMs, c.endMs)
      && TotalLength(PageSpans(p.tokens)) == p.durationMs
      && (c.startMs <= c.endMs ==> Ordered(PageSpans(p.tokens)))
  {
    var p := SmartPage(c);
    var chunks := SmartGroup(SplitWs(c.text));
    PageTokensParts(chunks, c.startMs, c.endMs);
    SmartGroupJoin(SplitWs(c.text));
    SpansTile(c.startMs, c.endMs, |chunks|);
    TilesTotal(PageSpans(p.tokens), c.startMs, c.endMs);
    if c.startMs <= c.endMs {
      SpansOrdered(c.startMs, c.endMs, |chunks|);
    }
  }

  // ---------------------------------------------------------------------------
  // Pre-baked tokens

  /** `{ text, fromMs: token.startMs, toMs: token.endMs }` */
  function AdaptToken(t: Token): PageToken
  {
    PageToken(t.text, t.startMs, t.endMs)
  }

  /** The converter's token read back from a page token. */
  function ConverterToken(p: PageToken): Token
  {
    Token(p.text, p.fromMs, p.toMs)
  }

  /** The page of a caption that carries tokens; None for a caption without tokens, where
      `caption.tokens!.map` throws. */
  function AdaptCaption(c: Caption): (r: Option<Page>)
    ensures r.Some? <==> c.tokens.Some?
  {
    match c.tokens
    case None => None
    case Some(ts) =>
      Some(Page(c.text, c.startMs, c.endMs, c.endMs - c.startMs,
                seq(|ts|, i requires 0 <= i < |ts| => AdaptToken(ts[i]))))
  }

  /** `tokenCaptions.map(...)`: None as soon as one caption has no tokens. */
  function AdaptAll(captions: seq<Caption>): (r: Option<seq<Page>>)
    ensures r.Some? <==> forall i :: 0 <= i < |captions| ==> captions[i].tokens.Some?
    ensures r.Some? ==> |r.value| == |captions|
  {
    if forall i :: 0 <= i < |captions| ==> captions[i].tokens.Some? then
      Some(seq(|captions|, i requires 0 <= i < |captions| => AdaptCaption(captions[i]).value))
    else None
  }

  /** Adapting loses nothing: reading the page tokens back gives the caption's tokens. */
  lemma AdaptCaptionInverse(c: Caption)
    requires c.tokens.Some?
    ensures var p := AdaptCaption(c).value;
      && |p.tokens| == |c.tokens.value|
      && (forall i :: 0 <= i < |p.tokens| ==> ConverterToken(p.tokens[i]) == c.tokens.value[i])
      && p.text == c.text && p.startMs == c.startMs && p.endMs == c.endMs
      && p.durationMs == c.endMs - c.startMs
  {
  }

  /** The `useMemo` body: when the first caption carries tokens they are adapted for every
      caption (failing when a later caption has none); otherwise every caption is grouped
      by the smart grouper. An empty token list counts as carrying tokens, as an empty
      array is truthy. */
  function BuildPages(subtitles: seq<Caption>): Option<seq<Page>> {
    if |subtitles| > 0 && subtitles[0].tokens.Some? then AdaptAll(subtitles)
    else Some(SmartPages(subtitles))
  }

  /** The pages keep the captions' count, order, text and spans; the pre-baked path keeps
      every chunk and window exactly as the caption carries them, without regrouping; the
      other path is the smart grouper; nothing is built only when the first caption carries
      tokens and some caption does not. */
  lemma BuildPagesShape(subtitles: seq<Caption>)
    ensures BuildPages(subtitles).None? <==>
      && |subtitles| > 0 && subtitles[0].tokens.Some?
      && exists i :: 0 <= i < |subtitles| && subtitles[i].tokens.None?
    ensures BuildPages(subtitles).Some? ==>
      var pages := BuildPages(subtitles).value;
      && |pages| == |subtitles|
      && forall i :: 0 <= i < |pages| ==>
        && pages[i].text == subtitles[i].text
        && pages[i].startMs == subtitles[i].startMs && pages[i].endMs == subtitles[i].endMs
        && pages[i].durationMs == subtitles[i].endMs - subtitles[i].startMs
    ensures |subtitles| > 0 && subtitles[0].tokens.Some? && BuildPages(subtitles).Some? ==>
      forall i :: 0 <= i < |subtitles| ==>
        (subtitles[i].tokens.Some? &&
         var ts, ps := subtitles[i].tokens.value, BuildPages(subtitles).value[i].tokens;
         |ps| == |ts| && forall j :: 0 <= j < |ts| ==> ConverterToken(ps[j]) == ts[j])
    ensures (|subtitles| == 0 || subtitles[0].tokens.None?) ==>
      BuildPages(subtitles) == Some(SmartPages(subtitles))
  {
  }

  /** A converter token with numeric times as the component reads it. */
  function FetchedToken(t: SrtToken): Token
    requires t.startMs.Some? && t.endMs.Some?
  {
    Token(t.text, t.startMs.value, t.endMs.value)
  }

  /** A converter caption with numeric times as the component fetches it. */
  function Fetched(c: SrtCaption): (f: Caption)
    requires Timed(c)
    ensures f.tokens.Some? && |f.tokens.value| == |c.tokens|
  {
    Caption(c.text, c.startMs.value, c.endMs.value,
            Some(seq(|c.tokens|, i requires 0 <= i < |c.tokens| => FetchedToken(c.tokens[i]))))
  }

  /** The converter's captions as the component fetches them. */
  function AsFetched(captions: seq<SrtCaption>): (fetched: seq<Caption>)
    requires forall i :: 0 <= i < |captions| ==> Timed(captions[i])
    ensures |fetched| == |captions|
  {
    seq(|captions|, i requires 0 <= i < |captions| => Fetched(captions[i]))
  }

  /** The converter's output, when its times are numbers, always takes the pre-baked path:
      the pages show exactly the converter's fixed pairs in the converter's windows. */
  lemma ConverterOutputPages(content: string)
    requires forall i :: 0 <= i < |ConvertSrtToJson(content)| ==> Timed(ConvertSrtToJson(content)[i])
    ensures var captions := ConvertSrtToJson(content);
      && BuildPages(AsFetched(captions)).Some?
      && var pages := BuildPages(AsFetched(captions)).value;
      && |pages| == |captions|
      && forall i :: 0 <= i < |captions| ==>
        && pages[i].text == captions[i].text
        && Some(pages[i].startMs) == captions[i].startMs && Some(pages[i].endMs) == captions[i].endMs
        && |pages[i].tokens| == |captions[i].tokens|
        && forall j :: 0 <= j < |captions[i].tokens| ==>
          && pages[i].tokens[j].text == captions[i].tokens[j].text
          && Some(pages[i].tokens[j].fromMs) == captions[i].tokens[j].startMs
          && Some(pages[i].tokens[j].toMs) == captions[i].tokens[j].endMs
  {
    var captions := ConvertSrtToJson(content);
    var fetched := AsFetched(captions);
    BuildPagesShape(fetched);
    if |captions| == 0 {
      assert BuildPages(fetched) == Some([]);
    }
  }

  // ---------------------------------------------------------------------------
  // Caption file name

  /** The characters the regular expression `.` does not match. */
  predicate IsLineTerminator(c: char) {
    c == '\n' || c == '\r' || c == '\U{2028}' || c == '\U{2029}'
  }

  /** s ends with any character but a line terminator followed by ext: the text that the
      unescaped pattern `.ext$` matches at the end of s. */
  predicate LooseSuffix(s: string, ext: string) {
    |s| > |ext| && !IsLineTerminator(s[|s| - |ext| - 1]) && s[|s| - |ext|..] == ext
  }

  /** `s.replace(/.ext$/, ".json")`: the pattern has a fixed length and is anchored at the
      end, so only the last |ext| + 1 characters can match. */
  function ReplaceLoose(s: string, ext: string): string
  {
    if LooseSuffix(s, ext) then s[..|s| - |ext| - 1] + ".json" else s
  }

  /** The four video extensions whose file gets a ".json" caption file. */
  predicate VideoExt(ext: string) {
    ext == "mp4" || ext == "mkv" || ext == "mov" || ext == "webm"
  }

  /** `subtitlesFile`: the chained replacements for mp4, mkv, mov and webm. */
  function SubtitlesFile(src: string): string {
    ReplaceLoose(ReplaceLoose(ReplaceLoose(ReplaceLoose(src, "mp4"), "mkv"), "mov"), "webm")
  }

  /** A name ending in ".json" matches none of the four patterns. */
  lemma JsonMatchesNone(s: string, ext: string)
    requires |s| >= 5 && s[|s| - 5..] == ".json" && VideoExt(ext)
    ensures !LooseSuffix(s, ext)
  {
    assert s[|s| - 1] == 'n' && s[|s| - 2] == 'o' && s[|s| - 3] == 's' && s[|s| - 4] == 'j' by {
      assert s[|s| - 5..][4] == 'n' && s[|s| - 5..][3] == 'o';
      assert s[|s| - 5..][2] == 's' && s[|s| - 5..][1] == 'j';
    }
  }

  /** The last character of a matched name tells the extension apart. */
  lemma LooseSuffixLast(s: string, ext: string)
    requires |ext| >= 2 && LooseSuffix(s, ext)
    ensures s[|s| - 1] == ext[|ext| - 1] && s[|s| - 2] == ext[|ext| - 2]
  {
    assert s[|s| - |ext|..][|ext| - 1] == s[|s| - 1];
    assert s[|s| - |ext|..][|ext| - 2] == s[|s| - 2];
  }

  /** A file whose name ends with one of the four loose extension patterns gets that suffix
      replaced by ".json", and by no other replacement. */
  lemma SubtitlesFileMatched(src: string, ext: string)
    requires VideoExt(ext) && LooseSuffix(src, ext)
    ensures SubtitlesFile(src) == src[..|src| - |ext| - 1] + ".json"
  {
    var r := src[..|src| - |ext| - 1] + ".json";
    assert r[|r| - 5..] == ".json";
    if ext == "mp4" {
      assert ReplaceLoose(src, "mp4") == r;
      LooseJsonStays(r, "mkv");
      LooseJsonStays(r, "mov");
      LooseJsonStays(r, "webm");
    } else {
      LooseOtherStays(src, ext, "mp4");
      if ext == "mkv" {
        assert ReplaceLoose(src, "mkv") == r;
        LooseJsonStays(r, "mov");
        LooseJsonStays(r, "webm");
      } else {
        LooseOtherStays(src, ext, "mkv");
        if ext == "mov" {
          assert ReplaceLoose(src, "mov") == r;
          LooseJsonStays(r, "webm");
        } else {
          LooseOtherStays(src, ext, "mov");
        }
      }
    }
  }

  /** A name ending in ".json" is left alone by each of the four replacements. */
  lemma LooseJsonStays(r: string, ext: string)
    requires |r| >= 5 && r[|r| - 5..] == ".json" && VideoExt(ext)
    ensures ReplaceLoose(r, ext) == r
  {
    JsonMatchesNone(r, ext);
  }

  /** A name matched by one pattern is left alone by the replacement for another extension. */
  lemma LooseOtherStays(s: string, ext: string, other: string)
    requires VideoExt(ext) && VideoExt(other) && ext != other && LooseSuffix(s, ext)
    ensures ReplaceLoose(s, other) == s
  {
    LooseSuffixLast(s, ext);
    if LooseSuffix(s, other) {
      LooseSuffixLast(s, other);
    }
  }

  /** Every other name is left unchanged. */
  lemma SubtitlesFileUnmatched(src: string)
    requires forall ext :: VideoExt(ext) ==> !LooseSuffix(src, ext)
    ensures SubtitlesFile(src) == src
  {
    assert !LooseSuffix(src, "mp4") && !LooseSuffix(src, "mkv");
    assert !LooseSuffix(src, "mov") && !LooseSuffix(src, "webm");
  }

  /** The unescaped dot lets any character stand before the extension: "clipmp4", which has
      no ".mp4" extension, becomes "cli.json". */
  lemma SubtitlesFileLooseDot()
    ensures SubtitlesFile("clipmp4") == "cli.json"
  {
    var s := "clipmp4";
    LooseDotMatches();
    SubtitlesFileMatched(s, "mp4");
    assert s[..|s| - 4] == "cli";
    assert "cli" + ".json" == "cli.json";
  }

  /** The pattern `.mp4$` matches the last four characters "pmp4" of "clipmp4". */
  lemma LooseDotMatches()
    ensures LooseSuffix("clipmp4", "mp4")
  {
    var s := "clipmp4";
    assert s[4..] == "mp4";
    assert s[3] == 'p';
  }

  /** s ends with a literal dot followed by ext. */
  predicate DotSuffix(s: string, ext: string) {
    |s| > |ext| && s[|s| - |ext| - 1..] == "." + ext
  }

  /** `s.replace(/\.ext$/, ".json")`: the replacement with the dot escaped. */
  function ReplaceDot(s: string, ext: string): string
  {
    if DotSuffix(s, ext) then s[..|s| - |ext| - 1] + ".json" else s
  }

  /** The caption file name with the extension dots escaped. */
  function JsonFileName(src: string): string {
    ReplaceDot(ReplaceDot(ReplaceDot(ReplaceDot(src, "mp4"), "mkv"), "mov"), "webm")
  }

  /** A literal-dot extension is a loose one too. */
  lemma DotSuffixLoose(s: string, ext: string)
    requires DotSuffix(s, ext)
    ensures LooseSuffix(s, ext)
  {
    assert s[|s| - |ext| - 1] == s[|s| - |ext| - 1..][0];
    assert s[|s| - |ext|..] == s[|s| - |ext| - 1..][1..];
  }

  /** With the dot escaped, a video file "name.ext" gets "name.json". */
  lemma JsonFileNameMatched(src: string, ext: string)
    requires VideoExt(ext) && DotSuffix(src, ext)
    ensures JsonFileName(src) == src[..|src| - |ext| - 1] + ".json"
  {
    DotSuffixLoose(src, ext);
    var r := src[..|src| - |ext| - 1] + ".json";
    assert r[|r| - 5..] == ".json";
    if ext == "mp4" {
      assert ReplaceDot(src, "mp4") == r;
      DotJsonStays(r, "mkv");
      DotJsonStays(r, "mov");
      DotJsonStays(r, "webm");
    } else {
      DotOther(src, ext, "mp4");
      if ext == "mkv" {
        assert ReplaceDot(src, "mkv") == r;
        DotJsonStays(r, "mov");
        DotJsonStays(r, "webm");
      } else {
        DotOther(src, ext, "mkv");
        if ext == "mov" {
          assert ReplaceDot(src, "mov") == r;
          DotJsonStays(r, "webm");
        } else {
          DotOther(src, ext, "mov");
        }
      }
    }
  }

  /** A name ending in ".json" is left alone by each of the four escaped replacements. */
  lemma DotJsonStays(r: string, ext: string)
    requires |r| >= 5 && r[|r| - 5..] == ".json" && VideoExt(ext)
    ensures ReplaceDot(r, ext) == r
  {
    JsonDotNone(r, ext);
  }

  /** A name ending in ".json" ends with none of the four literal extensions. */
  lemma JsonDotNone(s: string, ext: string)
    requires |s| >= 5 && s[|s| - 5..] == ".json" && VideoExt(ext)
    ensures !DotSuffix(s, ext)
  {
    JsonMatchesNone(s, ext);
    if DotSuffix(s, ext) {
      DotSuffixLoose(s, ext);
    }
  }

  /** A name ends with at most one of the four extensions. */
  lemma DotOther(s: string, ext: string, other: string)
    requires VideoExt(ext) && VideoExt(other) && ext != other && LooseSuffix(s, ext)
    ensures !DotSuffix(s, other)
  {
    LooseSuffixLast(s, ext);
    if DotSuffix(s, other) {
      DotSuffixLoose(s, other);
      LooseSuffixLast(s, other);
    }
  }

  /** With the dot escaped, a name that does not end with ".mp4", ".mkv", ".mov" or ".webm"
      is left alone. */
  lemma JsonFileNameUnmatched(src: string)
    requires forall ext :: VideoExt(ext) ==> !DotSuffix(src, ext)
    ensures JsonFileName(src) == src
  {
    assert !DotSuffix(src, "mp4") && !DotSuffix(src, "mkv");
    assert !DotSuffix(src, "mov") && !DotSuffix(src, "webm");
  }

  /** With the dot escaped, "clipmp4" keeps its name. */
  lemma JsonFileNameStrict()
    ensures JsonFileName("clipmp4") == "clipmp4"
  {
    var s := "clipmp4";
    assert s[3] == 'p' && s[2] == 'i';
    assert !DotSuffix(s, "mp4") by { assert s[3..][0] == 'p'; }
    assert !DotSuffix(s, "mkv") by { assert s[3..][0] == 'p'; }
    assert !DotSuffix(s, "mov") by { assert s[3..][0] == 'p'; }
    assert !DotSuffix(s, "webm") by { assert s[2..][0] == 'i'; }
  }
}
