/** Choosing the chunk a page shows at a given moment: `page.tokens.find(t => t.fromMs <= time
    && t.toMs > time)`. The moment is an integer number of milliseconds here; the frame to
    milliseconds conversion is not modelled. */
module ActivePage {
  import opened Captions
  import opened Timing
  import opened CaptionedVideo

  /** The index of the first token whose window `[fromMs, toMs)` contains t, or |tokens|
      when there is none. */
  function FirstActive(tokens: seq<PageToken>, t: int): (k: nat)
    ensures k <= |tokens|
    ensures k < |tokens| ==> Contains(tokens[k], t)
    ensures forall j :: 0 <= j < k ==> !Contains(tokens[j], t)
  {
    if tokens == [] then 0
    else if Contains(tokens[0], t) then 0
    else 1 + FirstActive(tokens[1..], t)
  }

  /** The token a page shows at time t, or None when no window contains t (nothing is shown). */
  function ActiveToken(tokens: seq<PageToken>, t: int): (r: Option<PageToken>)
    ensures r.Some? ==> Contains(r.value, t)
    ensures r.None? <==> forall j :: 0 <= j < |tokens| ==> !Contains(tokens[j], t)
  {
    var k := FirstActive(tokens, t);
    if k < |tokens| then Some(tokens[k]) else None
  }

  /** The token shown is the first one, in list order, whose window contains t. */
  lemma ActiveTokenFirst(tokens: seq<PageToken>, t: int, k: nat)
    requires k < |tokens| && Contains(tokens[k], t)
    requires forall j :: 0 <= j < k ==> !Contains(tokens[j], t)
    ensures ActiveToken(tokens, t) == Some(tokens[k])
  {
  }

  /** No two windows of the list share a moment. */
  predicate Disjoint(tokens: seq<PageToken>) {
    forall i, j :: 0 <= i < j < |tokens| ==>
      tokens[i].toMs <= tokens[j].fromMs || tokens[j].toMs <= tokens[i].fromMs
  }

  /** When windows do not overlap, any token containing t is the one shown. */
  lemma ActiveTokenUnique(tokens: seq<PageToken>, t: int, k: nat)
    requires Disjoint(tokens) && k < |tokens| && Contains(tokens[k], t)
    ensures ActiveToken(tokens, t) == Some(tokens[k])
  {
    forall j | 0 <= j < k ensures !Contains(tokens[j], t) {
      assert tokens[j].toMs <= tokens[k].fromMs || tokens[k].toMs <= tokens[j].fromMs;
    }
    ActiveTokenFirst(tokens, t, k);
  }

  /** Ordered, contiguous windows do not overlap. */
  lemma OrderedTilesDisjoint(tokens: seq<PageToken>, startMs: int, endMs: int)
    requires Tiles(PageSpans(tokens), startMs, endMs) && Ordered(PageSpans(tokens))
    ensures Disjoint(tokens)
  {
    var spans := PageSpans(tokens);
    forall i, j | 0 <= i < j < |tokens|
      ensures tokens[i].toMs <= tokens[j].fromMs
    {
      assert spans[i].hi == spans[i + 1].lo;
      assert spans[i + 1].lo <= spans[j].lo;
    }
  }

  /** Windows are half open: at the moment token k ends it is no longer shown, and when the
      windows are ordered and contiguous the next token, if it is not empty, is shown instead. */
  lemma ActiveTokenBoundary(tokens: seq<PageToken>, startMs: int, endMs: int, k: nat)
    requires Tiles(PageSpans(tokens), startMs, endMs) && Ordered(PageSpans(tokens))
    requires k + 1 < |tokens| && tokens[k + 1].fromMs < tokens[k + 1].toMs
    ensures !Contains(tokens[k], tokens[k].toMs)
    ensures ActiveToken(tokens, tokens[k].toMs) == Some(tokens[k + 1])
  {
    var spans := PageSpans(tokens);
    assert spans[k].hi == spans[k + 1].lo;
    OrderedTilesDisjoint(tokens, startMs, endMs);
    ActiveTokenUnique(tokens, tokens[k].toMs, k + 1);
  }

  /** A page made by the smart grouper shows a chunk at every moment of its caption, and it is
      the only chunk whose window contains that moment. */
  lemma SmartPageCovered(c: Caption, t: int)
    requires c.startMs <= t < c.endMs
    ensures ActiveToken(SmartPage(c).tokens, t).Some?
    ensures forall j :: 0 <= j < |SmartPage(c).tokens| && Contains(SmartPage(c).tokens[j], t) ==>
      ActiveToken(SmartPage(c).tokens, t) == Some(SmartPage(c).tokens[j])
  {
    var tokens := SmartPage(c).tokens;
    var spans := PageSpans(tokens);
    SmartPageShape(c);
    TilesCover(spans, c.startMs, c.endMs, t);
    var k :| 0 <= k < |spans| && spans[k].lo <= t < spans[k].hi;
    assert Contains(tokens[k], t);
    OrderedTilesDisjoint(tokens, c.startMs, c.endMs);
    forall j | 0 <= j < |tokens| && Contains(tokens[j], t)
      ensures ActiveToken(tokens, t) == Some(tokens[j])
    {
      ActiveTokenUnique(tokens, t, j);
    }
  }

  /** Outside its caption's span a smart page shows nothing. */
  lemma SmartPageOutside(c: Caption, t: int)
    requires c.startMs <= c.endMs && (t < c.startMs || t >= c.endMs)
    ensures ActiveToken(SmartPage(c).tokens, t) == None
  {
    var tokens := SmartPage(c).tokens;
    var spans := PageSpans(tokens);
    SmartPageShape(c);
    forall j | 0 <= j < |tokens| ensures !Contains(tokens[j], t) {
      assert spans[0].lo <= spans[j].lo;
      SpanBelowEnd(spans, c.startMs, c.endMs, j);
    }
  }

  /** In an ordered tiling no window ends after the tiling does. */
  lemma {:induction false} SpanBelowEnd(spans: seq<Span>, startMs: int, endMs: int, j: nat)
    requires Tiles(spans, startMs, endMs) && Ordered(spans) && j < |spans|
    ensures spans[j].hi <= endMs
    decreases |spans| - j
  {
    if j < |spans| - 1 {
      assert spans[j].hi == spans[j + 1].lo;
      SpanBelowEnd(spans, startMs, endMs, j + 1);
    }
  }
}
