/** The offline converter (`convertSRTtoJSON`): SRT text in, a list of captions with
    pre-timed chunks of one or two words out. Reading and writing files, JSON
    serialisation and logging are not modelled; the converter is a function from the
    file's content to the caption list it would write. */
module ConvertSrt {
  import opened Text
  import opened Captions
  import opened Timing
  import opened SrtTime

  /** One timed chunk as the converter writes it. A time is None where JavaScript computes
      not-a-number: a timestamp that does not decode, and everything computed from it. */
  datatype SrtToken = SrtToken(text: string, startMs: Option<int>, endMs: Option<int>)

  /** One caption of the converter's output. */
  datatype SrtCaption = SrtCaption(startMs: Option<int>, endMs: Option<int>, text: string,
                                   confidence: int, tokens: seq<SrtToken>)

  /** Every token time is a number. */
  predicate TimedTokens(tokens: seq<SrtToken>) {
    forall i :: 0 <= i < |tokens| ==> tokens[i].startMs.Some? && tokens[i].endMs.Some?
  }

  /** The caption's times and all its token times are numbers. */
  predicate Timed(c: SrtCaption) {
    c.startMs.Some? && c.endMs.Some? && TimedTokens(c.tokens)
  }

  // ---------------------------------------------------------------------------
  // Line endings

  /** `s.replace(/\r\n/g, '\n')` */
  function ReplaceCrLf(s: string): (r: string)
    ensures |r| <= |s|
    decreases |s|
  {
    if s == [] then []
    else if |s| >= 2 && s[0] == '\r' && s[1] == '\n' then "\n" + ReplaceCrLf(s[2..])
    else [s[0]] + ReplaceCrLf(s[1..])
  }

  /** Each "\r\n" becomes exactly one '\n' wherever it stands, and the text on either side
      is replaced on its own. */
  lemma {:induction false} ReplaceCrLfSplit(a: string, b: string)
    ensures ReplaceCrLf(a + "\r\n" + b) == ReplaceCrLf(a) + "\n" + ReplaceCrLf(b)
    decreases |a|
  {
    var s := a + "\r\n" + b;
    if a == [] {
      assert s == "\r\n" + b && s[2..] == b;
    } else if |a| >= 2 && a[0] == '\r' && a[1] == '\n' {
      assert s[0] == '\r' && s[1] == '\n';
      assert s[2..] == a[2..] + "\r\n" + b;
      ReplaceCrLfSplit(a[2..], b);
      ConcatAssoc("\n", ReplaceCrLf(a[2..]) + "\n", ReplaceCrLf(b));
      ConcatAssoc("\n", ReplaceCrLf(a[2..]), "\n");
    } else {
      assert s[0] == a[0] && s[1] == (if |a| >= 2 then a[1] else '\r');
      assert s[1..] == a[1..] + "\r\n" + b;
      ReplaceCrLfSplit(a[1..], b);
      ConcatAssoc([a[0]], ReplaceCrLf(a[1..]) + "\n", ReplaceCrLf(b));
      ConcatAssoc([a[0]], ReplaceCrLf(a[1..]), "\n");
    }
  }

  /** Text without a '\r' is left as it is. */
  lemma {:induction false} ReplaceCrLfPlain(s: string)
    requires '\r' !in s
    ensures ReplaceCrLf(s) == s
    decreases |s|
  {
    if s != [] {
      ReplaceCrLfPlain(s[1..]);
    }
  }

  /** `s.replace(/\r/g, '\n')` */
  function ReplaceCr(s: string): (r: string)
    ensures |r| == |s|
    ensures forall i :: 0 <= i < |s| ==> r[i] == (if s[i] == '\r' then '\n' else s[i])
  {
    if s == [] then [] else [if s[0] == '\r' then '\n' else s[0]] + ReplaceCr(s[1..])
  }

  /** The two replacements in a row: every line ending becomes a single line feed. */
  function NormalizeLineEndings(s: string): (r: string)
    ensures '\r' !in r
  {
    ReplaceCr(ReplaceCrLf(s))
  }

  /** A one-pass reading of line-ending normalisation: "\r\n" and a lone '\r' each become
      one '\n', every other character is kept. */
  function LineFeeds(s: string): string
    decreases |s|
  {
    if s == [] then []
    else if s[0] == '\r' then "\n" + LineFeeds(if |s| >= 2 && s[1] == '\n' then s[2..] else s[1..])
    else [s[0]] + LineFeeds(s[1..])
  }

  /** The source's two chained replacements agree with the one-pass reading. */
  lemma {:induction false} NormalizeIsLineFeeds(s: string)
    ensures NormalizeLineEndings(s) == LineFeeds(s)
    decreases |s|
  {
    if s == [] {
    } else if |s| >= 2 && s[0] == '\r' && s[1] == '\n' {
      NormalizeIsLineFeeds(s[2..]);
      var t := ReplaceCrLf(s[2..]);
      assert ReplaceCrLf(s) == "\n" + t;
      assert ReplaceCr("\n" + t) == "\n" + ReplaceCr(t) by { assert ("\n" + t)[1..] == t; }
    } else {
      NormalizeIsLineFeeds(s[1..]);
      var t := ReplaceCrLf(s[1..]);
      assert ReplaceCrLf(s) == [s[0]] + t;
      assert ReplaceCr([s[0]] + t) == [if s[0] == '\r' then '\n' else s[0]] + ReplaceCr(t) by {
        assert ([s[0]] + t)[1..] == t;
      }
    }
  }

  /** Content that already uses line feeds only is left as it is. */
  lemma {:induction false} NormalizeUnchanged(s: string)
    requires '\r' !in s
    ensures NormalizeLineEndings(s) == s
    decreases |s|
  {
    NormalizeIsLineFeeds(s);
    LineFeedsUnchanged(s);
  }

  lemma {:induction false} LineFeedsUnchanged(s: string)
    requires '\r' !in s
    ensures LineFeeds(s) == s
    decreases |s|
  {
    if s != [] {
      LineFeedsUnchanged(s[1..]);
    }
  }

  /** The one-pass reading works piece by piece when the first piece does not end
      inside a line ending (that is, with a '\r'). */
  lemma {:induction false} LineFeedsAppend(a: string, c: string)
    requires a == [] || a[|a| - 1] != '\r'
    ensures LineFeeds(a + c) == LineFeeds(a) + LineFeeds(c)
    decreases |a|
  {
    if a == [] {
      assert a + c == c;
    } else {
      assert a[0] == '\r' ==> |a| >= 2;
      var d := if a[0] == '\r' && a[1] == '\n' then 2 else 1;
      var head := if a[0] == '\r' then "\n" else [a[0]];
      LineFeedsAppendStep(a, c, d, head);
      assert a[d..] == [] || a[d..][|a[d..]| - 1] == a[|a| - 1];
      LineFeedsAppend(a[d..], c);
      var x, y := LineFeeds(a[d..]), LineFeeds(c);
      assert LineFeeds(a + c) == head + (x + y);
      ConcatAssoc(head, x, y);
    }
  }

  /** The first step of the one-pass reading is the same on a and on a + c. */
  lemma LineFeedsAppendStep(a: string, c: string, d: nat, head: string)
    requires a != [] && (a[0] == '\r' ==> |a| >= 2)
    requires d == (if a[0] == '\r' && a[1] == '\n' then 2 else 1)
    requires head == (if a[0] == '\r' then "\n" else [a[0]])
    ensures d <= |a|
    ensures LineFeeds(a) == head + LineFeeds(a[d..])
    ensures LineFeeds(a + c) == head + LineFeeds(a[d..] + c)
  {
    LineFeedsStep(a, d, head);
    assert (a + c)[0] == a[0] && (a[0] == '\r' ==> (a + c)[1] == a[1]);
    LineFeedsStep(a + c, d, head);
    DropPrefix(a, c, d);
  }

  /** The one-pass reading also works piece by piece when the second piece does not start
      with a '\n' that could complete a "\r\n". */
  lemma {:induction false} LineFeedsAppendNoLf(a: string, c: string)
    requires c == [] || c[0] != '\n'
    ensures LineFeeds(a + c) == LineFeeds(a) + LineFeeds(c)
    decreases |a|
  {
    if a == [] {
      assert a + c == c;
    } else if a == "\r" {
      assert (a + c)[1..] == c;
      assert LineFeeds(a) == "\n" + LineFeeds([]);
    } else {
      assert a[0] == '\r' ==> |a| >= 2;
      var d := if a[0] == '\r' && a[1] == '\n' then 2 else 1;
      var head := if a[0] == '\r' then "\n" else [a[0]];
      LineFeedsAppendStep(a, c, d, head);
      LineFeedsAppendNoLf(a[d..], c);
      ConcatAssoc(head, LineFeeds(a[d..]), LineFeeds(c));
    }
  }

  /** Each "\r\n" becomes exactly one '\n', wherever it stands. */
  lemma LineFeedsCrLf(a: string, b: string)
    ensures LineFeeds(a + "\r\n" + b) == LineFeeds(a) + "\n" + LineFeeds(b)
  {
    LineFeedsAppendNoLf(a, "\r\n" + b);
    assert a + "\r\n" + b == a + ("\r\n" + b);
    assert ("\r\n" + b)[2..] == b;
  }

  /** One step of the one-pass reading: the first character, or a "\r\n" pair, gives head. */
  lemma LineFeedsStep(s: string, d: nat, head: string)
    requires s != [] && (s[0] == '\r' ==> |s| >= 2)
    requires d == (if s[0] == '\r' && s[1] == '\n' then 2 else 1)
    requires head == (if s[0] == '\r' then "\n" else [s[0]])
    ensures d <= |s| && LineFeeds(s) == head + LineFeeds(s[d..])
  {
  }

  // ---------------------------------------------------------------------------
  // Blocks

  /** s without its leading line feeds. */
  function DropLineFeeds(s: string): (r: string)
    ensures |r| <= |s| && r == s[|s| - |r|..]
    ensures r == [] || r[0] != '\n'
    decreases |s|
  {
    if s != [] && s[0] == '\n' then DropLineFeeds(s[1..]) else s
  }

  /** `s.split(/\n\n+/)`: the pieces between runs of two or more line feeds. */
  function SplitBlocks(s: string): (blocks: seq<string>)
    ensures |blocks| >= 1
    decreases |s|
  {
    var k := IndexOf(s, "\n\n");
    if k == |s| then [s]
    else
      assert s[k] == '\n' by { assert OccursAt(s, "\n\n", k); assert s[k..k + 2][0] == s[k]; }
      [s[..k]] + SplitBlocks(DropLineFeeds(s[k..]))
  }

  /** A well-formed block: non-empty, no blank line inside, no line feed at either end. */
  predicate IsBlock(b: string) {
    && b != []
    && b[0] != '\n' && b[|b| - 1] != '\n'
    && forall i :: 0 <= i < |b| - 1 ==> !(b[i] == '\n' && b[i + 1] == '\n')
  }

  /** The first blank-line separator after a well-formed block is right after it. */
  lemma BlockSeparator(b: string, rest: string)
    requires IsBlock(b)
    ensures IndexOf(b + "\n\n" + rest, "\n\n") == |b|
  {
    var s := b + "\n\n" + rest;
    assert s[|b|..|b| + 2] == "\n\n";
    assert OccursAt(s, "\n\n", |b|);
    forall j | 0 <= j < |b|
      ensures !OccursAt(s, "\n\n", j)
    {
      assert s[j] == b[j];
      if j + 2 <= |s| {
        assert s[j..j + 2][0] == s[j] && s[j..j + 2][1] == s[j + 1];
      }
    }
  }

  /** A well-formed block holds no blank-line separator. */
  lemma BlockAlone(b: string)
    requires IsBlock(b)
    ensures IndexOf(b, "\n\n") == |b|
  {
    forall j | 0 <= j < |b|
      ensures !OccursAt(b, "\n\n", j)
    {
      if j + 2 <= |b| {
        assert b[j..j + 2][0] == b[j] && b[j..j + 2][1] == b[j + 1];
      }
    }
  }

  /** Leading line feeds are dropped, and dropping stops at the first other character. */
  lemma DropTwoLineFeeds(rest: string)
    requires rest != [] && rest[0] != '\n'
    ensures DropLineFeeds("\n\n" + rest) == rest
  {
    assert DropLineFeeds(rest) == rest;
    assert ("\n" + rest)[0] == '\n' && ("\n" + rest)[1..] == rest;
    assert DropLineFeeds("\n" + rest) == rest;
    assert ("\n\n" + rest)[0] == '\n' && ("\n\n" + rest)[1..] == "\n" + rest;
  }

  /** A block whose first separator is the blank line after it is split off as the first block. */
  lemma SplitBlocksStep(b: string, rest: string)
    requires IndexOf(b + "\n\n" + rest, "\n\n") == |b|
    requires rest != [] && rest[0] != '\n'
    ensures SplitBlocks(b + "\n\n" + rest) == [b] + SplitBlocks(rest)
  {
    var s := b + "\n\n" + rest;
    SplitBlocksUnfold(s, |b|);
    assert s[..|b|] == b;
    assert DropLineFeeds(s[|b|..]) == rest by {
      assert s[|b|..] == "\n\n" + rest;
      DropTwoLineFeeds(rest);
    }
  }

  /** A whole run of two or more line feeds after a well-formed block separates it from the
      rest, as the greedy `\n\n+` consumes the run; an empty rest gives an empty last block. */
  lemma SplitBlocksRun(b: string, r: string, rest: string)
    requires IsBlock(b) && |r| >= 2 && (forall i :: 0 <= i < |r| ==> r[i] == '\n')
    requires rest == [] || rest[0] != '\n'
    ensures SplitBlocks(b + r + rest) == [b] + SplitBlocks(rest)
  {
    var s := b + r + rest;
    RunRegroup(b, r, rest);
    BlockSeparator(b, r[2..] + rest);
    SplitBlocksUnfold(s, |b|);
    DropPrefix(b, r + rest, |b|);
    ConcatAssoc(b, r, rest);
    assert s[..|b|] == b;
    DropRun(r, rest);
  }

  /** A run of at least two line feeds starts with a blank-line separator. */
  lemma RunRegroup(b: string, r: string, rest: string)
    requires |r| >= 2 && r[0] == '\n' && r[1] == '\n'
    ensures b + r + rest == b + "\n\n" + (r[2..] + rest)
  {
    assert r == "\n\n" + r[2..];
  }

  /** A run of line feeds is dropped whole, up to the first other character. */
  lemma {:induction false} DropRun(r: string, rest: string)
    requires forall i :: 0 <= i < |r| ==> r[i] == '\n'
    requires rest == [] || rest[0] != '\n'
    ensures DropLineFeeds(r + rest) == rest
    decreases |r|
  {
    if r == [] {
      assert r + rest == rest;
    } else {
      assert (r + rest)[0] == '\n';
      assert (r + rest)[1..] == r[1..] + rest;
      DropRun(r[1..], rest);
    }
  }

  /** One step of the block split, at the first separator k. */
  lemma SplitBlocksUnfold(s: string, k: nat)
    requires k == IndexOf(s, "\n\n") && k < |s|
    ensures SplitBlocks(s) == [s[..k]] + SplitBlocks(DropLineFeeds(s[k..]))
  {
  }

  /** Splitting on blank lines undoes joining well-formed blocks with one blank line. */
  lemma {:induction false} SplitBlocksJoin(blocks: seq<string>)
    requires |blocks| > 0
    requires forall i :: 0 <= i < |blocks| ==> IsBlock(blocks[i])
    ensures SplitBlocks(Join(blocks, "\n\n")) == blocks
    decreases |blocks|
  {
    if |blocks| == 1 {
      BlockAlone(blocks[0]);
    } else {
      var rest := Join(blocks[1..], "\n\n");
      assert Join(blocks, "\n\n") == blocks[0] + "\n\n" + rest;
      assert IsBlock(blocks[1]);
      JoinHead(blocks[1..], "\n\n");
      BlockSeparator(blocks[0], rest);
      SplitBlocksStep(blocks[0], rest);
      SplitBlocksJoin(blocks[1..]);
    }
  }

  // ---------------------------------------------------------------------------
  // Markup

  /** A tag `<...>` with at least one character inside starts at position i. */
  predicate TagAt(s: string, i: nat) {
    i + 1 < |s| && s[i] == '<' && s[i + 1] != '>' && '>' in s[i + 2..]
  }

  /** s holds no tag. */
  predicate NoTags(s: string) {
    forall i :: 0 <= i < |s| ==> !TagAt(s, i)
  }

  /** `s.replace(/<[^>]+>/g, '')`: scanning left to right, a '<' whose first following '>'
      is not right next to it opens a tag, and the tag up to that '>' is removed. */
  function StripTags(s: string): (r: string)
    ensures |r| <= |s|
    ensures forall i :: 0 <= i < |r| ==> r[i] in s
    decreases |s|
  {
    if s == [] then []
    else if s[0] == '<' && 0 < FindChar(s[1..], '>') < |s| - 1 then
      var j := FindChar(s[1..], '>');
      var r := StripTags(s[j + 2..]);
      assert forall i :: 0 <= i < |r| ==> r[i] in s by {
        forall i | 0 <= i < |r| ensures r[i] in s {
          var k :| 0 <= k < |s[j + 2..]| && s[j + 2..][k] == r[i];
          assert s[j + 2 + k] == r[i];
        }
      }
      r
    else
      var r := [s[0]] + StripTags(s[1..]);
      assert forall i :: 0 <= i < |r| ==> r[i] in s by {
        forall i | 0 <= i < |r| ensures r[i] in s {
          if i > 0 {
            var k :| 0 <= k < |s[1..]| && s[1..][k] == r[i];
            assert s[1 + k] == r[i];
          }
        }
      }
      r
  }

  /** Putting a character in front moves every tag one place along. */
  lemma TagAtShift(c: char, r: string, i: nat)
    requires 1 <= i
    ensures TagAt([c] + r, i) == TagAt(r, i - 1)
  {
    if i + 1 < |[c] + r| {
      assert ([c] + r)[i + 2..] == r[i + 1..];
    }
  }

  /** Stripping removes every tag. */
  lemma {:induction false} StripTagsNoTags(s: string)
    ensures NoTags(StripTags(s))
    decreases |s|
  {
    if s == [] {
    } else if s[0] == '<' && 0 < FindChar(s[1..], '>') < |s| - 1 {
      StripTagsNoTags(s[FindChar(s[1..], '>') + 2..]);
    } else {
      var r' := StripTags(s[1..]);
      var r := [s[0]] + r';
      StripTagsNoTags(s[1..]);
      forall i | 0 <= i < |r| ensures !TagAt(r, i) {
        if i > 0 {
          TagAtShift(s[0], r', i);
        } else if s[0] == '<' && |s| > 1 {
          if s[1] == '>' {
            assert r'[0] == '>';
          } else {
            assert '>' !in s[1..];
            assert '>' !in r';
            assert r[2..] == r'[1..];
          }
        }
      }
    }
  }

  /** Text without tags is left as it is, so stripping twice is stripping once. */
  lemma {:induction false} StripTagsFixed(s: string)
    requires NoTags(s)
    ensures StripTags(s) == s
    decreases |s|
  {
    if s != [] {
      assert !TagAt(s, 0);
      if s[0] == '<' && |s| > 1 && s[1] != '>' {
        assert '>' !in s[2..];
        assert '>' !in s[1..] by { assert s[1..] == [s[1]] + s[2..]; }
      }
      forall i | 0 <= i < |s| - 1 ensures !TagAt(s[1..], i) {
        TagAtShift(s[0], s[1..], i + 1);
        assert [s[0]] + s[1..] == s;
      }
      StripTagsFixed(s[1..]);
    }
  }

  /** Stripping is idempotent. */
  lemma StripTagsIdempotent(s: string)
    ensures StripTags(StripTags(s)) == StripTags(s)
  {
    StripTagsNoTags(s);
    StripTagsFixed(StripTags(s));
  }

  /** Text without a '<' is left as it is. */
  lemma StripTagsPlain(s: string)
    requires '<' !in s
    ensures StripTags(s) == s
  {
    StripTagsFixed(s);
  }

  /** A tag is removed whole and the text before it is kept: with StripTagsPlain, stripping
      removes exactly the tags. */
  lemma {:induction false} StripTagsAround(a: string, t: string, b: string)
    requires '<' !in a && t != [] && '>' !in t
    ensures StripTags(a + "<" + t + ">" + b) == a + StripTags(b)
    decreases |a|
  {
    if a == [] {
      assert a + "<" + t + ">" + b == "<" + t + ">" + b;
      StripTagsOpen(t, b);
    } else {
      StripTagsKeep(a, "<" + t + ">" + b);
      assert a + "<" + t + ">" + b == a + ("<" + t + ">" + b);
      assert a[1..] + ("<" + t + ">" + b) == a[1..] + "<" + t + ">" + b;
      StripTagsAround(a[1..], t, b);
      ConcatAssoc([a[0]], a[1..], StripTags(b));
    }
  }

  /** A tag at the front is removed whole. */
  lemma StripTagsOpen(t: string, b: string)
    requires t != [] && '>' !in t
    ensures StripTags("<" + t + ">" + b) == StripTags(b)
  {
    var s := "<" + t + ">" + b;
    var rest := t + ">" + b;
    assert s == "<" + rest && s[1..] == rest;
    assert rest[|t|] == '>';
    assert forall j :: 0 <= j < |t| ==> rest[j] == t[j];
    assert FindChar(rest, '>') == |t|;
    assert s[|t| + 2..] == b;
  }

  /** A first character other than '<' is kept. */
  lemma StripTagsKeep(a: string, c: string)
    requires a != [] && a[0] != '<'
    ensures StripTags(a + c) == [a[0]] + StripTags(a[1..] + c)
  {
    assert (a + c)[0] == a[0];
    assert (a + c)[1..] == a[1..] + c;
  }

  // ---------------------------------------------------------------------------
  // Fixed pairing

  function Min(a: int, b: int): int {
    if a <= b then a else b
  }

  /** Words taken two at a time, each pair (and a single trailing word) joined by a space. */
  function FixedPairs(words: seq<string>): seq<string>
    decreases |words|
  {
    if words == [] then []
    else
      var m := Min(2, |words|);
      [JoinSp(words[..m])] + FixedPairs(words[m..])
  }

  /** `ceil(w / 2)` chunks; every chunk but a trailing single word holds exactly two words. */
  lemma FixedPairsShape(words: seq<string>)
    ensures |FixedPairs(words)| == (|words| + 1) / 2
    ensures forall k :: 0 <= k < |words| / 2 ==>
      FixedPairs(words)[k] == words[2 * k] + " " + words[2 * k + 1]
    ensures |words| % 2 == 1 ==> FixedPairs(words)[|words| / 2] == words[|words| - 1]
  {
    FixedPairsCount(words);
    forall k | 0 <= k < |words| / 2
      ensures FixedPairs(words)[k] == words[2 * k] + " " + words[2 * k + 1]
    {
      FixedPairsAt(words, k);
    }
    if |words| % 2 == 1 {
      FixedPairsLast(words);
    }
  }

  /** Two leading words form the first chunk. */
  lemma FixedPairsStep(words: seq<string>)
    requires |words| >= 2
    ensures FixedPairs(words) == [words[0] + " " + words[1]] + FixedPairs(words[2..])
  {
    FixedPairsUnfold(words);
    JoinFirstTwo(words);
  }

  /** The first chunk is the first two words joined. */
  lemma FixedPairsUnfold(words: seq<string>)
    requires |words| >= 2
    ensures FixedPairs(words) == [JoinSp(words[..2])] + FixedPairs(words[2..])
  {
    assert Min(2, |words|) == 2;
  }

  /** The first two words joined with a space. */
  lemma JoinFirstTwo(words: seq<string>)
    requires |words| >= 2
    ensures JoinSp(words[..2]) == words[0] + " " + words[1]
  {
    assert words[..2] == [words[0], words[1]];
    JoinPair(words[0], words[1], " ");
  }

  /** There are `ceil(w / 2)` chunks. */
  lemma {:induction false} FixedPairsCount(words: seq<string>)
    ensures |FixedPairs(words)| == (|words| + 1) / 2
    decreases |words|
  {
    if |words| >= 2 {
      FixedPairsStep(words);
      FixedPairsCount(words[2..]);
    } else if |words| == 1 {
      assert Min(2, |words|) == 1 && words[1..] == [];
    }
  }

  /** Chunk k holds words 2k and 2k + 1. */
  lemma {:induction false} FixedPairsAt(words: seq<string>, k: nat)
    requires k < |words| / 2
    ensures |FixedPairs(words)| > k
    ensures FixedPairs(words)[k] == words[2 * k] + " " + words[2 * k + 1]
    decreases k
  {
    FixedPairsStep(words);
    if k > 0 {
      var rest := words[2..];
      FixedPairsAt(rest, k - 1);
      assert rest[2 * (k - 1)] == words[2 * k] && rest[2 * (k - 1) + 1] == words[2 * k + 1];
    }
  }

  /** An odd word count ends with the last word alone. */
  lemma {:induction false} FixedPairsLast(words: seq<string>)
    requires |words| % 2 == 1
    ensures |FixedPairs(words)| > |words| / 2
    ensures FixedPairs(words)[|words| / 2] == words[|words| - 1]
    decreases |words|
  {
    if |words| == 1 {
      assert Min(2, |words|) == 1 && words[..1] == words && words[1..] == [];
    } else {
      FixedPairsStep(words);
      FixedPairsLast(words[2..]);
    }
  }

  /** Joining the chunks with spaces gives the words joined with spaces: nothing is
      dropped, reordered or duplicated. */
  lemma {:induction false} FixedPairsJoin(words: seq<string>)
    ensures JoinSp(FixedPairs(words)) == JoinSp(words)
    decreases |words|
  {
    if words != [] {
      var m := Min(2, |words|);
      var rest := words[m..];
      if rest == [] {
        assert words[..m] == words;
      } else {
        FixedPairsJoin(rest);
        assert FixedPairs(words) == [JoinSp(words[..m])] + FixedPairs(rest);
        assert words == words[..m] + rest;
        JoinAppend(words[..m], rest, " ");
        assert FixedPairs(rest) != [];
      }
    }
  }

  /** "a b c d e" gives the chunks "a b", "c d" and "e". */
  lemma FixedPairsExample()
    ensures FixedPairs(CueWords("a b c d e")) == ["a b", "c d", "e"]
  {
    var words := ["a", "b", "c", "d", "e"];
    ExampleText();
    SplitWsJoin(words);
    NonEmptyKeeps(words);
    ExamplePairs();
  }

  /** The five one-letter words pair up as "a b", "c d", "e". */
  lemma ExamplePairs()
    ensures FixedPairs(["a", "b", "c", "d", "e"]) == ["a b", "c d", "e"]
  {
    var w := ["a", "b", "c", "d", "e"];
    var v, u := ["c", "d", "e"], ["e"];
    assert FixedPairs(u) == ["e"] by { assert u[..1] == u && u[1..] == []; }
    assert FixedPairs(v) == ["c d", "e"] by {
      assert v[..2] == ["c", "d"] && v[2..] == u;
      JoinPair("c", "d", " ");
      assert "c" + " " + "d" == "c d";
    }
    assert w[..2] == ["a", "b"] && w[2..] == v;
    JoinPair("a", "b", " ");
    assert "a" + " " + "b" == "a b";
  }

  /** The words a to e, each a single letter, joined with single spaces. */
  lemma ExampleText()
    ensures Words(["a", "b", "c", "d", "e"]) && JoinSp(["a", "b", "c", "d", "e"]) == "a b c d e"
  {
    ExampleLetters();
    ExampleTextTail();
    JoinCons("a", ["b", "c", "d", "e"], " ");
    assert "a" + " " + "b c d e" == "a b c d e";
  }

  /** The words a to e are non-empty and hold no whitespace. */
  lemma ExampleLetters()
    ensures Words(["a", "b", "c", "d", "e"])
  {
    var words := ["a", "b", "c", "d", "e"];
    forall i | 0 <= i < |words| ensures words[i] != [] && NoWs(words[i]) {
      assert |words[i]| == 1 && 'a' <= words[i][0] <= 'e';
    }
  }

  /** The words b to e joined with single spaces. */
  lemma ExampleTextTail()
    ensures JoinSp(["b", "c", "d", "e"]) == "b c d e"
  {
    JoinPair("d", "e", " ");
    assert "d" + " " + "e" == "d e";
    JoinCons("c", ["d", "e"], " ");
    assert "c" + " " + "d e" == "c d e";
    JoinCons("b", ["c", "d", "e"], " ");
    assert "b" + " " + "c d e" == "b c d e";
  }

  /** The `for (let i = 0; i < words.length; i += 2)` loop that pushes
      `words.slice(i, i + 2).join(' ')`. */
  method PairChunks(words: seq<string>) returns (chunks: seq<string>)
    ensures chunks == FixedPairs(words)
  {
    chunks := [];
    var i := 0;
    while i < |words|
      invariant 0 <= i <= |words| + 1
      invariant chunks + FixedPairs(words[Min(i, |words|)..]) == FixedPairs(words)
    {
      var chunk := JoinSp(words[i..Min(i + 2, |words|)]);
      PairChunksStep(words, i);
      ConcatAssoc(chunks, [chunk], FixedPairs(words[Min(i + 2, |words|)..]));
      chunks := chunks + [chunk];
      i := i + 2;
    }
    assert words[Min(i, |words|)..] == [];
  }

  /** The chunk at cursor i is words i and i + 1 (or word i alone at the end). */
  lemma PairChunksStep(words: seq<string>, i: nat)
    requires i < |words|
    ensures FixedPairs(words[i..])
      == [JoinSp(words[i..Min(i + 2, |words|)])] + FixedPairs(words[Min(i + 2, |words|)..])
  {
    var m := Min(2, |words| - i);
    assert words[i..][..m] == words[i..Min(i + 2, |words|)];
    assert words[i..][m..] == words[Min(i + 2, |words|)..];
  }

  // ---------------------------------------------------------------------------
  // Timing

  /** The windows of a token list whose times are all numbers. */
  function TokenSpans(tokens: seq<SrtToken>): (spans: seq<Span>)
    requires TimedTokens(tokens)
    ensures |spans| == |tokens|
  {
    seq(|tokens|, i requires 0 <= i < |tokens| => Span(tokens[i].startMs.value, tokens[i].endMs.value))
  }

  /** The chunk texts of a token list. */
  function TokenTexts(tokens: seq<SrtToken>): (texts: seq<string>)
    ensures |texts| == |tokens|
  {
    seq(|tokens|, i requires 0 <= i < |tokens| => tokens[i].text)
  }

  /** `chunks.map((chunk, index) => ({ text, startMs: startMs + floor(index * d),
      endMs: startMs + floor((index + 1) * d) }))` with `d = (endMs - startMs) / n`. When
      either caption time is not-a-number, so is d and every token time. */
  function ChunkTokens(chunks: seq<string>, startMs: Option<int>, endMs: Option<int>): seq<SrtToken> {
    if startMs.Some? && endMs.Some? then
      var spans := Spans(startMs.value, endMs.value, |chunks|);
      seq(|chunks|, i requires 0 <= i < |chunks| => SrtToken(chunks[i], Some(spans[i].lo), Some(spans[i].hi)))
    else
      seq(|chunks|, i requires 0 <= i < |chunks| => SrtToken(chunks[i], None, None))
  }

  /** The tokens carry the chunks in order; with numeric caption times they lie in the floor
      windows of the caption, and otherwise every token time is not-a-number. */
  lemma ChunkTokensParts(chunks: seq<string>, startMs: Option<int>, endMs: Option<int>)
    ensures TokenTexts(ChunkTokens(chunks, startMs, endMs)) == chunks
    ensures startMs.Some? && endMs.Some? ==>
      && TimedTokens(ChunkTokens(chunks, startMs, endMs))
      && TokenSpans(ChunkTokens(chunks, startMs, endMs)) == Spans(startMs.value, endMs.value, |chunks|)
    ensures startMs.None? || endMs.None? ==>
      forall i :: 0 <= i < |chunks| ==>
        ChunkTokens(chunks, startMs, endMs)[i].startMs.None? && ChunkTokens(chunks, startMs, endMs)[i].endMs.None?
  {
  }

  // ---------------------------------------------------------------------------
  // Cues

  /** Lines 2 onward joined with single spaces, tags removed. */
  function CueText(lines: seq<string>): string
    requires |lines| >= 2
  {
    StripTags(JoinSp(lines[2..]))
  }

  /** `text.split(/\s+/).filter(w => w.length > 0)` */
  function CueWords(text: string): (ws: seq<string>)
    ensures Words(ws)
  {
    var ws := NonEmpty(SplitWs(text));
    assert forall i :: 0 <= i < |ws| ==> ws[i] in SplitWs(text);
    ws
  }

  /** The words of text joined with single spaces are those words again. */
  lemma CueWordsJoin(ws: seq<string>)
    requires |ws| > 0 && Words(ws)
    ensures CueWords(JoinSp(ws)) == ws
  {
    SplitWsJoin(ws);
    NonEmptyKeeps(ws);
  }

  /** Whitespace has no words. */
  lemma CueWordsBlank(s: string)
    requires WsOnly(s)
    ensures CueWords(s) == []
  {
    SplitWsBlank(s);
    NonEmptyAllEmpty(SplitWs(s));
  }

  /** The start and end pieces of a timing line: `timeLine.split(' --> ')`, with "" for a
      missing end. */
  function TimePieces(timeLine: string): (string, string) {
    var times := SplitOn(timeLine, " --> ");
    (times[0], if |times| >= 2 then times[1] else "")
  }

  /** A timing line gives the text before its first " --> " as the start and the text up to
      the next " --> " (or the line's end) as the end, whatever else either holds, such as
      spaces or position coordinates after the end time. */
  lemma TimePiecesSplit(start: string, end: string)
    requires IndexOf(start + " --> " + end, " --> ") == |start|
    ensures IndexOf(end, " --> ") <= |end|
    ensures TimePieces(start + " --> " + end) == (start, end[..IndexOf(end, " --> ")])
  {
    var s := start + " --> " + end;
    SplitOnUnfold(s, " --> ");
    assert s[..|start|] == start;
    assert s[|start| + 5..] == end;
    SplitOnHead(end, " --> ");
  }

  /** A line without " --> " is all start and has no end. */
  lemma TimePiecesNoArrow(line: string)
    requires IndexOf(line, " --> ") == |line|
    ensures TimePieces(line) == (line, "")
  {
  }

  /** The caption of one block, or None where the source returns null: fewer than three
      lines, or a second line that does not give a non-empty start and end around " --> ".
      A timestamp that does not decode does not drop the block: its time is not-a-number. */
  function ParseCue(block: string): Option<SrtCaption> {
    var lines := SplitOn(block, "\n");
    if |lines| < 3 then None
    else
      var (startTime, endTime) := TimePieces(lines[1]);
      if startTime == "" || endTime == "" then None
      else
        var startMs, endMs := ParseSrtTime(startTime), ParseSrtTime(endTime);
        var text := CueText(lines);
        var chunks := FixedPairs(CueWords(text));
        Some(SrtCaption(startMs, endMs, text, 1, ChunkTokens(chunks, startMs, endMs)))
  }

  /** The present values of a list of options, in order (`filter(Boolean)`). */
  function Somes<T>(xs: seq<Option<T>>): (ys: seq<T>)
    ensures |ys| <= |xs|
  {
    if xs == [] then []
    else if xs[0].Some? then [xs[0].value] + Somes(xs[1..])
    else Somes(xs[1..])
  }

  /** `xs.map(f)` */
  function Map<A, B>(f: A -> B, xs: seq<A>): (ys: seq<B>)
    ensures |ys| == |xs| && forall i :: 0 <= i < |xs| ==> ys[i] == f(xs[i])
  {
    if xs == [] then [] else [f(xs[0])] + Map(f, xs[1..])
  }

  /** `blocks.map(parse).filter(Boolean)` */
  function Collect(blocks: seq<string>): seq<SrtCaption> {
    Somes(Map(ParseCue, blocks))
  }

  /** `convertSRTtoJSON` from the file's content to the captions it writes. */
  function ConvertSrtToJson(content: string): seq<SrtCaption> {
    Collect(SplitBlocks(Trim(NormalizeLineEndings(content))))
  }

  // ---------------------------------------------------------------------------
  // Properties of cue parsing

  /** A document made of well-formed blocks separated by one blank line, with line feeds
      only and no whitespace at either end, is read block by block: its captions are those of
      its blocks, in order. */
  lemma ConvertWellFormed(blocks: seq<string>)
    requires |blocks| > 0 && forall i :: 0 <= i < |blocks| ==> IsBlock(blocks[i])
    requires var doc := Join(blocks, "\n\n");
      '\r' !in doc && doc != [] && !IsWs(doc[0]) && !IsWs(doc[|doc| - 1])
    ensures ConvertSrtToJson(Join(blocks, "\n\n")) == Collect(blocks)
  {
    var doc := Join(blocks, "\n\n");
    NormalizeUnchanged(doc);
    TrimUnchanged(doc);
    SplitBlocksJoin(blocks);
  }

  /** A block is dropped exactly when it has fewer than three lines or its second line does
      not give a non-empty start and end around " --> ". */
  lemma ParseCueDropped(block: string)
    ensures ParseCue(block).None? <==>
      var lines := SplitOn(block, "\n");
      |lines| < 3 || TimePieces(lines[1]).0 == "" || TimePieces(lines[1]).1 == ""
  {
  }

  /** Filtering keeps exactly the present values. */
  lemma {:induction false} SomesMembers<T>(xs: seq<Option<T>>)
    ensures forall i :: 0 <= i < |Somes(xs)| ==> Some(Somes(xs)[i]) in xs
    ensures forall i :: 0 <= i < |xs| && xs[i].Some? ==> xs[i].value in Somes(xs)
    decreases |xs|
  {
    if xs != [] {
      SomesMembers(xs[1..]);
      assert forall i :: 1 <= i < |xs| ==> xs[i] == xs[1..][i - 1];
    }
  }

  /** Filtering keeps order: it distributes over concatenation. */
  lemma {:induction false} SomesAppend<T>(a: seq<Option<T>>, b: seq<Option<T>>)
    ensures Somes(a + b) == Somes(a) + Somes(b)
    decreases |a|
  {
    if a == [] {
      assert a + b == b;
    } else {
      SomesAppend(a[1..], b);
      assert (a + b)[0] == a[0];
      assert (a + b)[1..] == a[1..] + b;
      if a[0].Some? {
        assert [a[0].value] + Somes(a[1..]) + Somes(b) == [a[0].value] + (Somes(a[1..]) + Somes(b));
      }
    }
  }

  /** Mapping distributes over concatenation. */
  lemma MapAppend<A, B>(f: A -> B, a: seq<A>, b: seq<A>)
    ensures Map(f, a + b) == Map(f, a) + Map(f, b)
  {
  }

  /** Collecting keeps source order and drops exactly the blocks that give no caption. */
  lemma CollectAppend(a: seq<string>, b: seq<string>)
    ensures Collect(a + b) == Collect(a) + Collect(b)
  {
    MapAppend(ParseCue, a, b);
    SomesAppend(Map(ParseCue, a), Map(ParseCue, b));
  }

  /** A dropped block changes nothing around it: the caption count goes down by exactly
      the one block. */
  lemma DropOne(a: seq<string>, bad: string, b: seq<string>)
    requires ParseCue(bad) == None
    ensures Collect(a + [bad] + b) == Collect(a) + Collect(b)
  {
    CollectAppend(a + [bad], b);
    CollectAppend(a, [bad]);
    assert Map(ParseCue, [bad]) == [None];
    assert Somes<SrtCaption>([None]) == [];
  }

  /** Every caption of a block holds the block's text and decoded times, and one
      space-joined chunk list of its words; with numeric times its tokens tile its span,
      and otherwise every token time is not-a-number. */
  lemma ParseCueCaption(block: string)
    requires ParseCue(block).Some?
    ensures var c, lines := ParseCue(block).value, SplitOn(block, "\n");
      && c.confidence == 1
      && c.text == CueText(lines)
      && c.startMs == ParseSrtTime(TimePieces(lines[1]).0)
      && c.endMs == ParseSrtTime(TimePieces(lines[1]).1)
      && TokenTexts(c.tokens) == FixedPairs(CueWords(c.text))
      && |c.tokens| == (|CueWords(c.text)| + 1) / 2
      && JoinSp(TokenTexts(c.tokens)) == JoinSp(CueWords(c.text))
      && (CueWords(c.text) == [] <==> c.tokens == [])
  {
    var c := ParseCue(block).value;
    var words := CueWords(c.text);
    ChunkTokensParts(FixedPairs(words), c.startMs, c.endMs);
    FixedPairsShape(words);
    FixedPairsJoin(words);
  }

  /** With numeric times the tokens tile the caption's span, their durations add up to the
      caption's, and when the caption does not end before it starts they are ordered; with a
      not-a-number time every token time is not-a-number. */
  lemma ParseCueTiming(block: string, c: SrtCaption)
    requires ParseCue(block) == Some(c)
    ensures c.startMs.Some? && c.endMs.Some? ==>
        && Timed(c)
        && (c.tokens != [] ==> Tiles(TokenSpans(c.tokens), c.startMs.value, c.endMs.value))
        && TotalLength(TokenSpans(c.tokens)) == (if c.tokens == [] then 0 else c.endMs.value - c.startMs.value)
        && (c.startMs.value <= c.endMs.value ==> Ordered(TokenSpans(c.tokens)))
    ensures c.startMs.None? || c.endMs.None? ==>
        forall i :: 0 <= i < |c.tokens| ==> c.tokens[i].startMs.None? && c.tokens[i].endMs.None?
  {
    ParseCueTokens(block);
    CaptionTiming(c);
  }

  /** A kept block's tokens are the timed fixed pairs of its own text. */
  lemma ParseCueTokens(block: string)
    requires ParseCue(block).Some?
    ensures var c := ParseCue(block).value;
      c.tokens == ChunkTokens(FixedPairs(CueWords(c.text)), c.startMs, c.endMs)
  {
  }

  /** The timing facts for any caption whose tokens are the timed fixed pairs of its text. */
  lemma CaptionTiming(c: SrtCaption)
    requires c.tokens == ChunkTokens(FixedPairs(CueWords(c.text)), c.startMs, c.endMs)
    ensures c.startMs.Some? && c.endMs.Some? ==>
        && Timed(c)
        && (c.tokens != [] ==> Tiles(TokenSpans(c.tokens), c.startMs.value, c.endMs.value))
        && TotalLength(TokenSpans(c.tokens)) == (if c.tokens == [] then 0 else c.endMs.value - c.startMs.value)
        && (c.startMs.value <= c.endMs.value ==> Ordered(TokenSpans(c.tokens)))
    ensures c.startMs.None? || c.endMs.None? ==>
        forall i :: 0 <= i < |c.tokens| ==> c.tokens[i].startMs.None? && c.tokens[i].endMs.None?
  {
    ChunkTokensTiming(FixedPairs(CueWords(c.text)), c.startMs, c.endMs);
  }

  /** With numeric caption times the tokens tile the caption, their lengths add up to its
      duration and they are ordered when it does not run backwards; otherwise every token
      time is not-a-number. */
  lemma ChunkTokensTiming(chunks: seq<string>, startMs: Option<int>, endMs: Option<int>)
    ensures var tokens := ChunkTokens(chunks, startMs, endMs);
      && (startMs.Some? && endMs.Some? ==>
        && TimedTokens(tokens)
        && (tokens != [] ==> Tiles(TokenSpans(tokens), startMs.value, endMs.value))
        && TotalLength(TokenSpans(tokens)) == (if tokens == [] then 0 else endMs.value - startMs.value)
        && (startMs.value <= endMs.value ==> Ordered(TokenSpans(tokens))))
      && (startMs.None? || endMs.None? ==>
        forall i :: 0 <= i < |tokens| ==> tokens[i].startMs.None? && tokens[i].endMs.None?)
  {
    var tokens := ChunkTokens(chunks, startMs, endMs);
    ChunkTokensParts(chunks, startMs, endMs);
    if startMs.Some? && endMs.Some? {
      var s, e := startMs.value, endMs.value;
      if tokens != [] {
        SpansTile(s, e, |chunks|);
        TilesTotal(TokenSpans(tokens), s, e);
      }
      if s <= e {
        SpansOrdered(s, e, |chunks|);
      }
    }
  }

  /** Caption text without a '<' is exactly the text lines joined with single spaces. */
  lemma ParseCueTextPlain(block: string)
    requires ParseCue(block).Some?
    requires '<' !in JoinSp(SplitOn(block, "\n")[2..])
    ensures ParseCue(block).value.text == JoinSp(SplitOn(block, "\n")[2..])
  {
    StripTagsPlain(JoinSp(SplitOn(block, "\n")[2..]));
  }

  /** The captions written are exactly the captions of the blocks that parse, at most one
      per block. */
  lemma ConvertSrtToJsonCaptions(content: string, c: SrtCaption)
    ensures var blocks := SplitBlocks(Trim(NormalizeLineEndings(content)));
      && |ConvertSrtToJson(content)| <= |blocks|
      && (c in ConvertSrtToJson(content) <==> exists b :: b in blocks && ParseCue(b) == Some(c))
  {
    SomesMapMembers(ParseCue, SplitBlocks(Trim(NormalizeLineEndings(content))), c);
  }

  /** Mapping then filtering keeps, at most once per element, exactly the present results. */
  lemma SomesMapMembers<A, B>(f: A -> Option<B>, xs: seq<A>, v: B)
    ensures |Somes(Map(f, xs))| <= |xs|
    ensures v in Somes(Map(f, xs)) <==> exists x :: x in xs && f(x) == Some(v)
  {
    var opts := Map(f, xs);
    SomesMembers(opts);
    if v in Somes(opts) {
      var j :| 0 <= j < |opts| && opts[j] == Some(v);
      assert xs[j] in xs;
    }
    if x :| x in xs && f(x) == Some(v) {
      var j :| 0 <= j < |xs| && xs[j] == x;
      assert opts[j] == Some(v);
    }
  }

  /** A cue whose text lines are empty or whitespace only has whitespace as its text and no
      tokens (and nothing is divided by zero). */
  lemma ParseCueBlankText(block: string)
    requires ParseCue(block).Some?
    requires forall k :: 2 <= k < |SplitOn(block, "\n")| ==> WsOnly(SplitOn(block, "\n")[k])
    ensures WsOnly(ParseCue(block).value.text)
    ensures ParseCue(block).value.tokens == []
  {
    var lines := SplitOn(block, "\n");
    var joined := JoinSp(lines[2..]);
    JoinSpBlank(lines[2..]);
    assert '<' !in joined;
    StripTagsPlain(joined);
    CueWordsBlank(joined);
  }

  /** Text with no words gives a caption with no tokens (and nothing is divided by zero). */
  lemma ParseCueNoWords(block: string)
    requires ParseCue(block).Some?
    requires CueWords(ParseCue(block).value.text) == []
    ensures ParseCue(block).value.tokens == []
  {
  }
}
