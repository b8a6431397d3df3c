/** String primitives used by the caption engine: the JavaScript whitespace class,
    `trim`, `split` on a literal separator, `split(/\s+/)`, `join`, and decimal digits.
    Strings are sequences of Unicode characters. JavaScript counts UTF-16 code units
    instead, so a character outside the Basic Multilingual Plane is one character here
    and two code units there. */
module Text {

  // ---------------------------------------------------------------------------
  // Whitespace

  /** The characters matched by `\s` in a JavaScript regular expression, which are
      also the characters `String.prototype.trim` removes (WhiteSpace and
      LineTerminator of ECMAScript). */
  predicate IsWs(c: char) {
    || c == ' ' || c == '\t' || c == '\n' || c == '\U{B}' || c == '\U{C}' || c == '\r'
    || c == '\U{A0}' || c == '\U{1680}' || ('\U{2000}' <= c <= '\U{200A}')
    || c == '\U{2028}' || c == '\U{2029}' || c == '\U{202F}' || c == '\U{205F}'
    || c == '\U{3000}' || c == '\U{FEFF}'
  }

  /** No character of s is whitespace. */
  predicate NoWs(s: string) {
    forall i :: 0 <= i < |s| ==> !IsWs(s[i])
  }

  /** s with its leading whitespace removed. */
  function TrimStart(s: string): (r: string)
    ensures |r| <= |s| && r == s[|s| - |r|..]
    ensures r == [] || !IsWs(r[0])
    ensures forall i :: 0 <= i < |s| - |r| ==> IsWs(s[i])
    decreases |s|
  {
    if s != [] && IsWs(s[0]) then TrimStart(s[1..]) else s
  }

  /** s with its trailing whitespace removed. */
  function TrimEnd(s: string): (r: string)
    ensures |r| <= |s| && r == s[..|r|]
    ensures r == [] || !IsWs(r[|r| - 1])
    ensures forall i :: |r| <= i < |s| ==> IsWs(s[i])
    decreases |s|
  {
    if s != [] && IsWs(s[|s| - 1]) then TrimEnd(s[..|s| - 1]) else s
  }

  /** `s.trim()` */
  function Trim(s: string): (r: string)
    ensures |r| <= |s|
    ensures r == [] || (!IsWs(r[0]) && !IsWs(r[|r| - 1]))
  {
    TrimEnd(TrimStart(s))
  }

  /** Every character of s is whitespace. */
  predicate WsOnly(s: string) {
    forall i :: 0 <= i < |s| ==> IsWs(s[i])
  }

  /** Trimming removes exactly the whitespace around the text: runs of whitespace a and c
      around a middle m that starts and ends with another character leave m. */
  lemma TrimAround(a: string, m: string, c: string)
    requires WsOnly(a) && WsOnly(c)
    requires m != [] && !IsWs(m[0]) && !IsWs(m[|m| - 1])
    ensures Trim(a + m + c) == m
  {
    TrimStartWs(a, m + c);
    ConcatAssoc(a, m, c);
    TrimEndWs(m, c);
  }

  /** Leading whitespace is dropped up to the first other character. */
  lemma TrimStartWs(a: string, b: string)
    requires WsOnly(a) && b != [] && !IsWs(b[0])
    ensures TrimStart(a + b) == b
  {
    var s := a + b;
    var r := TrimStart(s);
    assert r == s[|a|..] == b;
  }

  /** Trailing whitespace is dropped back to the last other character. */
  lemma TrimEndWs(m: string, c: string)
    requires WsOnly(c) && m != [] && !IsWs(m[|m| - 1])
    ensures TrimEnd(m + c) == m
  {
    var s := m + c;
    var r := TrimEnd(s);
    assert r == s[..|m|] == m;
  }

  /** A string that neither starts nor ends with whitespace is its own trim. */
  lemma TrimUnchanged(s: string)
    requires s != [] && !IsWs(s[0]) && !IsWs(s[|s| - 1])
    ensures Trim(s) == s
  {
    assert TrimStart(s) == s;
  }

  // ---------------------------------------------------------------------------
  // Searching for a literal

  /** The literal pat occurs in s at position k. */
  predicate OccursAt(s: string, pat: string, k: nat) {
    k + |pat| <= |s| && s[k..k + |pat|] == pat
  }

  /** The first position at or after from where pat occurs in s, or |s| when there is none. */
  function IndexFrom(s: string, pat: string, from: nat): (k: nat)
    requires from <= |s|
    ensures from <= k <= |s|
    ensures k < |s| ==> OccursAt(s, pat, k)
    ensures forall j :: from <= j < k ==> !OccursAt(s, pat, j)
    decreases |s| - from
  {
    if from == |s| then |s|
    else if OccursAt(s, pat, from) then from
    else IndexFrom(s, pat, from + 1)
  }

  /** `s.indexOf(pat)`, with |s| standing for "not found". */
  function IndexOf(s: string, pat: string): (k: nat)
    ensures k <= |s|
    ensures k < |s| ==> OccursAt(s, pat, k)
    ensures forall j :: 0 <= j < k ==> !OccursAt(s, pat, j)
  {
    IndexFrom(s, pat, 0)
  }

  /** A literal whose first character is not in a is first found right after a. */
  lemma IndexOfAfter(a: string, pat: string, b: string)
    requires |pat| > 0 && pat[0] !in a
    ensures IndexOf(a + pat + b, pat) == |a|
  {
    var s := a + pat + b;
    assert s[|a|..|a| + |pat|] == pat;
    assert OccursAt(s, pat, |a|);
  }

  /** A literal whose first character is not in a does not occur in a. */
  lemma IndexOfAbsent(a: string, pat: string)
    requires |pat| > 0 && pat[0] !in a
    ensures IndexOf(a, pat) == |a|
  {
  }

  /** The index of the first occurrence of the character c in s, or |s|. */
  function FindChar(s: string, c: char): (k: nat)
    ensures k <= |s|
    ensures k < |s| ==> s[k] == c
    ensures forall j :: 0 <= j < k ==> s[j] != c
  {
    if s == [] || s[0] == c then 0 else 1 + FindChar(s[1..], c)
  }

  // ---------------------------------------------------------------------------
  // Splitting on a literal separator and joining

  /** `s.split(sep)` for a non-empty literal separator: the pieces between the
      non-overlapping occurrences of sep, found left to right. */
  function SplitOn(s: string, sep: string): (parts: seq<string>)
    requires |sep| > 0
    ensures |parts| >= 1
    decreases |s|
  {
    var k := IndexOf(s, sep);
    if k == |s| then [s] else [s[..k]] + SplitOn(s[k + |sep|..], sep)
  }

  /** `parts.join(sep)` */
  function Join(parts: seq<string>, sep: string): string {
    if |parts| == 0 then ""
    else if |parts| == 1 then parts[0]
    else parts[0] + sep + Join(parts[1..], sep)
  }

  /** `parts.join(' ')` */
  function JoinSp(parts: seq<string>): string {
    Join(parts, " ")
  }

  /** Joining the pieces of a split with the same separator gives back the string. */
  lemma {:induction false} JoinSplitOn(s: string, sep: string)
    requires |sep| > 0
    ensures Join(SplitOn(s, sep), sep) == s
    decreases |s|
  {
    var k := IndexOf(s, sep);
    if k < |s| {
      var rest := s[k + |sep|..];
      SplitOnUnfold(s, sep);
      JoinSplitOn(rest, sep);
      JoinCons(s[..k], SplitOn(rest, sep), sep);
      SplitAround(s, sep, k);
    } else {
      assert SplitOn(s, sep) == [s];
    }
  }

  /** One step of the split, at the first occurrence of the separator. */
  lemma SplitOnUnfold(s: string, sep: string)
    requires |sep| > 0 && IndexOf(s, sep) < |s|
    ensures var k := IndexOf(s, sep);
      k + |sep| <= |s| && SplitOn(s, sep) == [s[..k]] + SplitOn(s[k + |sep|..], sep)
  {
  }

  /** The first piece of a split is the text before the first separator. */
  lemma SplitOnHead(s: string, sep: string)
    requires |sep| > 0
    ensures SplitOn(s, sep)[0] == s[..IndexOf(s, sep)]
  {
    if IndexOf(s, sep) < |s| {
      SplitOnUnfold(s, sep);
    } else {
      assert s[..|s|] == s;
    }
  }

  /** A string is the text before an occurrence of sep, sep, and the text after it. */
  lemma SplitAround(s: string, sep: string, k: nat)
    requires OccursAt(s, sep, k)
    ensures s == s[..k] + sep + s[k + |sep|..]
  {
    assert s == s[..k] + s[k..k + |sep|] + s[k + |sep|..];
  }

  /** Splitting a + sep + b, where the separator's first character is not in a,
      gives a followed by the pieces of b. */
  lemma SplitOnFirst(a: string, sep: string, b: string)
    requires |sep| > 0 && sep[0] !in a
    ensures SplitOn(a + sep + b, sep) == [a] + SplitOn(b, sep)
  {
    var s := a + sep + b;
    IndexOfAfter(a, sep, b);
    assert s[..|a|] == a;
    assert s[|a| + |sep|..] == b;
  }

  /** A string free of the separator's first character splits into itself. */
  lemma SplitOnNone(a: string, sep: string)
    requires |sep| > 0 && sep[0] !in a
    ensures SplitOn(a, sep) == [a]
  {
    IndexOfAbsent(a, sep);
  }

  /** Splitting on a one-character separator undoes joining pieces that do not contain it. */
  lemma {:induction false} SplitOnJoin(parts: seq<string>, c: char)
    requires |parts| > 0
    requires forall i :: 0 <= i < |parts| ==> c !in parts[i]
    ensures SplitOn(Join(parts, [c]), [c]) == parts
    decreases |parts|
  {
    if |parts| == 1 {
      SplitOnNone(parts[0], [c]);
    } else {
      var rest := Join(parts[1..], [c]);
      assert Join(parts, [c]) == parts[0] + [c] + rest;
      SplitOnJoin(parts[1..], c);
      SplitOnFirst(parts[0], [c], rest);
      assert parts == [parts[0]] + parts[1..];
    }
  }

  /** Concatenation is associative. */
  lemma ConcatAssoc<T>(a: seq<T>, b: seq<T>, c: seq<T>)
    ensures a + (b + c) == (a + b) + c
  {
  }

  /** Dropping a prefix of a from a + c keeps all of c. */
  lemma DropPrefix(a: string, c: string, d: nat)
    requires d <= |a|
    ensures (a + c)[d..] == a[d..] + c
  {
  }

  /** Two pieces join around one separator. */
  lemma JoinPair(a: string, b: string, sep: string)
    ensures Join([a, b], sep) == a + sep + b
  {
    assert [a, b][1..] == [b];
  }

  /** A piece in front of a non-empty list joins with one separator. */
  lemma JoinCons(w: string, rest: seq<string>, sep: string)
    requires rest != []
    ensures Join([w] + rest, sep) == w + sep + Join(rest, sep)
  {
    assert ([w] + rest)[1..] == rest;
  }

  /** Join distributes over concatenation of non-empty piece lists. */
  lemma {:induction false} JoinAppend(a: seq<string>, b: seq<string>, sep: string)
    requires |a| > 0 && |b| > 0
    ensures Join(a + b, sep) == Join(a, sep) + sep + Join(b, sep)
    decreases |a|
  {
    if |a| == 1 {
      assert a + b == [a[0]] + b;
    } else {
      JoinAppend(a[1..], b, sep);
      assert (a + b)[1..] == a[1..] + b;
    }
  }

  // ---------------------------------------------------------------------------
  // Splitting on whitespace runs

  /** The index of the first whitespace character of s, or |s|. */
  function FirstWs(s: string): (k: nat)
    ensures k <= |s|
    ensures k < |s| ==> IsWs(s[k])
    ensures forall j :: 0 <= j < k ==> !IsWs(s[j])
  {
    if s == [] || IsWs(s[0]) then 0 else 1 + FirstWs(s[1..])
  }

  /** `s.split(/\s+/)`: the fields between maximal runs of whitespace. A leading
      (trailing) run gives an empty first (last) field; "" gives [""]. */
  function SplitWs(s: string): (words: seq<string>)
    ensures |words| >= 1
    ensures forall i :: 0 <= i < |words| ==> NoWs(words[i])
    decreases |s|
  {
    var k := FirstWs(s);
    if k == |s| then [s]
    else
      var rest := TrimStart(s[k..]);
      assert |rest| < |s| - k;
      [s[..k]] + SplitWs(rest)
  }

  /** A string without whitespace is one field. */
  lemma SplitWsNoWs(s: string)
    requires NoWs(s)
    ensures SplitWs(s) == [s]
  {
    assert FirstWs(s) == |s|;
  }

  /** A whole run of whitespace, of any length and mix of characters, separates one field
      from the rest; an empty a gives the empty first field of a leading run, and an empty b
      the empty last field of a trailing run. */
  lemma SplitWsRun(a: string, r: string, b: string)
    requires NoWs(a) && r != [] && WsOnly(r) && (b == [] || !IsWs(b[0]))
    ensures SplitWs(a + r + b) == [a] + SplitWs(b)
  {
    var t := r + b;
    ConcatAssoc(a, r, b);
    FirstWsAfter(a, t);
    SplitWsUnfold(a + t, |a|);
    assert (a + t)[..|a|] == a && (a + t)[|a|..] == t;
    TrimStartRun(r, b);
  }

  /** The first whitespace after a whitespace-free prefix is right after it. */
  lemma FirstWsAfter(a: string, t: string)
    requires NoWs(a) && t != [] && IsWs(t[0])
    ensures FirstWs(a + t) == |a|
  {
    assert (a + t)[|a|] == t[0];
    assert forall j :: 0 <= j < |a| ==> (a + t)[j] == a[j];
  }

  /** One step of the whitespace split, at the first whitespace k. */
  lemma SplitWsUnfold(s: string, k: nat)
    requires k == FirstWs(s) && k < |s|
    ensures SplitWs(s) == [s[..k]] + SplitWs(TrimStart(s[k..]))
  {
  }

  /** A whitespace run is trimmed whole, up to the first other character. */
  lemma TrimStartRun(r: string, b: string)
    requires WsOnly(r) && (b == [] || !IsWs(b[0]))
    ensures TrimStart(r + b) == b
  {
    if b == [] {
      assert r + b == r;
      assert TrimStart(r) == [];
    } else {
      TrimStartWs(r, b);
    }
  }

  /** Splitting a string of whitespace only gives nothing but empty fields. */
  lemma SplitWsBlank(s: string)
    requires WsOnly(s)
    ensures forall i :: 0 <= i < |SplitWs(s)| ==> SplitWs(s)[i] == []
  {
    if s != [] {
      assert FirstWs(s) == 0;
      assert TrimStart(s[0..]) == [] by {
        assert s[0..] == s;
      }
      assert SplitWs(s) == [s[..0]] + SplitWs([]);
    }
  }

  /** Whitespace-only pieces joined with single spaces give whitespace only. */
  lemma {:induction false} JoinSpBlank(parts: seq<string>)
    requires forall k :: 0 <= k < |parts| ==> WsOnly(parts[k])
    ensures WsOnly(JoinSp(parts))
    decreases |parts|
  {
    if |parts| > 1 {
      JoinSpBlank(parts[1..]);
      assert JoinSp(parts) == parts[0] + " " + JoinSp(parts[1..]);
    }
  }

  /** A word list that can stand between single spaces: every word non-empty and whitespace-free. */
  predicate Words(ws: seq<string>) {
    forall i :: 0 <= i < |ws| ==> ws[i] != [] && NoWs(ws[i])
  }

  /** A join starts with the first piece's first character. */
  lemma JoinHead(parts: seq<string>, sep: string)
    requires |parts| > 0 && parts[0] != []
    ensures Join(parts, sep) != [] && Join(parts, sep)[0] == parts[0][0]
  {
  }

  /** Splitting on whitespace undoes joining whitespace-free words with single spaces. */
  lemma {:induction false} SplitWsJoin(ws: seq<string>)
    requires |ws| > 0 && Words(ws)
    ensures SplitWs(JoinSp(ws)) == ws
    decreases |ws|
  {
    var s := JoinSp(ws);
    if |ws| == 1 {
      assert FirstWs(s) == |s|;
    } else {
      var rest := JoinSp(ws[1..]);
      assert s == ws[0] + " " + rest;
      assert s[|ws[0]|] == ' ';
      assert forall j :: 0 <= j < |ws[0]| ==> s[j] == ws[0][j];
      assert FirstWs(s) == |ws[0]|;
      assert s[|ws[0]|..] == " " + rest;
      JoinHead(ws[1..], " ");
      assert TrimStart(" " + rest) == rest by {
        assert (" " + rest)[1..] == rest;
      }
      SplitWsJoin(ws[1..]);
      assert s[..|ws[0]|] == ws[0];
    }
  }

  /** `words.filter(w => w.length > 0)` */
  function NonEmpty(ws: seq<string>): (r: seq<string>)
    ensures |r| <= |ws|
    ensures forall w :: w in r <==> w in ws && w != []
  {
    if ws == [] then []
    else if ws[0] == [] then NonEmpty(ws[1..])
    else [ws[0]] + NonEmpty(ws[1..])
  }

  /** Filtering a single word keeps it exactly when it is not empty. */
  lemma NonEmptySingle(w: string)
    ensures NonEmpty([w]) == if w == [] then [] else [w]
  {
    assert [w][1..] == [];
  }

  /** Filtering works piece by piece, so together with NonEmptySingle it keeps every
      non-empty word in order and drops exactly the empty ones. */
  lemma {:induction false} NonEmptyAppend(a: seq<string>, b: seq<string>)
    ensures NonEmpty(a + b) == NonEmpty(a) + NonEmpty(b)
    decreases |a|
  {
    if a == [] {
      assert a + b == b;
    } else {
      assert (a + b)[0] == a[0] && (a + b)[1..] == a[1..] + b;
      NonEmptyAppend(a[1..], b);
      if a[0] != [] {
        ConcatAssoc([a[0]], NonEmpty(a[1..]), NonEmpty(b));
      }
    }
  }

  /** A list of empty words filters to nothing. */
  lemma {:induction false} NonEmptyAllEmpty(ws: seq<string>)
    requires forall i :: 0 <= i < |ws| ==> ws[i] == []
    ensures NonEmpty(ws) == []
  {
    if ws != [] {
      NonEmptyAllEmpty(ws[1..]);
    }
  }

  /** A list without an empty word is left as it is. */
  lemma {:induction false} NonEmptyKeeps(ws: seq<string>)
    requires forall i :: 0 <= i < |ws| ==> ws[i] != []
    ensures NonEmpty(ws) == ws
  {
    if ws != [] {
      NonEmptyKeeps(ws[1..]);
    }
  }

  // ---------------------------------------------------------------------------
  // Decimal digits

  predicate IsDigit(c: char) {
    '0' <= c <= '9'
  }

  /** A non-empty string of decimal digits. */
  predicate IsDigits(s: string) {
    |s| > 0 && forall i :: 0 <= i < |s| ==> IsDigit(s[i])
  }

  /** The value of a string of decimal digits, as `Number` and `parseInt(_, 10)` read it. */
  function DigitsValue(s: string): nat
    requires forall i :: 0 <= i < |s| ==> IsDigit(s[i])
  {
    if s == [] then 0
    else
      assert IsDigit(s[|s| - 1]);
      DigitsValue(s[..|s| - 1]) * 10 + (s[|s| - 1] as int - '0' as int)
  }
}
