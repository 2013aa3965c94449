/**
 * The string handling the bot applies to user input and button payloads:
 * case folding, `str.strip()`, `str.split()`, the one leading '@' that is
 * removed from a username, `data.split(':', 1)[1]`, the anchored patterns the
 * callback handlers are registered with, and `re.findall(r'@(\w+)', text)`.
 */
module Text {
  import opened Wrappers
  import opened Seqs

  // ---------------------------------------------------------------- folding

  /**
   * One case fold stands for both Python's `str.lower()` and SQLite's
   * `LOWER()`: it maps 'A'..'Z' to 'a'..'z' and leaves every other character.
   */
  function FoldChar(c: char): char {
    if 'A' <= c <= 'Z' then (c as int + 32) as char else c
  }

  function Fold(s: string): string {
    seq(|s|, i requires 0 <= i < |s| => FoldChar(s[i]))
  }

  /** Folding twice is folding once, so a stored lower-cased name is its own key. */
  lemma FoldIdempotent(s: string)
    ensures Fold(Fold(s)) == Fold(s)
    ensures |Fold(s)| == |s|
  {
    assert forall i :: 0 <= i < |s| ==> FoldChar(FoldChar(s[i])) == FoldChar(s[i]);
  }

  // ------------------------------------------------------------- whitespace

  /** The characters Python's `str.isspace()` accepts; `split()` and `strip()` use them. */
  predicate IsSpace(c: char) {
    if c < '\U{80}' then AsciiSpace(c) else WideSpace(c)
  }

  predicate AsciiSpace(c: char) {
    ('\t' <= c <= '\r') || ('\U{1c}' <= c <= ' ')
  }

  predicate WideSpace(c: char) {
    c == '\U{85}' || c == '\U{a0}' || c == '\U{1680}' || ('\U{2000}' <= c <= '\U{200a}')
    || c == '\U{2028}' || c == '\U{2029}' || c == '\U{202f}' || c == '\U{205f}' || c == '\U{3000}'
  }

  predicate NotSpace(c: char) { !IsSpace(c) }

  ghost predicate IsBlank(s: string) {
    forall k :: 0 <= k < |s| ==> IsSpace(s[k])
  }

  /** Length of the longest prefix of `s` whose characters all satisfy `p`. */
  function Span(s: string, p: char -> bool): (n: nat)
    ensures n <= |s|
    ensures forall k :: 0 <= k < n ==> p(s[k])
    ensures n < |s| ==> !p(s[n])
  {
    if s != [] && p(s[0]) then 1 + Span(s[1..], p) else 0
  }

  /** Number of white-space characters at the end of `s`. */
  function TrailingSpaces(s: string): (n: nat)
    ensures n <= |s|
    ensures forall k :: |s| - n <= k < |s| ==> IsSpace(s[k])
    ensures n < |s| ==> !IsSpace(s[|s| - 1 - n])
  {
    if s != [] && IsSpace(s[|s| - 1]) then 1 + TrailingSpaces(s[..|s| - 1]) else 0
  }

  /** `r` is `s` with the blank prefix `s[..i]` and a blank suffix removed. */
  ghost predicate TrimmedAt(s: string, i: int, r: string) {
    0 <= i <= i + |r| <= |s| && s[i..i + |r|] == r && IsBlank(s[..i]) && IsBlank(s[i + |r|..])
  }

  /** Python's `s.strip()`. */
  function Strip(s: string): (r: string)
    ensures r == [] <==> IsBlank(s)
    ensures r != [] ==> NotSpace(r[0]) && NotSpace(r[|r| - 1])
    ensures exists i :: TrimmedAt(s, i, r)
  {
    var lead := Span(s, IsSpace);
    if lead == |s| then
      assert TrimmedAt(s, |s|, []);
      []
    else
      var t := TrailingSpaces(s);
      assert NotSpace(s[lead]);
      assert t < |s| - lead;
      var r := s[lead..|s| - t];
      assert TrimmedAt(s, lead, r);
      r
  }

  /** A piece `split()` can return: non-empty and free of white space. */
  ghost predicate IsToken(t: string) {
    t != [] && forall j :: 0 <= j < |t| ==> NotSpace(t[j])
  }

  /**
   * Python's `s.split()`: the maximal runs of non-white-space characters,
   * in order.
   */
  function SplitWs(s: string): (r: seq<string>)
    decreases |s|
    ensures forall k :: 0 <= k < |r| ==> IsToken(r[k])
  {
    var lead := Span(s, IsSpace);
    if lead == |s| then []
    else
      var rest := s[lead..];
      var n := Span(rest, NotSpace);
      [rest[..n]] + SplitWs(rest[n..])
  }

  /** The input is blank exactly when `split()` finds no token and `strip()` leaves nothing. */
  lemma BlankInput(s: string)
    ensures SplitWs(s) == [] <==> IsBlank(s)
    ensures Strip(s) == [] <==> IsBlank(s)
  {
  }

  function Concat(ts: seq<string>): string {
    if ts == [] then [] else ts[0] + Concat(ts[1..])
  }

  lemma ConcatCons(t: string, ts: seq<string>)
    ensures Concat([t] + ts) == t + Concat(ts)
  {
    assert ([t] + ts)[1..] == ts;
  }

  /**
   * `split()` loses only white space: the tokens, put back together, are the
   * non-white-space characters of the input in their original order.
   */
  lemma {:induction false} SplitKeepsText(s: string)
    decreases |s|
    ensures Concat(SplitWs(s)) == Filter(s, NotSpace)
  {
    var lead := Span(s, IsSpace);
    var rest := s[lead..];
    FilterSkipsBlank(s, lead);
    if lead < |s| {
      var n := Span(rest, NotSpace);
      assert NotSpace(rest[0]) by { assert rest[0] == s[lead]; }
      var word, tail := rest[..n], rest[n..];
      FilterKeepsWord(rest, n);
      SplitKeepsText(tail);
      var ts := SplitWs(tail);
      assert SplitWs(s) == [word] + ts;
      ConcatCons(word, ts);
    }
  }

  /** A blank prefix contributes nothing to the non-space characters. */
  lemma FilterSkipsBlank(s: string, lead: nat)
    requires lead <= |s| && forall k :: 0 <= k < lead ==> IsSpace(s[k])
    ensures Filter(s, NotSpace) == Filter(s[lead..], NotSpace)
  {
    assert s == s[..lead] + s[lead..];
    FilterAppend(s[..lead], s[lead..], NotSpace);
    FilterDropsAll(s[..lead], NotSpace);
  }

  /** A prefix without white space is kept whole. */
  lemma FilterKeepsWord(s: string, n: nat)
    requires n <= |s| && forall k :: 0 <= k < n ==> NotSpace(s[k])
    ensures Filter(s, NotSpace) == s[..n] + Filter(s[n..], NotSpace)
  {
    assert s == s[..n] + s[n..];
    FilterAppend(s[..n], s[n..], NotSpace);
    FilterKeepsAll(s[..n], NotSpace);
  }

  /** A prefix whose characters all satisfy `f` adds its length to the span. */
  lemma {:induction false} SpanAppend(p: string, y: string, f: char -> bool)
    requires forall k :: 0 <= k < |p| ==> f(p[k])
    decreases |p|
    ensures Span(p + y, f) == |p| + Span(y, f)
  {
    if p == [] {
      assert p + y == y;
    } else {
      assert (p + y)[0] == p[0];
      assert (p + y)[1..] == p[1..] + y;
      SpanAppend(p[1..], y, f);
    }
  }

  /** `split()` depends only on the text after the leading white space. */
  lemma SplitFromLead(s: string, lead: nat)
    requires lead == Span(s, IsSpace)
    ensures SplitWs(s) == SplitWs(s[lead..])
  {
    var t := s[lead..];
    assert Span(t, IsSpace) == 0 by {
      assert t != [] ==> t[0] == s[lead];
    }
    assert t[0..] == t;
  }

  /** Leading white space gives no token. */
  lemma SplitSkipsBlank(p: string, y: string)
    requires IsBlank(p)
    ensures SplitWs(p + y) == SplitWs(y)
  {
    SpanAppend(p, y, IsSpace);
    var ly := Span(y, IsSpace);
    SplitFromLead(p + y, |p| + ly);
    SplitFromLead(y, ly);
    assert (p + y)[|p| + ly..] == y[ly..];
  }

  /**
   * A token followed by white space, or by nothing, is returned whole: each
   * token `split()` returns is a maximal run of non-white-space characters.
   */
  lemma SplitTakesWord(w: string, y: string)
    requires IsToken(w) && (y == [] || IsSpace(y[0]))
    ensures SplitWs(w + y) == [w] + SplitWs(y)
  {
    var s := w + y;
    assert Span(s, IsSpace) == 0 by { assert s[0] == w[0]; }
    assert s[0..] == s;
    SpanAppend(w, y, NotSpace);
    assert Span(y, NotSpace) == 0;
    assert s[..|w|] == w && s[|w|..] == y;
  }

  /** The span of `f` cuts `s` into a prefix whose characters satisfy `f` and a rest that does not start with one. */
  lemma SpanSplit(s: string, f: char -> bool) returns (x: string, y: string)
    ensures s == x + y && (forall k :: 0 <= k < |x| ==> f(x[k])) && (y == [] || !f(y[0]))
  {
    var n := Span(s, f);
    x, y := s[..n], s[n..];
    assert s == x + y;
    forall k | 0 <= k < |x| ensures f(x[k]) {
      assert x[k] == s[k];
    }
    assert n < |s| ==> y[0] == s[n];
  }

  /** Text that is not blank is a blank prefix, a maximal token, and the rest. */
  lemma FirstToken(a: string) returns (p: string, w: string, q: string)
    requires !IsBlank(a)
    ensures a == p + w + q && IsBlank(p) && IsToken(w) && (q == [] || IsSpace(q[0]))
  {
    var rest;
    p, rest := SpanSplit(a, IsSpace);
    assert rest != [] by {
      var k :| 0 <= k < |a| && !IsSpace(a[k]);
      assert k >= |p| ==> a[k] == rest[k - |p|];
    }
    w, q := SpanSplit(rest, NotSpace);
    assert w != [] by {
      assert w == [] ==> rest == q;
    }
    ConcatAssoc(p, w, q);
  }



  /** `split()` cuts at every white-space character: the pieces on either side split apart. */
  lemma {:induction false} SplitAtSpace(a: string, c: char, b: string)
    requires IsSpace(c)
    decreases |a|
    ensures SplitWs(a + [c] + b) == SplitWs(a) + SplitWs(b)
  {
    if IsBlank(a) {
      BlankInput(a);
      assert IsBlank(a + [c]) by { assert forall k :: 0 <= k < |a| ==> (a + [c])[k] == a[k]; }
      SplitSkipsBlank(a + [c], b);
    } else {
      var p, w, q := FirstToken(a);
      var tail := q + [c] + b;
      assert IsSpace(tail[0]) by { assert tail[0] == if q == [] then c else q[0]; }
      assert a + [c] + b == p + w + tail;
      LeadingToken(p, w, tail);
      LeadingToken(p, w, q);
      SplitAtSpace(q, c, b);
      ConcatAssoc([w], SplitWs(q), SplitWs(b));
    }
  }

  /** A blank prefix, then a token that white space or the end closes, gives that token first. */
  lemma LeadingToken(p: string, w: string, y: string)
    requires IsBlank(p) && IsToken(w) && (y == [] || IsSpace(y[0]))
    ensures SplitWs(p + w + y) == [w] + SplitWs(y)
  {
    assert p + w + y == p + (w + y);
    SplitSkipsBlank(p, w + y);
    SplitTakesWord(w, y);
  }

  // -------------------------------------------------------------- usernames

  /** `if username.startswith('@'): username = username[1:]`: at most one '@' goes. */
  function StripAt(t: string): (r: string)
    ensures t == r || t == "@" + r
    ensures t == "@" + r <==> |t| > 0 && t[0] == '@'
  {
    if |t| > 0 && t[0] == '@' then t[1..] else t
  }

  // --------------------------------------------------------------- payloads

  predicate StartsWith(s: string, p: string) {
    |p| <= |s| && s[..|p|] == p
  }

  /** Position of the first ':' in `s`, if there is one. */
  function ColonIndex(s: string): (r: Option<nat>)
    ensures r.Some? ==> r.value < |s| && s[r.value] == ':' && ':' !in s[..r.value]
    ensures r.None? ==> ':' !in s
  {
    if s == [] then None
    else if s[0] == ':' then Some(0)
    else
      match ColonIndex(s[1..])
      case None => None
      case Some(i) =>
        assert s[..i + 1] == [s[0]] + s[1..][..i];
        Some(i + 1)
  }

  /** A ':' with none before it is the one `ColonIndex` finds. */
  lemma {:induction false} FirstColonAt(s: string, j: nat)
    requires j < |s| && s[j] == ':' && ':' !in s[..j]
    ensures ColonIndex(s) == Some(j)
  {
    if j > 0 {
      assert s[0] in s[..j];
      assert s[1..][..j - 1] == s[1..j];
      assert forall c :: c in s[1..j] ==> c in s[..j];
      FirstColonAt(s[1..], j - 1);
    }
  }

  /** `data.split(':', 1)[1]`; `None` is the IndexError raised when there is no ':'. */
  function AfterFirstColon(s: string): (r: Option<string>)
    ensures r.None? <==> ':' !in s
    ensures r.Some? ==> exists i :: 0 <= i < |s| && s[i] == ':' && ':' !in s[..i] && r.value == s[i + 1..]
  {
    match ColonIndex(s)
    case None => None
    case Some(i) => Some(s[i + 1..])
  }

  /**
   * A payload `prefix:value` gives back `value` whole, colons and all, as
   * long as the prefix has none of its own.
   */
  lemma PayloadRoundTrip(prefix: string, value: string)
    requires ':' !in prefix
    ensures AfterFirstColon(prefix + ":" + value) == Some(value)
  {
    var s := prefix + ":" + value;
    assert s[..|prefix|] == prefix;
    FirstColonAt(s, |prefix|);
    assert s[|prefix| + 1..] == value;
  }

  /**
   * `re.match('^' + p + '.*$', d)`: `d` starts with `p` and the rest has no
   * line break, except that `$` also matches before one final "\n".
   */
  predicate MatchesPrefixPattern(p: string, d: string) {
    StartsWith(d, p) && forall i :: |p| <= i < |d| - 1 ==> d[i] != '\n'
  }

  /** `re.match('^' + w + '$', d)`. */
  predicate MatchesWordPattern(w: string, d: string) {
    d == w || d == w + "\n"
  }

  // --------------------------------------------------------------- mentions

  /** ASCII reading of the regular-expression class `\w`. */
  predicate IsWordChar(c: char) {
    if c <= '9' then '0' <= c
    else if c <= 'Z' then 'A' <= c
    else if c <= 'z' then c == '_' || 'a' <= c
    else false
  }

  /** What `\w+` matches: a non-empty run of word characters. */
  ghost predicate IsWord(t: string) {
    t != [] && forall j :: 0 <= j < |t| ==> IsWordChar(t[j])
  }

  /** `@t` starts at `s[i]` and the word run `t` cannot be extended. */
  ghost predicate MentionAt(s: string, i: int, t: string) {
    0 <= i && i + |t| < |s| && s[i] == '@' && s[i + 1..i + 1 + |t|] == t
    && (i + 1 + |t| == |s| || !IsWordChar(s[i + 1 + |t|]))
  }

  /**
   * `re.findall(r'@(\w+)', s)`: scanning left to right, every '@' followed by
   * word characters yields the longest such run, and scanning resumes after it.
   */
  function FindMentions(s: string): (r: seq<string>)
    decreases |s|
    ensures forall k :: 0 <= k < |r| ==> IsWord(r[k])
  {
    if s == [] then []
    else if s[0] == '@' && |s| > 1 && IsWordChar(s[1]) then
      var n := Span(s[1..], IsWordChar);
      [s[1..1 + n]] + FindMentions(s[1 + n..])
    else FindMentions(s[1..])
  }

  /** A mention found in a suffix of the text is a mention in the text. */
  lemma MentionShift(s: string, d: nat, i: int, t: string)
    requires d <= |s| && MentionAt(s[d..], i, t)
    ensures MentionAt(s, d + i, t)
  {
    assert s[d + i + 1..d + i + 1 + |t|] == s[d..][i + 1..i + 1 + |t|];
    assert d + i + 1 + |t| < |s| ==> s[d + i + 1 + |t|] == s[d..][i + 1 + |t|];
  }

  /** Every token `findall` returns stands in the text after an '@', as a maximal word run. */
  lemma {:induction false} FindMentionsSound(s: string, k: nat)
    requires k < |FindMentions(s)|
    decreases |s|
    ensures exists i :: MentionAt(s, i, FindMentions(s)[k])
  {
    var r := FindMentions(s);
    if s[0] == '@' && |s| > 1 && IsWordChar(s[1]) {
      var n := Span(s[1..], IsWordChar);
      var t := s[1..1 + n];
      var rest := s[1 + n..];
      assert r == [t] + FindMentions(rest);
      if k == 0 {
        assert 1 + n < |s| ==> s[1 + n] == s[1..][n];
        assert MentionAt(s, 0, t);
        assert r[0] == t;
      } else {
        assert r[k] == FindMentions(rest)[k - 1];
        FindMentionsSound(rest, k - 1);
        var i :| MentionAt(rest, i, r[k]);
        MentionShift(s, 1 + n, i, r[k]);
      }
    } else {
      assert r == FindMentions(s[1..]);
      FindMentionsSound(s[1..], k);
      var i :| MentionAt(s[1..], i, r[k]);
      MentionShift(s, 1, i, r[k]);
    }
  }

  /** A match at the start of the text: the maximal word run after the '@'. */
  lemma FindMentionsHead(s: string) returns (n: nat)
    requires |s| > 1 && s[0] == '@' && IsWordChar(s[1])
    ensures 1 <= n && 1 + n <= |s| && FindMentions(s) == [s[1..1 + n]] + FindMentions(s[1 + n..])
    ensures MentionAt(s, 0, s[1..1 + n])
    ensures forall k :: 1 <= k < 1 + n ==> IsWordChar(s[k])
  {
    n := Span(s[1..], IsWordChar);
    assert 1 + n < |s| ==> s[1 + n] == s[1..][n];
    forall k | 1 <= k < 1 + n ensures IsWordChar(s[k]) {
      assert s[k] == s[1..][k - 1];
    }
  }

  /**
   * Every '@' followed by a word character yields a match: its maximal word
   * run. Scanning never skips one, because a match ends where the word
   * characters end, and '@' is not one of them.
   */
  lemma FindMentionsComplete(s: string, i: nat)
    requires i + 1 < |s| && s[i] == '@' && IsWordChar(s[i + 1])
    ensures exists t :: t in FindMentions(s) && MentionAt(s, i, t)
  {
    MentionWordAt(s, i);
    MentionWordFound(s, i);
  }

  /** The word run after the character `s[i]`: what `@(\w+)` captures when that character is '@'. */
  function MentionWord(s: string, i: nat): string
    requires i < |s|
  {
    s[i + 1..i + 1 + Span(s[i + 1..], IsWordChar)]
  }

  /** The word run after an '@' is a mention standing there. */
  lemma MentionWordAt(s: string, i: nat)
    requires i < |s| && s[i] == '@'
    ensures MentionAt(s, i, MentionWord(s, i))
  {
    var n := Span(s[i + 1..], IsWordChar);
    assert i + 1 + n < |s| ==> s[i + 1 + n] == s[i + 1..][n];
  }

  /** The word run does not depend on the text before it. */
  lemma MentionWordShift(s: string, d: nat, j: nat, i: nat)
    requires i == d + j && i < |s|
    ensures MentionWord(s, i) == MentionWord(s[d..], j)
  {
    assert s[i + 1..] == s[d..][j + 1..];
  }

  /** The scan reaches every '@' followed by a word character and returns its word run. */
  lemma {:induction false} MentionWordFound(s: string, i: nat)
    requires i + 1 < |s| && s[i] == '@' && IsWordChar(s[i + 1])
    decreases |s|
    ensures MentionWord(s, i) in FindMentions(s)
  {
    if s[0] == '@' && IsWordChar(s[1]) {
      var n := FindMentionsHead(s);
      if i == 0 {
        assert MentionWord(s, 0) == s[1..1 + n];
      } else {
        var rest := s[1 + n..];
        var j := AfterHead(s, n, i);
        MentionWordFound(rest, j);
        FoundPast(s, 1 + n, j, i, [s[1..1 + n]], FindMentions(s), FindMentions(rest));
      }
    } else {
      assert i > 0;
      var rest := s[1..];
      assert FindMentions(s) == FindMentions(rest);
      assert rest[i - 1] == s[i] && rest[i] == s[i + 1];
      MentionWordFound(rest, i - 1);
      FoundPast(s, 1, i - 1, i, [], FindMentions(s), FindMentions(rest));
    }
  }

  /** The scan's step: a word run found in `s[d..]`, whose matches `rt` end those of `s`, is found in `s`. */
  lemma FoundPast(s: string, d: nat, j: nat, i: nat, head: seq<string>, r: seq<string>, rt: seq<string>)
    requires i == d + j && i < |s| && r == head + rt && MentionWord(s[d..], j) in rt
    ensures MentionWord(s, i) in r
  {
    MentionWordShift(s, d, j, i);
  }

  /** An '@' after the first match lies in the text the scan resumes on. */
  lemma AfterHead(s: string, n: nat, i: nat) returns (j: nat)
    requires 0 < i && i + 1 < |s| && s[i] == '@' && IsWordChar(s[i + 1])
    requires 1 + n <= |s| && forall k :: 1 <= k < 1 + n ==> IsWordChar(s[k])
    ensures i == 1 + n + j && j + 1 < |s[1 + n..]|
    ensures s[1 + n..][j] == '@' && IsWordChar(s[1 + n..][j + 1])
  {
    assert !IsWordChar(s[i]);
    j := i - (1 + n);
  }

  /** Text without an '@' mentions nothing. */
  lemma {:induction false} NoAtNoMentions(s: string)
    requires '@' !in s
    decreases |s|
    ensures FindMentions(s) == []
  {
    if s != [] {
      assert '@' !in s[1..];
      NoAtNoMentions(s[1..]);
    }
  }
}
