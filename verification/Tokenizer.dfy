/** Splitting a command line with the pattern
    "((?:[^"\\]|\\.)*)"  |  '((?:[^'\\]|\\.)*)'  |  (\S+)
    where matches are taken leftmost first and alternatives in order. */
module Tokenizer {
  import opened Wrappers

  /** What `\s` matches. */
  predicate IsBlank(c: char) {
    c in {'\t', '\n', '\U{000C}', '\r', ' '}
  }

  // ----------------------------------------------------------- the pattern

  /** A body of quoted text: `(?:[^q\\]|\\.)*`, where the dot is no newline. */
  predicate IsBody(q: char, t: string) {
    || t == ""
    || (t[0] != q && t[0] != '\\' && IsBody(q, t[1..]))
    || (|t| >= 2 && t[0] == '\\' && t[1] != '\n' && IsBody(q, t[2..]))
  }

  /** How long the body is at the front of `t`, if a closing quote follows it. */
  function BodyLength(q: char, t: string): Option<nat> {
    if t == "" then None
    else if t[0] == q then Some(0)
    else if t[0] != '\\' then Longer(BodyLength(q, t[1..]), 1)
    else if |t| >= 2 && t[1] != '\n' then Longer(BodyLength(q, t[2..]), 2)
    else None
  }

  function Longer(n: Option<nat>, more: nat): Option<nat> {
    if n.Some? then Some(n.value + more) else None
  }

  /** `BodyLength` finds every way the quoted alternative can match, and there is at
      most one: greediness never matters. */
  lemma {:induction false} BodyLengthIsTheMatch(q: char, t: string, n: nat)
    requires q != '\\'
    ensures BodyLength(q, t) == Some(n) <==> n < |t| && t[n] == q && IsBody(q, t[..n])
  {
    if t == "" || t[0] == q {
      if 0 < n < |t| { assert t[..n][0] == q; }
    } else if t[0] != '\\' {
      if n > 0 {
        BodyLengthIsTheMatch(q, t[1..], n - 1);
        if n < |t| { assert t[..n][1..] == t[1..][..n - 1]; }
      }
    } else if |t| >= 2 && t[1] != '\n' {
      if n >= 2 {
        BodyLengthIsTheMatch(q, t[2..], n - 2);
        if n < |t| { assert t[..n][2..] == t[2..][..n - 2]; }
      }
    }
  }

  /** `\S+` takes as much as it can. */
  function BareLength(t: string): (n: nat)
    ensures n <= |t|
    ensures forall k :: 0 <= k < n ==> !IsBlank(t[k])
    ensures n < |t| ==> IsBlank(t[n])
  {
    if t == "" || IsBlank(t[0]) then 0 else 1 + BareLength(t[1..])
  }

  /** A match, with the captured text; a bare word is not unescaped. */
  datatype Match = Match(start: nat, end: nat, text: string, quoted: bool)

  function Quoted(s: string, i: nat, q: char): Option<Match>
    requires i < |s|
  {
    if s[i] != q then None
    else match BodyLength(q, s[i + 1..])
      case None => None
      case Some(n) =>
        BodyLengthIsInside(q, s[i + 1..]);
        Some(Match(i, i + n + 2, s[i + 1..][..n], true))
  }

  lemma {:induction false} BodyLengthIsInside(q: char, t: string)
    ensures BodyLength(q, t).Some? ==> BodyLength(q, t).value < |t|
  {
    if t != "" && t[0] != q {
      if t[0] != '\\' { BodyLengthIsInside(q, t[1..]); }
      else if |t| >= 2 && t[1] != '\n' { BodyLengthIsInside(q, t[2..]); }
    }
  }

  /** The match starting at `i`, if any: the alternatives in order. */
  function MatchAt(s: string, i: nat): (m: Option<Match>)
    requires i < |s|
    ensures m.Some? ==> m.value.start == i < m.value.end <= |s|
    ensures m.None? <==> IsBlank(s[i])
  {
    var double := Quoted(s, i, '"');
    var single := Quoted(s, i, '\'');
    BodyLengthIsInside('"', s[i + 1..]);
    BodyLengthIsInside('\'', s[i + 1..]);
    if double.Some? then double
    else if single.Some? then single
    else if IsBlank(s[i]) then None
    else
      var n := BareLength(s[i..]);
      assert n > 0 by { assert !IsBlank(s[i..][0]); }
      Some(Match(i, i + n, s[i..][..n], false))
  }

  /** The text from `i` to `n` is in closed quotes. */
  ghost predicate InQuotes(s: string, i: nat, n: nat) {
    i < n < |s| && s[i] in {'"', '\''} && s[n] == s[i] && IsBody(s[i], s[i + 1..n])
  }

  lemma QuotedIs(s: string, i: nat)
    requires i < |s| && s[i] in {'"', '\''}
    ensures match Quoted(s, i, s[i])
      case None => forall n: nat :: !InQuotes(s, i, n)
      case Some(m) => m.end >= i + 2 && InQuotes(s, i, m.end - 1) && m.quoted && m.text == s[i + 1..m.end - 1]
  {
    var t := s[i + 1..];
    BodyLengthIsInside(s[i], t);
    if n :| BodyLength(s[i], t) == Some(n) {
      BodyLengthIsTheMatch(s[i], t, n);
      assert t[..n] == s[i + 1..i + 1 + n];
    }
    forall n: nat | InQuotes(s, i, n) ensures BodyLength(s[i], t) == Some(n - i - 1) {
      assert t[..n - i - 1] == s[i + 1..n];
      BodyLengthIsTheMatch(s[i], t, n - i - 1);
    }
  }

  /** What a match captures: a quoted text without its quotes, a bare word whole. A match is
      quoted whenever a quote is closed again. */
  lemma MatchTextIs(s: string, i: nat)
    requires i < |s| && MatchAt(s, i).Some?
    ensures var m := MatchAt(s, i).value;
      if m.quoted then m.end >= i + 2 && InQuotes(s, i, m.end - 1) && m.text == s[i + 1..m.end - 1]
      else
        && (forall n: nat :: !InQuotes(s, i, n))
        && m.text == s[i..m.end]
        && (forall k :: i <= k < m.end ==> !IsBlank(s[k]))
        && (m.end < |s| ==> IsBlank(s[m.end]))
  {
    hide BodyLength, IsBody;
    var m := MatchAt(s, i).value;
    if s[i] == '"' || s[i] == '\'' { QuotedIs(s, i); }
    if !m.quoted {
      var n := BareLength(s[i..]);
      assert s[i..][..n] == s[i..m.end];
      forall k | i <= k < m.end ensures !IsBlank(s[k]) { assert s[i..][k - i] == s[k]; }
    }
  }

  /** All matches from `i` on. */
  function Matches(s: string, i: nat): seq<Match>
    requires i <= |s|
    decreases |s| - i
  {
    if i == |s| then []
    else match MatchAt(s, i)
      case None => Matches(s, i + 1)
      case Some(m) => [m] + Matches(s, m.end)
  }

  ghost predicate Covers(m: Match, k: nat) {
    m.start <= k < m.end
  }

  /** Matches come in order and do not overlap; every position outside them is blank. */
  lemma {:induction false} MatchesCoverTheInput(s: string, i: nat)
    requires i <= |s|
    ensures forall m :: m in Matches(s, i) ==> i <= m.start < m.end <= |s|
    ensures forall j, k :: 0 <= j < k < |Matches(s, i)| ==> Matches(s, i)[j].end <= Matches(s, i)[k].start
    ensures forall k :: i <= k < |s| && !IsBlank(s[k]) ==> exists m :: m in Matches(s, i) && Covers(m, k)
    decreases |s| - i
  {
    if i < |s| {
      match MatchAt(s, i) {
        case None => MatchesCoverTheInput(s, i + 1);
        case Some(m) =>
          MatchesCoverTheInput(s, m.end);
          var rest := Matches(s, m.end);
          assert Matches(s, i) == [m] + rest;
          forall k | i <= k < |s| && !IsBlank(s[k]) ensures exists m' :: m' in Matches(s, i) && Covers(m', k) {
            if k < m.end {
              assert m in Matches(s, i) && Covers(m, k);
            } else {
              var m' :| m' in rest && Covers(m', k);
              assert m' in Matches(s, i);
            }
          }
      }
    }
  }

  /** Each non-blank character lies in exactly one match. */
  lemma NonBlanksAreMatchedOnce(s: string, k: nat)
    requires k < |s| && !IsBlank(s[k])
    ensures exists j :: 0 <= j < |Matches(s, 0)| && Covers(Matches(s, 0)[j], k)
    ensures var ms := Matches(s, 0);
      forall j, j' | 0 <= j < |ms| && 0 <= j' < |ms| :: Covers(ms[j], k) && Covers(ms[j'], k) ==> j == j'
  {
    MatchesCoverTheInput(s, 0);
    var m :| m in Matches(s, 0) && Covers(m, k);
  }

  // -------------------------------------------------------------- the words

  /** Replaces every `\q` by `q`, left to right. */
  function Unbackslash(s: string, q: char): string {
    if |s| < 2 then s
    else if s[0] == '\\' && s[1] == q then [q] + Unbackslash(s[2..], q)
    else [s[0]] + Unbackslash(s[1..], q)
  }

  ghost predicate HasNoEscape(s: string, q: char) {
    forall k :: 0 <= k < |s| - 1 ==> !(s[k] == '\\' && s[k + 1] == q)
  }

  lemma EscapeInFront(v: string, q: char)
    ensures Unbackslash(['\\', q] + v, q) == [q] + Unbackslash(v, q)
  {
    assert (['\\', q] + v)[2..] == v;
  }

  lemma UnbackslashStep(c: char, tail: string, q: char)
    requires tail == "" || !(c == '\\' && tail[0] == q)
    ensures Unbackslash([c] + tail, q) == [c] + Unbackslash(tail, q)
  {
    assert ([c] + tail)[1..] == tail;
    if tail == "" { assert [c] + tail == [c] && [c] + Unbackslash(tail, q) == [c]; }
  }

  lemma Regroup(c: char, u: string, x: string, v: string)
    ensures [c] + (u + x + v) == ([c] + u) + x + v
  {
  }

  lemma TailHasNoEscape(u: string, q: char)
    requires u != "" && q != '\\' && HasNoEscape(u, q)
    ensures HasNoEscape(u[1..], q)
    ensures u[1..] == "" || !(u[0] == '\\' && u[1..][0] == q)
  {
    var u' := u[1..];
    forall k | 0 <= k < |u'| - 1 ensures !(u'[k] == '\\' && u'[k + 1] == q) {
      assert u'[k] == u[k + 1] && u'[k + 1] == u[k + 2];
    }
    if u' != "" { assert u'[0] == u[1]; }
  }

  lemma {:induction false} NothingIsReplaced(u: string, q: char)
    requires q != '\\' && HasNoEscape(u, q)
    ensures Unbackslash(u, q) == u
  {
    if u != "" {
      TailHasNoEscape(u, q);
      NothingIsReplaced(u[1..], q);
      UnbackslashStep(u[0], u[1..], q);
      assert u == [u[0]] + u[1..];
    }
  }

  /** The first `\q` loses its backslash, and the search goes on behind it; without one
      nothing changes. */
  lemma {:induction false} FirstEscapeIsReplaced(u: string, v: string, q: char)
    requires q != '\\' && HasNoEscape(u, q)
    ensures Unbackslash(u + ['\\', q] + v, q) == u + [q] + Unbackslash(v, q)
    ensures Unbackslash(u, q) == u
  {
    NothingIsReplaced(u, q);
    if u == "" {
      EscapeInFront(v, q);
      assert u + ['\\', q] + v == ['\\', q] + v && u + [q] + Unbackslash(v, q) == [q] + Unbackslash(v, q);
    } else {
      hide Unbackslash, HasNoEscape;
      var c, u' := u[0], u[1..];
      assert u == [c] + u';
      TailHasNoEscape(u, q);
      FirstEscapeIsReplaced(u', v, q);
      var tail := u' + ['\\', q] + v;
      assert tail[0] == if u' == "" then '\\' else u'[0];
      Regroup(c, u', ['\\', q], v);
      UnbackslashStep(c, tail, q);
      Regroup(c, u', [q], Unbackslash(v, q));
    }
  }

  function Unescape(s: string): string {
    Unbackslash(Unbackslash(s, '"'), '\'')
  }

  /** What one match contributes; an empty capture is dropped. */
  function Word(m: Match): seq<string> {
    if m.text == "" then [] else if m.quoted then [Unescape(m.text)] else [m.text]
  }

  function Words(ms: seq<Match>): seq<string> {
    if ms == [] then [] else Word(ms[0]) + Words(ms[1..])
  }

  function Split(s: string): seq<string> {
    Words(Matches(s, 0))
  }

  lemma {:induction false} WordsOfConcat(a: seq<Match>, b: seq<Match>)
    ensures Words(a + b) == Words(a) + Words(b)
  {
    hide Word;
    if a == [] {
      assert a + b == b;
    } else {
      WordsOfConcat(a[1..], b);
      assert (a + b)[1..] == a[1..] + b;
    }
  }

  method SplitCommandLine(input: string) returns (words: seq<string>)
    ensures words == Split(input)
  {
    var ms := Matches(input, 0);
    hide Unescape;
    words := [];
    for k := 0 to |ms|
      invariant words == Words(ms[..k])
    {
      var m := ms[k];
      if m.text != "" {
        words := words + [if m.quoted then Unescape(m.text) else m.text];
      }
      assert ms[..k + 1] == ms[..k] + [m];
      WordsOfConcat(ms[..k], [m]);
      assert Words([m]) == Word(m);
    }
    assert ms[..|ms|] == ms;
  }

  // --------------------------------------------------------- the round trip

  /** How an argument can be written down. */
  datatype Style = Unquoted | InSingle | InDouble

  function QuoteOf(style: Style): char {
    if style.InSingle? then '\'' else '"'
  }

  /** An argument, and the blanks behind it. */
  datatype Token = Token(style: Style, text: string, gap: string)

  function Escape(q: char, a: string): string {
    if a == "" then "" else (if a[0] == q then ['\\', q] else [a[0]]) + Escape(q, a[1..])
  }

  /** An argument as it is, or in quotes with the quotes inside it escaped. */
  function Render(t: Token): string {
    if t.style.Unquoted? then t.text else [QuoteOf(t.style)] + Escape(QuoteOf(t.style), t.text) + [QuoteOf(t.style)]
  }

  predicate AllBlank(s: string) {
    forall k :: 0 <= k < |s| ==> IsBlank(s[k])
  }

  /** A bare argument is not empty, holds no blank and does not start with a quote; a quoted
      one holds no backslash. */
  predicate Fits(t: Token) {
    && AllBlank(t.gap)
    && if t.style.Unquoted? then
         t.text != "" && t.text[0] != '"' && t.text[0] != '\'' && forall k :: 0 <= k < |t.text| ==> !IsBlank(t.text[k])
       else '\\' !in t.text
  }

  /** All arguments fit, and there is a blank between any two. */
  predicate Fit(ts: seq<Token>) {
    ts == [] || (Fits(ts[0]) && (|ts| > 1 ==> ts[0].gap != "") && Fit(ts[1..]))
  }

  function Line(ts: seq<Token>): string {
    if ts == [] then "" else Render(ts[0]) + ts[0].gap + Line(ts[1..])
  }

  /** The arguments that are not empty. */
  function Texts(ts: seq<Token>): seq<string> {
    if ts == [] then [] else (if ts[0].text == "" then [] else [ts[0].text]) + Texts(ts[1..])
  }

  lemma {:induction false} EscapedBody(q: char, a: string, rest: string)
    requires '\\' !in a && q != '\n' && q != '\\'
    ensures BodyLength(q, Escape(q, a) + [q] + rest) == Some(|Escape(q, a)|)
  {
    var t := Escape(q, a) + [q] + rest;
    if a == "" {
      assert t[0] == q;
    } else {
      EscapedBody(q, a[1..], rest);
      var tail := Escape(q, a[1..]) + [q] + rest;
      if a[0] == q {
        assert t == ['\\', q] + tail && t[2..] == tail;
      } else {
        assert a[0] in a;
        assert t == [a[0]] + tail && t[1..] == tail;
      }
    }
  }

  lemma NoBackslash(a: string)
    requires a != "" && '\\' !in a
    ensures a[0] != '\\' && '\\' !in a[1..] && a == [a[0]] + a[1..]
  {
    assert a[0] in a;
  }

  lemma {:induction false} NothingToUnescape(a: string, q: char)
    requires '\\' !in a
    ensures Unbackslash(a, q) == a
  {
    if a != "" {
      NoBackslash(a);
      NothingToUnescape(a[1..], q);
      UnbackslashStep(a[0], a[1..], q);
    }
  }

  lemma {:induction false} UnescapeEscaped(q: char, a: string)
    requires '\\' !in a && q != '\\'
    ensures Unbackslash(Escape(q, a), q) == a
  {
    assert Unbackslash("", q) == "";
    hide Unbackslash;
    if a != "" {
      NoBackslash(a);
      UnescapeEscaped(q, a[1..]);
      var e' := Escape(q, a[1..]);
      if a[0] == q {
        EscapeInFront(e', q);
      } else {
        UnbackslashStep(a[0], e', q);
      }
    }
  }

  lemma {:induction false} OtherQuoteIsNoEscape(q: char, other: char, a: string)
    requires '\\' !in a && q != '\\' && other != q
    ensures Unbackslash(Escape(q, a), other) == Escape(q, a)
  {
    assert Unbackslash("", other) == "";
    hide Unbackslash;
    if a != "" {
      NoBackslash(a);
      OtherQuoteIsNoEscape(q, other, a[1..]);
      var e' := Escape(q, a[1..]);
      if a[0] == q {
        UnbackslashStep(q, e', other);
        UnbackslashStep('\\', [q] + e', other);
        assert ['\\', q] + e' == ['\\'] + ([q] + e');
      } else {
        UnbackslashStep(a[0], e', other);
      }
    }
  }

  /** Both passes of unescaping, on text in which only one kind of quotes is escaped. */
  lemma UnescapeUndoesEscape(a: string)
    requires '\\' !in a
    ensures Unescape(Escape('"', a)) == a && Unescape(Escape('\'', a)) == a
  {
    UnescapeEscaped('"', a);
    NothingToUnescape(a, '\'');
    OtherQuoteIsNoEscape('\'', '"', a);
    UnescapeEscaped('\'', a);
  }

  lemma EscapeIsEmpty(q: char, a: string)
    ensures Escape(q, a) == "" <==> a == ""
  {
  }

  lemma WordsFrom(s: string, i: nat)
    requires i < |s|
    ensures MatchAt(s, i).Some? ==>
      Words(Matches(s, i)) == Word(MatchAt(s, i).value) + Words(Matches(s, MatchAt(s, i).value.end))
    ensures MatchAt(s, i).None? ==> Words(Matches(s, i)) == Words(Matches(s, i + 1))
  {
    hide MatchAt, Word;
    if MatchAt(s, i).Some? {
      var rest := Matches(s, MatchAt(s, i).value.end);
      assert Matches(s, i)[1..] == rest;
    }
  }

  /** A quoted argument at position `i` is one match. */
  lemma QuotedMatch(s: string, i: nat, t: Token, rest: string)
    requires !t.style.Unquoted? && Fits(t) && i <= |s| && s[i..] == Render(t) + rest
    ensures i < |s| && MatchAt(s, i) == Some(Match(i, i + |Render(t)|, Escape(QuoteOf(t.style), t.text), true))
  {
    var q := QuoteOf(t.style);
    var e := Escape(q, t.text);
    assert s[i] == s[i..][0] == q;
    assert s[i + 1..] == s[i..][1..] == e + [q] + rest;
    EscapedBody(q, t.text, rest);
    assert s[i + 1..][..|e|] == e;
  }

  /** So is a bare one, if a blank or nothing follows. */
  lemma BareMatch(s: string, i: nat, t: Token, rest: string)
    requires t.style.Unquoted? && Fits(t) && i <= |s| && s[i..] == t.text + rest && (rest != "" ==> IsBlank(rest[0]))
    ensures i < |s| && MatchAt(s, i) == Some(Match(i, i + |t.text|, t.text, false))
  {
    assert s[i] == s[i..][0] == t.text[0];
    var n := BareLength(s[i..]);
    forall k | 0 <= k < |t.text| ensures !IsBlank(s[i..][k]) { assert s[i..][k] == t.text[k]; }
    assert rest != "" ==> s[i..][|t.text|] == rest[0];
    assert n == |t.text| && s[i..][..n] == t.text;
  }

  /** The word of one argument. */
  lemma RenderedWord(s: string, i: nat, t: Token, rest: string)
    requires Fits(t) && i <= |s| && s[i..] == Render(t) + rest && (rest != "" ==> IsBlank(rest[0]))
    ensures i + |Render(t)| <= |s| && s[i + |Render(t)|..] == rest
    ensures Words(Matches(s, i)) == (if t.text == "" then [] else [t.text]) + Words(Matches(s, i + |Render(t)|))
  {
    hide MatchAt, Words, Matches, Escape;
    assert s[i..][|Render(t)|..] == rest;
    if t.style.Unquoted? {
      BareMatch(s, i, t, rest);
    } else {
      QuotedMatch(s, i, t, rest);
      EscapeIsEmpty(QuoteOf(t.style), t.text);
      UnescapeUndoesEscape(t.text);
    }
    WordsFrom(s, i);
  }

  lemma {:induction false} BlanksHaveNoWords(s: string, i: nat, gap: string, rest: string)
    requires AllBlank(gap) && i <= |s| && s[i..] == gap + rest
    ensures i + |gap| <= |s| && s[i + |gap|..] == rest
    ensures Words(Matches(s, i)) == Words(Matches(s, i + |gap|))
    decreases |gap|
  {
    hide MatchAt, Words, Matches;
    if gap != "" {
      assert s[i] == s[i..][0] == gap[0];
      assert s[i + 1..] == s[i..][1..] == gap[1..] + rest;
      BlankIsNoMatch(s, i);
      WordsFrom(s, i);
      BlanksHaveNoWords(s, i + 1, gap[1..], rest);
    } else {
      assert gap + rest == rest;
    }
  }

  lemma FitsAndIsFollowedByBlank(ts: seq<Token>)
    requires ts != [] && Fit(ts)
    ensures var behind := ts[0].gap + Line(ts[1..]);
      && Fits(ts[0]) && AllBlank(ts[0].gap) && Fit(ts[1..])
      && (behind != "" ==> IsBlank(behind[0]))
  {
    if ts[0].gap == "" { assert ts[1..] == []; }
  }

  /** The first argument of a line, and the blanks behind it. */
  lemma TokenWords(s: string, i: nat, t: Token, rest: string)
    requires i <= |s| && s[i..] == Render(t) + (t.gap + rest) && Fits(t)
    requires t.gap + rest != "" ==> IsBlank((t.gap + rest)[0])
    ensures i + |Render(t)| + |t.gap| <= |s| && s[i + |Render(t)| + |t.gap|..] == rest
    ensures Words(Matches(s, i)) ==
            (if t.text == "" then [] else [t.text]) + Words(Matches(s, i + |Render(t)| + |t.gap|))
  {
    hide Render, MatchAt, IsBlank, Words, Matches, AllBlank;
    RenderedWord(s, i, t, t.gap + rest);
    BlanksHaveNoWords(s, i + |Render(t)|, t.gap, rest);
  }

  lemma {:induction false} LineWords(s: string, i: nat, ts: seq<Token>)
    requires i <= |s| && s[i..] == Line(ts) && Fit(ts)
    ensures Words(Matches(s, i)) == Texts(ts)
    decreases |ts|
  {
    hide Render, MatchAt, IsBlank, AllBlank, Fits, Words, Matches, Fit, Line;
    if ts == [] {
      NoWords(s, i);
    } else {
      var t, rest := ts[0], Line(ts[1..]);
      LineOfFirst(ts);
      FitsAndIsFollowedByBlank(ts);
      TokenWords(s, i, t, rest);
      LineWords(s, i + |Render(t)| + |t.gap|, ts[1..]);
    }
  }

  lemma NoWords(s: string, i: nat)
    requires i <= |s| && s[i..] == Line([])
    ensures Words(Matches(s, i)) == []
  {
    assert i == |s|;
  }

  lemma LineOfFirst(ts: seq<Token>)
    requires ts != []
    ensures Line(ts) == Render(ts[0]) + (ts[0].gap + Line(ts[1..]))
  {
  }

  lemma BlankIsNoMatch(s: string, i: nat)
    requires i < |s| && IsBlank(s[i])
    ensures MatchAt(s, i).None?
  {
  }

  /** Any arguments, each written bare, in single or in double quotes, with any blanks in
      front, between and behind, are split into exactly these arguments, but for empty
      ones, which are dropped. */
  lemma SplitOfLine(lead: string, ts: seq<Token>)
    requires AllBlank(lead) && Fit(ts)
    ensures Split(lead + Line(ts)) == Texts(ts)
    ensures (forall k :: 0 <= k < |ts| ==> ts[k].text != "") ==>
      |Split(lead + Line(ts))| == |ts| && forall k :: 0 <= k < |ts| ==> Split(lead + Line(ts))[k] == ts[k].text
  {
    hide Matches, Line, Fit, Texts;
    var s := lead + Line(ts);
    assert s[0..] == s;
    BlanksHaveNoWords(s, 0, lead, Line(ts));
    LineWords(s, |lead|, ts);
    if forall k :: 0 <= k < |ts| ==> ts[k].text != "" {
      AllTexts(ts);
    }
  }

  lemma {:induction false} AllTexts(ts: seq<Token>)
    requires forall k :: 0 <= k < |ts| ==> ts[k].text != ""
    ensures |Texts(ts)| == |ts| && forall k :: 0 <= k < |ts| ==> Texts(ts)[k] == ts[k].text
  {
    if ts != [] {
      forall k | 0 <= k < |ts[1..]| ensures ts[1..][k].text != "" { assert ts[1..][k] == ts[k + 1]; }
      AllTexts(ts[1..]);
      forall k | 0 < k < |ts| ensures Texts(ts)[k] == ts[k].text { assert ts[1..][k - 1] == ts[k]; }
    }
  }

  // ------------------------------------------- double quotes and single spaces

  /** The arguments in double quotes, separated by one space. */
  function Quotes(args: seq<string>): seq<Token> {
    if args == [] then []
    else [Token(InDouble, args[0], if |args| == 1 then "" else " ")] + Quotes(args[1..])
  }

  function NonEmpty(args: seq<string>): seq<string> {
    if args == [] then [] else (if args[0] == "" then [] else [args[0]]) + NonEmpty(args[1..])
  }

  lemma {:induction false} QuotesFit(args: seq<string>)
    requires forall a :: a in args ==> '\\' !in a
    ensures Fit(Quotes(args)) && Texts(Quotes(args)) == NonEmpty(args) && |Quotes(args)| == |args|
  {
    if args != [] {
      assert args[0] in args && forall a :: a in args[1..] ==> a in args;
      QuotesFit(args[1..]);
      assert Quotes(args)[1..] == Quotes(args[1..]);
    }
  }

  /** Splitting a list of backslash-free arguments, quoted and joined by spaces, gives back
      the list without its empty arguments, hence the list itself exactly when none is
      empty. */
  lemma SplitOfJoin(args: seq<string>)
    requires forall a :: a in args ==> '\\' !in a
    ensures Split(Line(Quotes(args))) == NonEmpty(args)
    ensures Split(Line(Quotes(args))) == args <==> "" !in args
  {
    QuotesFit(args);
    SplitOfLine("", Quotes(args));
    assert "" + Line(Quotes(args)) == Line(Quotes(args));
    NonEmptyIsAll(args);
  }

  lemma {:induction false} NonEmptyIsAll(args: seq<string>)
    ensures |NonEmpty(args)| <= |args|
    ensures NonEmpty(args) == args <==> "" !in args
    ensures "" !in NonEmpty(args)
  {
    if args != [] {
      NonEmptyIsAll(args[1..]);
      assert args == [args[0]] + args[1..];
      if "" !in args {
        assert "" !in args[1..];
      }
    }
  }
}
