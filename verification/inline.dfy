/**
 * The inline pass of the reply formatter in `src/app/page.js`
 * (`renderInlineFormatting`): a line is cut into plain text, bold and inline
 * code tokens by scanning, from left to right, for the leftmost match of
 * `(\*\*[^*]+\*\*)|(`[^`]+`)`.
 */
module Inline {
  import opened Http

  datatype Token = Plain(value: string) | Bold(value: string) | Code(value: string)

  /** The characters a token was cut from. */
  function Source(t: Token): string {
    match t
    case Plain(v) => v
    case Bold(v) => "**" + v + "**"
    case Code(v) => "`" + v + "`"
  }

  function Unparse(ts: seq<Token>): string {
    if ts == [] then [] else Source(ts[0]) + Unparse(ts[1..])
  }

  /** `s[p..e]` is matched by `\*\*[^*]+\*\*`. */
  ghost predicate BoldSpan(s: string, p: int, e: int) {
    && 0 <= p && p + 5 <= e <= |s|
    && s[p] == '*' && s[p + 1] == '*' && s[e - 2] == '*' && s[e - 1] == '*'
    && forall k :: p + 2 <= k < e - 2 ==> s[k] != '*'
  }

  /** `s[p..e]` is matched by `` `[^`]+` ``. */
  ghost predicate CodeSpan(s: string, p: int, e: int) {
    && 0 <= p && p + 3 <= e <= |s|
    && s[p] == '`' && s[e - 1] == '`'
    && forall k :: p + 1 <= k < e - 1 ==> s[k] != '`'
  }

  /** The inline pattern matches some `s[p..e]`. */
  ghost predicate HasSpan(s: string) {
    exists p, e :: BoldSpan(s, p, e) || CodeSpan(s, p, e)
  }

  /** The first index at or after `i` holding `c`, or `|s|`. */
  function RunEnd(s: string, i: nat, c: char): (r: nat)
    requires i <= |s|
    decreases |s| - i
    ensures i <= r <= |s|
    ensures forall k :: i <= k < r ==> s[k] != c
    ensures r < |s| ==> s[r] == c
  {
    if i < |s| && s[i] != c then RunEnd(s, i + 1, c) else i
  }

  /** A match of the pattern: the token it yields and the index just after it. */
  datatype Match = Match(token: Token, end: nat)

  /** The match of the inline pattern starting exactly at `p`, if any. The
      first alternative needs `**`, the second a backtick, so at most one
      applies; `[^*]+` and `` [^`]+ `` take the whole run up to the next
      delimiter, and the match needs the closing delimiter right there. The
      token's value is the match with its delimiters removed. */
  function MatchAt(s: string, p: nat): (r: Option<Match>)
    requires p <= |s|
    ensures r.Some? ==> p < r.value.end <= |s|
    ensures r.Some? && r.value.token.Bold? ==> BoldSpan(s, p, r.value.end) && r.value.token.value == s[p + 2..r.value.end - 2]
    ensures r.Some? && r.value.token.Code? ==> CodeSpan(s, p, r.value.end) && r.value.token.value == s[p + 1..r.value.end - 1]
    ensures r.Some? ==> !r.value.token.Plain?
    ensures r.None? ==> forall e :: !BoldSpan(s, p, e) && !CodeSpan(s, p, e)
  {
    if p + 1 < |s| && s[p] == '*' && s[p + 1] == '*' then
      var k := RunEnd(s, p + 2, '*');
      if k > p + 2 && k + 1 < |s| && s[k + 1] == '*' then Some(Match(Bold(s[p + 2..k]), k + 2))
      else None
    else if p < |s| && s[p] == '`' then
      var k := RunEnd(s, p + 1, '`');
      if k > p + 1 && k < |s| then Some(Match(Code(s[p + 1..k]), k + 1))
      else None
    else None
  }

  /** A plain token for `v`, or nothing when `v` is empty. */
  function PlainIfAny(v: string): seq<Token> {
    if v != [] then [Plain(v)] else []
  }

  /** The tokens of `s[start..]`, where no match starts in `s[start..i]`.
      Mirrors the `exec` loop: the text before a match is pushed only when
      non-empty, then the match's token; the scan resumes after the match. */
  function Scan(s: string, start: nat, i: nat): (r: seq<Token>)
    requires start <= i <= |s|
    decreases |s| - i
  {
    if i == |s| then PlainIfAny(s[start..])
    else
      match MatchAt(s, i)
      case None => Scan(s, start, i + 1)
      case Some(m) => PlainIfAny(s[start..i]) + [m.token] + Scan(s, m.end, m.end)
  }

  /** `renderInlineFormatting(text)` as a token list. */
  function Tokenize(text: string): (r: seq<Token>)
    ensures WellFormed(r)
    ensures Unparse(r) == text
    ensures r == [] <==> text == []
    ensures LeftmostFrom(text, 0, r)
  {
    ScanWellFormed(text, 0, 0);
    ScanRoundTrip(text, 0, 0);
    ScanLeftmost(text, 0, 0);
    Scan(text, 0, 0)
  }

  /** `ts` is what the `exec` loop yields for `s` from index `a` on, stated
      over positions of `s`: a plain token is the text at its position and no
      match starts at any of its indices; a bold or code token is the match
      starting at its position; and the tokens use up the rest of `s`. */
  ghost predicate LeftmostFrom(s: string, a: nat, ts: seq<Token>)
    decreases |ts|
  {
    if ts == [] then a == |s|
    else
      var b := a + Width(ts[0]);
      && b <= |s|
      && (ts[0].Plain? ==> s[a..b] == ts[0].value && NoMatchIn(s, a, b))
      && (!ts[0].Plain? ==> MatchAt(s, a) == Some(Match(ts[0], b)))
      && LeftmostFrom(s, b, ts[1..])
  }

  /** The length of the text a token was cut from. */
  function Width(t: Token): nat {
    match t
    case Plain(v) => |v|
    case Bold(v) => |v| + 4
    case Code(v) => |v| + 2
  }

  /** No match of the inline pattern starts at any index in `[a, b)`. */
  ghost predicate NoMatchIn(s: string, a: nat, b: nat)
    requires b <= |s|
  {
    forall j :: a <= j < b ==> MatchAt(s, j).None?
  }

  /** Token shapes: plain text is non-empty, a bold value is non-empty without
      `*`, an inline-code value is non-empty without a backtick, and no two
      plain tokens are adjacent. */
  ghost predicate WellFormed(ts: seq<Token>) {
    && (forall k :: 0 <= k < |ts| ==> ts[k].value != [])
    && (forall k :: 0 <= k < |ts| && ts[k].Bold? ==> '*' !in ts[k].value)
    && (forall k :: 0 <= k < |ts| && ts[k].Code? ==> '`' !in ts[k].value)
    && (forall k :: 0 <= k < |ts| - 1 ==> !(ts[k].Plain? && ts[k + 1].Plain?))
  }

  lemma {:induction false} ScanWellFormed(s: string, start: nat, i: nat)
    requires start <= i <= |s|
    decreases |s| - i
    ensures WellFormed(Scan(s, start, i))
  {
    if i == |s| {
    } else {
      match MatchAt(s, i)
      case None =>
        ScanWellFormed(s, start, i + 1);
      case Some(m) =>
        ScanWellFormed(s, m.end, m.end);
        MatchShape(s, i);
        PrependWellFormed(s[start..i], m.token, Scan(s, m.end, m.end));
    }
  }

  /** A matched token satisfies the token shapes. */
  lemma MatchShape(s: string, p: nat)
    requires p <= |s| && MatchAt(s, p).Some?
    ensures var t := MatchAt(s, p).value.token;
      t.value != [] && (t.Bold? ==> '*' !in t.value) && (t.Code? ==> '`' !in t.value)
  {
    var m := MatchAt(s, p).value;
    if m.token.Bold? {
      assert m.token.value[0] == s[p + 2];
      forall k | 0 <= k < |m.token.value| ensures m.token.value[k] != '*' {
        assert m.token.value[k] == s[p + 2 + k];
      }
    } else {
      assert m.token.value[0] == s[p + 1];
      forall k | 0 <= k < |m.token.value| ensures m.token.value[k] != '`' {
        assert m.token.value[k] == s[p + 1 + k];
      }
    }
  }

  lemma PrependWellFormed(v: string, t: Token, rest: seq<Token>)
    requires !t.Plain? && t.value != [] && (t.Bold? ==> '*' !in t.value) && (t.Code? ==> '`' !in t.value)
    requires WellFormed(rest)
    ensures WellFormed(PlainIfAny(v) + [t] + rest)
  {
    var r := PlainIfAny(v) + [t] + rest;
    var n := |PlainIfAny(v)|;
    forall k | n + 1 <= k < |r| ensures r[k] == rest[k - n - 1] { }
  }

  lemma {:induction false} UnparseAppend(a: seq<Token>, b: seq<Token>)
    ensures Unparse(a + b) == Unparse(a) + Unparse(b)
  {
    if a == [] {
      assert a + b == b;
    } else {
      assert (a + b)[1..] == a[1..] + b;
      UnparseAppend(a[1..], b);
    }
  }

  lemma UnparsePlain(v: string)
    ensures Unparse(PlainIfAny(v)) == v
  {
    if v != [] { assert [Plain(v)][1..] == []; }
  }

  /** A match's token re-wrapped in its delimiters is exactly the matched text. */
  lemma MatchSource(s: string, p: nat)
    requires p <= |s| && MatchAt(s, p).Some?
    ensures Unparse([MatchAt(s, p).value.token]) == s[p..MatchAt(s, p).value.end]
  {
    var m := MatchAt(s, p).value;
    assert Unparse([m.token]) == Source(m.token) by {
      assert [m.token][1..] == [];
    }
    if m.token.Bold? {
      assert s[p..p + 2] == "**";
      assert s[m.end - 2..m.end] == "**";
      Delimited(s, p, m.end, "**");
    } else {
      assert s[p..p + 1] == "`";
      assert s[m.end - 1..m.end] == "`";
      Delimited(s, p, m.end, "`");
    }
  }

  /** A slice that starts and ends with the delimiter `d` is `d`, its inside, `d`. */
  lemma Delimited(s: string, a: nat, b: nat, d: string)
    requires a + 2 * |d| <= b <= |s|
    requires s[a..a + |d|] == d && s[b - |d|..b] == d
    ensures s[a..b] == d + s[a + |d|..b - |d|] + d
  {
    assert s[a..b] == s[a..a + |d|] + s[a + |d|..b - |d|] + s[b - |d|..b];
  }

  /** Re-wrapping bold values in `**` and code values in backticks and
      concatenating the tokens in order gives back the scanned text. */
  lemma {:induction false} ScanRoundTrip(s: string, start: nat, i: nat)
    requires start <= i <= |s|
    decreases |s| - i
    ensures Unparse(Scan(s, start, i)) == s[start..]
  {
    if i == |s| {
      UnparsePlain(s[start..]);
    } else {
      match MatchAt(s, i)
      case None =>
        ScanRoundTrip(s, start, i + 1);
      case Some(m) =>
        ScanRoundTrip(s, m.end, m.end);
        MatchRoundTrip(s, start, i, Scan(s, m.end, m.end));
    }
  }

  lemma MatchRoundTrip(s: string, start: nat, i: nat, rest: seq<Token>)
    requires start <= i < |s| && MatchAt(s, i).Some?
    requires Unparse(rest) == s[MatchAt(s, i).value.end..]
    ensures Unparse(PlainIfAny(s[start..i]) + [MatchAt(s, i).value.token] + rest) == s[start..]
  {
    var m := MatchAt(s, i).value;
    var head := PlainIfAny(s[start..i]) + [m.token];
    HeadRoundTrip(s, start, i);
    UnparseAppend(head, rest);
    SliceSplit(s, start, m.end);
  }

  lemma SliceSplit(s: string, a: nat, b: nat)
    requires a <= b <= |s|
    ensures s[a..] == s[a..b] + s[b..]
  {
  }

  lemma HeadRoundTrip(s: string, start: nat, i: nat)
    requires start <= i < |s| && MatchAt(s, i).Some?
    ensures Unparse(PlainIfAny(s[start..i]) + [MatchAt(s, i).value.token]) == s[start..MatchAt(s, i).value.end]
  {
    var m := MatchAt(s, i).value;
    UnparseAppend(PlainIfAny(s[start..i]), [m.token]);
    UnparsePlain(s[start..i]);
    MatchSource(s, i);
    assert s[start..m.end] == s[start..i] + s[i..m.end];
  }

  /** A span of a slice is a span of the whole string, shifted. */
  lemma SpanShift(s: string, a: nat, b: nat, p: int, e: int)
    requires a <= b <= |s|
    ensures BoldSpan(s[a..b], p, e) ==> BoldSpan(s, a + p, a + e)
    ensures CodeSpan(s[a..b], p, e) ==> CodeSpan(s, a + p, a + e)
  {
    var v := s[a..b];
    if BoldSpan(v, p, e) {
      forall k | a + p + 2 <= k < a + e - 2 ensures s[k] != '*' { assert s[k] == v[k - a]; }
    }
    if CodeSpan(v, p, e) {
      forall k | a + p + 1 <= k < a + e - 1 ensures s[k] != '`' { assert s[k] == v[k - a]; }
    }
  }

  /** A slice in which no match starts holds no span of the pattern at all. */
  lemma NoSpanInSlice(s: string, a: nat, b: nat)
    requires a <= b <= |s|
    requires forall j :: a <= j < b ==> MatchAt(s, j).None?
    ensures !HasSpan(s[a..b])
  {
    forall p, e ensures !BoldSpan(s[a..b], p, e) && !CodeSpan(s[a..b], p, e) {
      SpanShift(s, a, b, p, e);
      assert 0 <= p && a + p < b ==> MatchAt(s, a + p).None?;
    }
  }

  /** Plain tokens hold no complete bold or inline-code span. */
  ghost predicate PlainsHaveNoSpan(ts: seq<Token>) {
    forall k :: 0 <= k < |ts| && ts[k].Plain? ==> !HasSpan(ts[k].value)
  }

  /** The scan misses nothing: no match starts inside a plain token (the scan
      takes the leftmost match every time), so no plain token contains text
      the pattern would have matched. */
  lemma ScanPlainsHaveNoSpan(s: string, start: nat, i: nat)
    requires start <= i <= |s|
    requires forall j :: start <= j < i ==> MatchAt(s, j).None?
    ensures PlainsHaveNoSpan(Scan(s, start, i))
    ensures LeftmostFrom(s, start, Scan(s, start, i))
  {
    ScanLeftmost(s, start, i);
    ScanPlainsNoSpanInside(s, start, i);
  }

  lemma {:induction false} ScanPlainsNoSpanInside(s: string, start: nat, i: nat)
    requires start <= i <= |s|
    requires forall j :: start <= j < i ==> MatchAt(s, j).None?
    decreases |s| - i
    ensures PlainsHaveNoSpan(Scan(s, start, i))
  {
    if i == |s| {
      NoSpanInSlice(s, start, |s|);
      assert s[start..] == s[start..|s|];
    } else {
      match MatchAt(s, i)
      case None =>
        ScanPlainsNoSpanInside(s, start, i + 1);
      case Some(m) =>
        NoSpanInSlice(s, start, i);
        var rest := Scan(s, m.end, m.end);
        ScanPlainsNoSpanInside(s, m.end, m.end);
        var r := PlainIfAny(s[start..i]) + [m.token] + rest;
        var n := |PlainIfAny(s[start..i])|;
        forall k | n + 1 <= k < |r| ensures r[k] == rest[k - n - 1] { }
    }
  }

  lemma TokenizePlainsHaveNoSpan(text: string)
    ensures PlainsHaveNoSpan(Tokenize(text))
    ensures LeftmostFrom(text, 0, Tokenize(text))
  {
    ScanPlainsHaveNoSpan(text, 0, 0);
  }

  /** The scan takes the leftmost match every time. */
  lemma {:induction false} ScanLeftmost(s: string, start: nat, i: nat)
    requires start <= i <= |s|
    requires forall j :: start <= j < i ==> MatchAt(s, j).None?
    decreases |s| - i
    ensures LeftmostFrom(s, start, Scan(s, start, i))
  {
    if i == |s| {
      if start < |s| {
        assert [Plain(s[start..])][1..] == [];
        assert s[start..|s|] == s[start..];
      }
    } else {
      match MatchAt(s, i)
      case None =>
        ScanLeftmost(s, start, i + 1);
      case Some(m) =>
        ScanLeftmost(s, m.end, m.end);
        MatchLeftmost(s, start, i, Scan(s, m.end, m.end));
    }
  }

  lemma MatchLeftmost(s: string, start: nat, i: nat, rest: seq<Token>)
    requires start <= i < |s| && MatchAt(s, i).Some?
    requires forall j :: start <= j < i ==> MatchAt(s, j).None?
    requires LeftmostFrom(s, MatchAt(s, i).value.end, rest)
    ensures LeftmostFrom(s, start, PlainIfAny(s[start..i]) + [MatchAt(s, i).value.token] + rest)
  {
    var tail := [MatchAt(s, i).value.token] + rest;
    ConsMatch(s, i, rest);
    if start < i {
      ConsPlain(s, start, i, tail);
      assert PlainIfAny(s[start..i]) + [MatchAt(s, i).value.token] + rest == [Plain(s[start..i])] + tail;
    } else {
      assert PlainIfAny(s[start..i]) + [MatchAt(s, i).value.token] + rest == tail;
    }
  }

  /** A match followed by tokens that meet the description from its end. */
  lemma ConsMatch(s: string, i: nat, rest: seq<Token>)
    requires i < |s| && MatchAt(s, i).Some?
    requires LeftmostFrom(s, MatchAt(s, i).value.end, rest)
    ensures LeftmostFrom(s, i, [MatchAt(s, i).value.token] + rest)
  {
    var m := MatchAt(s, i).value;
    MatchLength(s, i);
    assert ([m.token] + rest)[1..] == rest;
  }

  /** A match's token re-wrapped in its delimiters is as long as the match. */
  lemma MatchLength(s: string, p: nat)
    requires p <= |s| && MatchAt(s, p).Some?
    ensures Width(MatchAt(s, p).value.token) == MatchAt(s, p).value.end - p
  {
  }

  /** Plain text in which no match starts, followed by tokens that meet the
      description from its end. */
  lemma ConsPlain(s: string, start: nat, i: nat, tail: seq<Token>)
    requires start < i <= |s|
    requires NoMatchIn(s, start, i)
    requires LeftmostFrom(s, i, tail)
    ensures LeftmostFrom(s, start, [Plain(s[start..i])] + tail)
  {
    assert ([Plain(s[start..i])] + tail)[1..] == tail;
  }

  /** The positional description pins the tokens down: two well-formed token
      lists that both meet it are equal. So the tokenizer's output is the
      only one the source allows. */
  lemma LeftmostUnique(s: string, a: nat, ts: seq<Token>, us: seq<Token>)
    requires LeftmostFrom(s, a, ts) && LeftmostFrom(s, a, us)
    requires WellFormed(ts) && WellFormed(us)
    ensures ts == us
  {
    SeparatedOf(ts);
    SeparatedOf(us);
    SeparatedUnique(s, a, ts, us);
  }

  /** What uniqueness needs of the token shapes: every token is non-empty
      and no two plain tokens are adjacent. */
  ghost predicate Separated(ts: seq<Token>) {
    && (forall k :: 0 <= k < |ts| ==> Width(ts[k]) > 0)
    && (forall k :: 0 <= k < |ts| - 1 ==> !(ts[k].Plain? && ts[k + 1].Plain?))
  }

  lemma SeparatedOf(ts: seq<Token>)
    requires WellFormed(ts)
    ensures Separated(ts)
  {
  }

  lemma {:induction false} SeparatedUnique(s: string, a: nat, ts: seq<Token>, us: seq<Token>)
    requires LeftmostFrom(s, a, ts) && LeftmostFrom(s, a, us)
    requires Separated(ts) && Separated(us)
    decreases |ts|
    ensures ts == us
  {
    EndsTogether(s, a, ts, us);
    if ts != [] {
      var b := UniqueStep(s, a, ts, us);
      SeparatedUnique(s, b, ts[1..], us[1..]);
      ConsEqual(ts, us);
    }
  }

  /** One step of the uniqueness proof: the heads agree, and both tails meet
      the description from the same position. */
  lemma UniqueStep(s: string, a: nat, ts: seq<Token>, us: seq<Token>) returns (b: nat)
    requires LeftmostFrom(s, a, ts) && LeftmostFrom(s, a, us)
    requires Separated(ts) && Separated(us) && ts != [] && us != []
    ensures ts[0] == us[0]
    ensures LeftmostFrom(s, b, ts[1..]) && LeftmostFrom(s, b, us[1..])
    ensures Separated(ts[1..]) && Separated(us[1..])
  {
    HeadsEqual(s, a, ts, us);
    SeparatedTail(ts);
    SeparatedTail(us);
    b := a + Width(ts[0]);
  }

  /** Both lists are empty exactly when `a` is the end of `s`. */
  lemma EndsTogether(s: string, a: nat, ts: seq<Token>, us: seq<Token>)
    requires LeftmostFrom(s, a, ts) && LeftmostFrom(s, a, us)
    requires Separated(ts) && Separated(us)
    ensures ts == [] <==> us == []
  {
    assert ts != [] ==> Width(ts[0]) > 0;
    assert us != [] ==> Width(us[0]) > 0;
  }

  lemma ConsEqual(ts: seq<Token>, us: seq<Token>)
    requires ts != [] && us != [] && ts[0] == us[0] && ts[1..] == us[1..]
    ensures ts == us
  {
    assert ts == [ts[0]] + ts[1..] && us == [us[0]] + us[1..];
  }

  lemma SeparatedTail(ts: seq<Token>)
    requires Separated(ts) && ts != []
    ensures Separated(ts[1..])
  {
    forall k | 0 <= k < |ts| - 1 ensures ts[1..][k] == ts[k + 1] { }
  }

  /** Both lists start with the same token. */
  lemma HeadsEqual(s: string, a: nat, ts: seq<Token>, us: seq<Token>)
    requires LeftmostFrom(s, a, ts) && LeftmostFrom(s, a, us)
    requires Separated(ts) && Separated(us)
    requires ts != [] && us != []
    ensures ts[0] == us[0]
  {
    if ts[0].Plain? && us[0].Plain? {
      PlainEnds(s, a, ts, us);
      PlainEnds(s, a, us, ts);
    }
    assert ts[0].Plain? ==> MatchAt(s, a).None?;
    assert us[0].Plain? ==> MatchAt(s, a).None?;
  }

  /** When both lists start with a plain token, the one in `ts` ends no earlier
      than the one in `us`: otherwise the token after it in `ts`, a match,
      would start inside the plain token of `us`. */
  lemma PlainEnds(s: string, a: nat, ts: seq<Token>, us: seq<Token>)
    requires LeftmostFrom(s, a, ts) && LeftmostFrom(s, a, us)
    requires Separated(ts) && Separated(us)
    requires ts != [] && us != [] && ts[0].Plain? && us[0].Plain?
    ensures |us[0].value| <= |ts[0].value|
  {
    var bt := a + |ts[0].value|;
    assert bt < |s| ==> ts[1..] != [] && !ts[1].Plain? && MatchAt(s, bt).Some?;
  }

}
