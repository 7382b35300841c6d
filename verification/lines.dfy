/**
 * The second pass of the reply formatter in `src/app/page.js`: a text chunk is
 * split into lines at `\r?\n`, and each line is classified, in this order, as
 * a bullet item, a numbered item, a line break (blank line) or a paragraph.
 */
module Lines {
  import opened Text

  /** `s.split(/\r?\n/)`. A separator is a `\n`, together with the `\r` just
      before it when there is one; the scan takes the leftmost separator, so
      in `"\r\r\n"` the first `\r` stays in the line. */
  function SplitLines(s: string): (r: seq<string>)
    decreases |s|
    ensures |r| == CountNewlines(s) + 1
    ensures forall k :: 0 <= k < |r| ==> '\n' !in r[k]
  {
    if s == [] then [[]]
    else if s[0] == '\n' then [[]] + SplitLines(s[1..])
    else if |s| >= 2 && s[0] == '\r' && s[1] == '\n' then [[]] + SplitLines(s[2..])
    else
      var rest := SplitLines(s[1..]);
      [[s[0]] + rest[0]] + rest[1..]
  }

  function CountNewlines(s: string): nat {
    if s == [] then 0 else (if s[0] == '\n' then 1 else 0) + CountNewlines(s[1..])
  }

  /** The lines joined back with `\n`. */
  function JoinLines(ls: seq<string>): string
    requires |ls| >= 1
  {
    if |ls| == 1 then ls[0] else ls[0] + "\n" + JoinLines(ls[1..])
  }

  /** `s` with every `\r\n` pair replaced by `\n`. */
  function NormalizeNewlines(s: string): string {
    if s == [] then []
    else if |s| >= 2 && s[0] == '\r' && s[1] == '\n' then "\n" + NormalizeNewlines(s[2..])
    else [s[0]] + NormalizeNewlines(s[1..])
  }

  lemma JoinConsFirst(c: char, ls: seq<string>)
    requires |ls| >= 1
    ensures JoinLines([[c] + ls[0]] + ls[1..]) == [c] + JoinLines(ls)
  {
    var l := [[c] + ls[0]] + ls[1..];
    if |ls| > 1 {
      assert l[1..] == ls[1..];
    }
  }

  /** Splitting at line separators and joining with `\n` only turns each
      `\r\n` into `\n`: no other character is lost, added or moved. */
  lemma {:induction false} SplitLinesRoundTrip(s: string)
    decreases |s|
    ensures JoinLines(SplitLines(s)) == NormalizeNewlines(s)
  {
    if s == [] {
    } else if s[0] == '\n' {
      SplitLinesRoundTrip(s[1..]);
      assert ([[]] + SplitLines(s[1..]))[1..] == SplitLines(s[1..]);
    } else if |s| >= 2 && s[0] == '\r' && s[1] == '\n' {
      SplitLinesRoundTrip(s[2..]);
      assert ([[]] + SplitLines(s[2..]))[1..] == SplitLines(s[2..]);
    } else {
      SplitLinesRoundTrip(s[1..]);
      JoinConsFirst(s[0], SplitLines(s[1..]));
    }
  }

  // ---- line classification ----

  datatype ListMarker = Bullet | Numbered

  datatype LineKind = ListItem(marker: ListMarker, text: string) | Blank | Paragraph(text: string)

  predicate IsBulletChar(c: char) {
    c == '-' || c == '*'
  }

  /** `/^\s*[-*]\s+/.test(t)`: optional whitespace, a marker, then whitespace. */
  ghost predicate BulletTest(t: string) {
    exists a :: BulletAt(t, a)
  }

  ghost predicate BulletAt(t: string, a: int) {
    0 <= a && a + 1 < |t| && SpaceBetween(t, 0, a) && IsBulletChar(t[a]) && IsSpace(t[a + 1])
  }

  /** `/^\s*\d+\.\s+/.test(t)`: optional whitespace, digits, a dot, then whitespace. */
  ghost predicate NumberedTest(t: string) {
    exists a, d :: NumberedAt(t, a, d)
  }

  ghost predicate NumberedAt(t: string, a: int, d: int) {
    0 <= a < d && d + 1 < |t| && SpaceBetween(t, 0, a) && DigitsBetween(t, a, d) && t[d] == '.' && IsSpace(t[d + 1])
  }

  /** `t[..n]` is the prefix a marker pattern strips from a trimmed line:
      `/^[-*]\s+/` for bullets and `/^\d+\.\s+/` for numbered items. */
  ghost predicate MarkerPrefix(m: ListMarker, t: string, n: int)
    requires 0 <= n <= |t|
  {
    match m
    case Bullet => n >= 2 && IsBulletChar(t[0]) && SpaceBetween(t, 1, n)
    case Numbered => exists d :: NumberPrefixAt(t, d, n)
  }

  ghost predicate NumberPrefixAt(t: string, d: int, n: int) {
    0 < d && d + 2 <= n <= |t| && DigitsBetween(t, 0, d) && t[d] == '.' && SpaceBetween(t, d + 1, n)
  }

  /** The index of the first non-digit at or after `i`. */
  function DigitRun(t: string, i: nat): (r: nat)
    requires i <= |t|
    decreases |t| - i
    ensures i <= r <= |t| && DigitsBetween(t, i, r)
    ensures r < |t| ==> !IsDigit(t[r])
  {
    if i < |t| && IsDigit(t[i]) then DigitRun(t, i + 1) else i
  }

  /** How `formatMessageContent` renders one line. The tests run on the trimmed
      line; a list item's text is the trimmed line with its marker and the
      whitespace after it removed; a paragraph keeps the line as it was. */
  function ClassifyLine(line: string): (k: LineKind)
    ensures k.ListItem? ==> k.text != [] && !IsSpace(k.text[0]) && !IsSpace(k.text[|k.text| - 1])
    ensures k.Paragraph? ==> k.text == line
    ensures k.Blank? <==> AllSpace(line)
  {
    var t := Trim(line);
    if |t| >= 2 && IsBulletChar(t[0]) && IsSpace(t[1]) then
      ListItem(Bullet, ItemAfter(t, 1))
    else
      var d := DigitRun(t, 0);
      if 0 < d && d + 1 < |t| && t[d] == '.' && IsSpace(t[d + 1]) then
        ListItem(Numbered, ItemAfter(t, d + 1))
      else if t == [] then Blank
      else Paragraph(line)
  }

  /** What follows the marker ending before `m` in a trimmed line, once the
      whitespace after the marker is dropped. */
  function ItemAfter(t: string, m: nat): (r: string)
    requires m < |t| && !IsSpace(t[|t| - 1])
    ensures r != [] && !IsSpace(r[0]) && !IsSpace(r[|r| - 1])
    ensures |r| <= |t| - m && r == t[|t| - |r|..] && SpaceBetween(t, m, |t| - |r|)
  {
    t[SkipSpace(t, m)..]
  }

  /** The tests are tried in order: a line is a bullet exactly when the bullet
      pattern matches its trimmed text, numbered exactly when only the number
      pattern does, blank exactly when it is all whitespace, and a paragraph
      otherwise. */
  lemma ClassifyOrder(line: string)
    ensures (ClassifyLine(line).ListItem? && ClassifyLine(line).marker == Bullet) <==> BulletTest(Trim(line))
    ensures (ClassifyLine(line).ListItem? && ClassifyLine(line).marker == Numbered) <==>
            (!BulletTest(Trim(line)) && NumberedTest(Trim(line)))
    ensures ClassifyLine(line).Paragraph? <==>
            (!AllSpace(line) && !BulletTest(Trim(line)) && !NumberedTest(Trim(line)))
  {
    var t := Trim(line);
    BulletOnTrimmed(t);
    NumberedOnTrimmed(t);
  }

  /** On a trimmed line the leading `\s*` of the bullet pattern matches nothing. */
  lemma BulletOnTrimmed(t: string)
    requires t == [] || !IsSpace(t[0])
    ensures BulletTest(t) <==> |t| >= 2 && IsBulletChar(t[0]) && IsSpace(t[1])
  {
    if |t| >= 2 && IsBulletChar(t[0]) && IsSpace(t[1]) {
      assert BulletAt(t, 0);
    }
  }

  /** On a trimmed line the number pattern matches exactly when the maximal
      run of leading digits is followed by a dot and whitespace. */
  lemma NumberedOnTrimmed(t: string)
    requires t == [] || !IsSpace(t[0])
    ensures var d := DigitRun(t, 0);
      NumberedTest(t) <==> 0 < d && d + 1 < |t| && t[d] == '.' && IsSpace(t[d + 1])
  {
    var d := DigitRun(t, 0);
    if 0 < d && d + 1 < |t| && t[d] == '.' && IsSpace(t[d + 1]) {
      assert NumberedAt(t, 0, d);
    }
    if NumberedTest(t) {
      var a, e :| NumberedAt(t, a, e);
      assert a == 0;
      assert !IsDigit(t[e]);
    }
  }

  /** A list item's text is what remains of the trimmed line after its marker
      prefix: `Trim(line) == t[..n] + text` where `t[..n]` is a bullet marker,
      or a number and a dot, followed by whitespace. */
  lemma ItemText(line: string)
    requires ClassifyLine(line).ListItem?
    ensures var t := Trim(line); var k := ClassifyLine(line); var n := |t| - |k.text|;
      0 < n && t[n..] == k.text && MarkerPrefix(k.marker, t, n)
  {
    var t := Trim(line);
    var k := ClassifyLine(line);
    if k.marker == Numbered {
      var d := DigitRun(t, 0);
      assert NumberPrefixAt(t, d, |t| - |k.text|);
    }
  }
}
