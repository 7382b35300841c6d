/**
 * `formatMessageContent` in `src/app/page.js` as a list of blocks instead of
 * React elements: code chunks become `<pre>` blocks holding the trimmed code,
 * and every line of a text chunk becomes a list item, a line break or a
 * paragraph whose content is the inline token list.
 */
module Render {
  import opened Text
  import Fences
  import Lines
  import Inline

  datatype Block =
    | Pre(code: string)
    | Item(marker: Lines.ListMarker, parts: seq<Inline.Token>)
    | LineBreak
    | Para(parts: seq<Inline.Token>)

  /** One line of a text chunk. List items render their item text, paragraphs
      the untrimmed line. */
  function RenderLine(line: string): (b: Block)
    ensures b.LineBreak? <==> AllSpace(line)
    ensures b.Item? <==> Lines.ClassifyLine(line).ListItem?
    ensures b.Para? <==> Lines.ClassifyLine(line).Paragraph?
    ensures b.Item? ==> b.marker == Lines.ClassifyLine(line).marker
    ensures b.Para? ==> Inline.Unparse(b.parts) == line
    ensures b.Item? ==> Inline.Unparse(b.parts) == Lines.ClassifyLine(line).text
    ensures b.Item? || b.Para? ==> b.parts != [] && Inline.WellFormed(b.parts)
    ensures b.Para? ==> Inline.LeftmostFrom(line, 0, b.parts)
    ensures b.Item? ==> Inline.LeftmostFrom(Lines.ClassifyLine(line).text, 0, b.parts)
  {
    match Lines.ClassifyLine(line)
    case ListItem(m, text) => Item(m, Inline.Tokenize(text))
    case Blank => LineBreak
    case Paragraph(text) =>
      assert text != [];
      Para(Inline.Tokenize(text))
  }

  /** A paragraph's or item's tokens are the only well-formed token list
      that meets the inline tokenizer's leftmost-match description. */
  lemma RenderLineTokens(line: string, ts: seq<Inline.Token>)
    requires Inline.WellFormed(ts)
    ensures RenderLine(line).Para? && Inline.LeftmostFrom(line, 0, ts) ==> RenderLine(line).parts == ts
    ensures RenderLine(line).Item? && Inline.LeftmostFrom(Lines.ClassifyLine(line).text, 0, ts) ==> RenderLine(line).parts == ts
  {
    var b := RenderLine(line);
    if b.Para? && Inline.LeftmostFrom(line, 0, ts) {
      Inline.LeftmostUnique(line, 0, b.parts, ts);
    }
    if b.Item? && Inline.LeftmostFrom(Lines.ClassifyLine(line).text, 0, ts) {
      Inline.LeftmostUnique(Lines.ClassifyLine(line).text, 0, b.parts, ts);
    }
  }

  function RenderLines(ls: seq<string>): (r: seq<Block>)
    ensures |r| == |ls|
    ensures forall k :: 0 <= k < |r| ==> r[k] == RenderLine(ls[k])
  {
    if ls == [] then [] else [RenderLine(ls[0])] + RenderLines(ls[1..])
  }

  function RenderChunk(c: Fences.Chunk): seq<Block> {
    match c
    case CodeChunk(v) => [Pre(Trim(v))]
    case TextChunk(v) => RenderLines(Lines.SplitLines(v))
  }

  function RenderChunks(cs: seq<Fences.Chunk>): seq<Block> {
    if cs == [] then [] else RenderChunk(cs[0]) + RenderChunks(cs[1..])
  }

  /** The shapes every rendered block has: code blocks hold no fence, and list
      items and paragraphs have at least one well-formed inline token. */
  ghost predicate BlocksOk(bs: seq<Block>) {
    && (forall k :: 0 <= k < |bs| && bs[k].Pre? ==> !Fences.HasFence(bs[k].code))
    && (forall k :: 0 <= k < |bs| && (bs[k].Item? || bs[k].Para?) ==> bs[k].parts != [] && Inline.WellFormed(bs[k].parts))
  }

  /** `formatMessageContent(content)`. */
  function FormatMessage(content: string): (r: seq<Block>)
    ensures content == [] ==> r == []
    ensures BlocksOk(r)
  {
    var cs := Fences.SplitChunks(content);
    RenderChunksOk(cs);
    RenderChunks(cs)
  }

  lemma {:induction false} RenderChunksOk(cs: seq<Fences.Chunk>)
    requires forall k :: 0 <= k < |cs| && cs[k].CodeChunk? ==> !Fences.HasFence(cs[k].value)
    ensures BlocksOk(RenderChunks(cs))
  {
    if cs != [] {
      RenderChunksOk(cs[1..]);
      var head := RenderChunk(cs[0]);
      if cs[0].CodeChunk? {
        TrimKeepsNoFence(cs[0].value);
      }
      assert BlocksOk(head);
      BlocksOkAppend(head, RenderChunks(cs[1..]));
    }
  }

  lemma BlocksOkAppend(a: seq<Block>, b: seq<Block>)
    requires BlocksOk(a) && BlocksOk(b)
    ensures BlocksOk(a + b)
  {
    forall k | |a| <= k < |a + b| ensures (a + b)[k] == b[k - |a|] { }
  }

  /** Trimming cannot create a fence. */
  lemma TrimKeepsNoFence(v: string)
    ensures Fences.HasFence(Trim(v)) ==> Fences.HasFence(v)
  {
    var r := Trim(v);
    var lo :| SpaceMargins(v, lo, r);
    if Fences.HasFence(r) {
      var i :| Fences.FenceAt(r, i);
      assert r[i] == v[lo + i] && r[i + 1] == v[lo + i + 1] && r[i + 2] == v[lo + i + 2];
      assert Fences.FenceAt(v, lo + i);
    }
  }

  /** A reply without a closed code fence is rendered line by line, as one
      text chunk. */
  lemma NoClosedFenceRendersLines(content: string)
    requires content != [] && !Fences.HasFencePair(content)
    ensures FormatMessage(content) == RenderLines(Lines.SplitLines(content))
  {
    Fences.SplitWithoutPair(content);
    var cs := Fences.SplitChunks(content);
    assert cs == [Fences.TextChunk(content)];
    assert cs[1..] == [];
    var lines := RenderLines(Lines.SplitLines(content));
    assert RenderChunk(cs[0]) == lines;
    assert RenderChunks(cs) == lines + [];
    assert lines + [] == lines;
  }
}
