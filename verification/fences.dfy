/**
 * The first pass of the reply formatter in `src/app/page.js`: a reply is cut
 * into plain-text chunks and fenced code-block chunks by scanning, from left to
 * right, for the pattern ```` ```([\s\S]*?)``` ```` (an opening fence, the
 * shortest run of any characters, a closing fence).
 */
module Fences {
  import opened Http

  const Fence: string := "```"

  /** Three backticks start at index `i` of `s`. */
  predicate FenceAt(s: string, i: int) {
    0 <= i && i + 3 <= |s| && s[i] == '`' && s[i + 1] == '`' && s[i + 2] == '`'
  }

  ghost predicate HasFence(s: string) {
    exists i :: FenceAt(s, i)
  }

  /** `s` holds an opening fence and a later, non-overlapping closing fence:
      exactly the strings on which the code-block pattern finds a match. */
  ghost predicate HasFencePair(s: string) {
    exists i, j :: FenceAt(s, i) && FenceAt(s, j) && i + 3 <= j
  }

  /** The index of the first fence at or after `from`, if any. */
  function FirstFence(s: string, from: nat): (r: Option<nat>)
    decreases |s| - from
    ensures r.Some? ==> from <= r.value && FenceAt(s, r.value)
    ensures r.Some? ==> forall j :: from <= j < r.value ==> !FenceAt(s, j)
    ensures r.None? ==> forall j :: from <= j ==> !FenceAt(s, j)
  {
    if from + 3 > |s| then None
    else if FenceAt(s, from) then Some(from)
    else FirstFence(s, from + 1)
  }

  datatype Chunk = TextChunk(value: string) | CodeChunk(value: string)

  /** The characters a chunk was cut from: a code chunk is re-wrapped in fences. */
  function Source(c: Chunk): string {
    match c
    case TextChunk(v) => v
    case CodeChunk(v) => Fence + v + Fence
  }

  function Flatten(cs: seq<Chunk>): string {
    if cs == [] then [] else Source(cs[0]) + Flatten(cs[1..])
  }

  /** The chunk shapes the splitter promises: text chunks are non-empty and hold
      no complete fenced block, only the last chunk may be a text chunk holding
      a fence (an unclosed one), code chunks hold no fence, and no two text
      chunks are adjacent. */
  ghost predicate WellFormed(cs: seq<Chunk>) {
    && (forall k :: 0 <= k < |cs| && cs[k].TextChunk? ==> cs[k].value != [] && !HasFencePair(cs[k].value))
    && (forall k :: 0 <= k < |cs| - 1 && cs[k].TextChunk? ==> !HasFence(cs[k].value))
    && (forall k :: 0 <= k < |cs| && cs[k].CodeChunk? ==> !HasFence(cs[k].value))
    && (forall k :: 0 <= k < |cs| - 1 ==> cs[k].CodeChunk? || cs[k + 1].CodeChunk?)
  }

  /** The chunks of `t`. Mirrors the `exec` loop, with `t` the text from
      `lastIndex` on: the leftmost match starts at the first fence (any later
      opening fence would have a closing fence that also closes the first one),
      and the lazy body ends at the first fence after it. The text before a
      match is pushed only when non-empty, and so is the text after the last
      match. */
  function Split(t: string): (r: seq<Chunk>)
    decreases |t|
    ensures r == [] <==> t == []
  {
    match FirstFence(t, 0)
    case None => NonEmptyText(t)
    case Some(p) =>
      match FirstFence(t, p + 3)
      case None => NonEmptyText(t)
      case Some(q) => NonEmptyText(t[..p]) + [CodeChunk(t[p + 3..q])] + Split(t[q + 3..])
  }

  /** A text chunk for `t`, or nothing when `t` is empty. */
  function NonEmptyText(t: string): seq<Chunk> {
    if t != [] then [TextChunk(t)] else []
  }

  /** The chunks of a whole reply, as `formatMessageContent` collects them. */
  function SplitChunks(content: string): (r: seq<Chunk>)
    ensures WellFormed(r)
    ensures Flatten(r) == content
    ensures r == [] <==> content == []
    ensures LeftmostCut(content, r)
  {
    SplitWellFormed(content);
    SplitRoundTrip(content);
    Split(content)
  }

  /** A match of the code-block pattern starts at `j` of `t`: an opening fence
      with a closing fence somewhere after it. */
  ghost predicate OpensMatch(t: string, j: int) {
    FenceAt(t, j) && exists k :: j + 3 <= k && FenceAt(t, k)
  }

  /** `cs` is what the `exec` loop cuts `t` into, stated over positions of
      `t`, chunk by chunk: each chunk is the text at its position (a code
      chunk with its fences); no match starts anywhere inside a text chunk; a
      code chunk's closing fence is the first fence after its opening one; and
      the chunks use up `t`. */
  ghost predicate LeftmostCut(t: string, cs: seq<Chunk>)
    decreases |cs|
  {
    if cs == [] then t == []
    else
      var n := |Source(cs[0])|;
      && n <= |t|
      && t[..n] == Source(cs[0])
      && (cs[0].TextChunk? ==> forall j :: 0 <= j < n ==> !OpensMatch(t, j))
      && (cs[0].CodeChunk? ==> forall k :: 3 <= k < n - 3 ==> !FenceAt(t, k))
      && LeftmostCut(t[n..], cs[1..])
  }

  /** The splitter cuts at the leftmost match every time, and each match ends
      at the first closing fence. */
  lemma {:induction false} SplitLeftmost(t: string)
    decreases |t|
    ensures LeftmostCut(t, Split(t))
  {
    var first := FirstFence(t, 0);
    if first.Some? && FirstFence(t, first.value + 3).Some? {
      var p := first.value;
      var q := FirstFence(t, p + 3).value;
      SplitLeftmost(t[q + 3..]);
      SplitOnMatch(t, p, q);
      MatchCut(t, p, q, Split(t[q + 3..]));
    } else {
      assert Split(t) == NonEmptyText(t);
      if first.None? {
        NoFenceInSlice(t, 0, |t|);
        assert t[0..|t|] == t;
      } else {
        NoPairAfterUnclosed(t, first.value);
      }
      WholeTextCut(t);
    }
  }

  /** The text before the first fence, the match it opens, and chunks cut
      from what follows the match. */
  lemma MatchCut(t: string, p: nat, q: nat, rest: seq<Chunk>)
    requires p + 3 <= q && FenceAt(t, p) && FenceAt(t, q)
    requires forall j :: 0 <= j < p ==> !FenceAt(t, j)
    requires forall j :: p + 3 <= j < q ==> !FenceAt(t, j)
    requires LeftmostCut(t[q + 3..], rest)
    ensures LeftmostCut(t, NonEmptyText(t[..p]) + [CodeChunk(t[p + 3..q])] + rest)
  {
    CodeCut(t, p, q, rest);
    var tail := [CodeChunk(t[p + 3..q])] + rest;
    if p > 0 {
      TextCut(t, p, tail);
      assert NonEmptyText(t[..p]) + [CodeChunk(t[p + 3..q])] + rest == [TextChunk(t[..p])] + tail;
    } else {
      assert t[p..] == t;
      assert NonEmptyText(t[..p]) + [CodeChunk(t[p + 3..q])] + rest == tail;
    }
  }

  /** A match from the fence at `p` to the first fence `q` after it, followed
      by chunks cut from what comes after the closing fence. */
  lemma CodeCut(t: string, p: nat, q: nat, rest: seq<Chunk>)
    requires p + 3 <= q && FenceAt(t, p) && FenceAt(t, q)
    requires forall j :: p + 3 <= j < q ==> !FenceAt(t, j)
    requires LeftmostCut(t[q + 3..], rest)
    ensures LeftmostCut(t[p..], [CodeChunk(t[p + 3..q])] + rest)
  {
    var u := t[p..];
    var cs := [CodeChunk(t[p + 3..q])] + rest;
    var n := q - p + 3;
    assert |Source(cs[0])| == n;
    FencedCut(t, p, q);
    assert u[..n] == t[p..q + 3];
    assert t[p..q + 3] == Fence + t[p + 3..q] + Fence by {
      assert t[p..p + 3] == Fence && t[q..q + 3] == Fence;
      assert t[p..q + 3] == t[p..p + 3] + t[p + 3..q] + t[q..q + 3];
    }
    forall k | 3 <= k < n - 3 ensures !FenceAt(u, k) {
      assert !FenceAt(t, p + k);
    }
    assert u[n..] == t[q + 3..];
    assert cs[1..] == rest;
  }

  /** Text before the first fence, followed by chunks cut from the fence on. */
  lemma TextCut(t: string, p: nat, tail: seq<Chunk>)
    requires 0 < p <= |t|
    requires forall j :: 0 <= j < p ==> !FenceAt(t, j)
    requires LeftmostCut(t[p..], tail)
    ensures LeftmostCut(t, [TextChunk(t[..p])] + tail)
  {
    var cs := [TextChunk(t[..p])] + tail;
    assert cs[1..] == tail;
  }

  /** A match can only start where a fenced pair does. */
  lemma OpensPair(t: string, j: int)
    ensures OpensMatch(t, j) ==> HasFencePair(t)
  {
    if OpensMatch(t, j) {
      var k :| j + 3 <= k && FenceAt(t, k);
      assert FenceAt(t, j) && FenceAt(t, k);
    }
  }

  /** A text without a fenced pair is one text chunk (or none when empty). */
  lemma WholeTextCut(t: string)
    requires !HasFencePair(t)
    ensures LeftmostCut(t, NonEmptyText(t))
  {
    if t != [] {
      forall j | 0 <= j < |t| ensures !OpensMatch(t, j) {
        OpensPair(t, j);
      }
      assert t[..|t|] == t && t[|t|..] == [];
      assert [TextChunk(t)][1..] == [];
    }
  }

  /** Every chunk list the splitter produces has the promised shapes, and is
      cut at the leftmost matches. */
  lemma SplitWellFormed(t: string)
    ensures WellFormed(Split(t))
    ensures LeftmostCut(t, Split(t))
  {
    SplitShapes(t);
    SplitLeftmost(t);
  }

  lemma {:induction false} SplitShapes(t: string)
    decreases |t|
    ensures WellFormed(Split(t))
  {
    var first := FirstFence(t, 0);
    if first.Some? && FirstFence(t, first.value + 3).Some? {
      var q := FirstFence(t, first.value + 3).value;
      SplitShapes(t[q + 3..]);
      MatchShapes(t, first.value, q);
    } else {
      UnmatchedShapes(t);
    }
  }

  /** The match case of `SplitShapes`, given the shapes of the rest. */
  lemma MatchShapes(t: string, p: nat, q: nat)
    requires FirstFence(t, 0) == Some(p) && FirstFence(t, p + 3) == Some(q)
    requires WellFormed(Split(t[q + 3..]))
    ensures WellFormed(Split(t))
  {
    SplitOnMatch(t, p, q);
    NoFenceInSlice(t, 0, p);
    NoFenceInSlice(t, p + 3, q);
    PrependMatchWellFormed(t[..p], t[p + 3..q], Split(t[q + 3..]));
  }

  /** Where the first fence opens a match, `Split` cuts it off and goes on after it. */
  lemma SplitOnMatch(t: string, p: nat, q: nat)
    requires FirstFence(t, 0) == Some(p) && FirstFence(t, p + 3) == Some(q)
    ensures q + 3 <= |t|
    ensures Split(t) == NonEmptyText(t[..p]) + [CodeChunk(t[p + 3..q])] + Split(t[q + 3..])
  {
  }

  /** The case of `SplitShapes` where no match is found: one text chunk. */
  lemma UnmatchedShapes(t: string)
    requires FirstFence(t, 0).None? || FirstFence(t, FirstFence(t, 0).value + 3).None?
    ensures WellFormed(Split(t))
  {
    var first := FirstFence(t, 0);
    assert Split(t) == NonEmptyText(t);
    if first.None? {
      NoFenceInSlice(t, 0, |t|);
      assert t[0..|t|] == t;
    } else {
      NoPairAfterUnclosed(t, first.value);
    }
  }

  lemma PrependMatchWellFormed(t: string, code: string, rest: seq<Chunk>)
    requires !HasFence(t) && !HasFence(code) && WellFormed(rest)
    ensures WellFormed(NonEmptyText(t) + [CodeChunk(code)] + rest)
  {
    var r := NonEmptyText(t) + [CodeChunk(code)] + rest;
    var n := |NonEmptyText(t)|;
    forall k | 0 <= k < |r| && r[k].TextChunk?
      ensures r[k].value != [] && !HasFencePair(r[k].value)
      ensures k < |r| - 1 ==> !HasFence(r[k].value)
    {
      if k >= n + 1 { assert r[k] == rest[k - n - 1]; }
    }
    forall k | 0 <= k < |r| && r[k].CodeChunk?
      ensures !HasFence(r[k].value)
    {
      if k >= n + 1 { assert r[k] == rest[k - n - 1]; }
    }
    forall k | 0 <= k < |r| - 1
      ensures r[k].CodeChunk? || r[k + 1].CodeChunk?
    {
      if k >= n + 1 { assert r[k] == rest[k - n - 1] && r[k + 1] == rest[k - n]; }
    }
  }

  lemma NoFenceInSlice(s: string, a: nat, b: nat)
    requires a <= b <= |s|
    requires forall j :: a <= j < b ==> !FenceAt(s, j)
    ensures !HasFence(s[a..b]) && !HasFencePair(s[a..b])
  {
    forall i | FenceAt(s[a..b], i)
      ensures false
    {
      assert FenceAt(s, a + i);
    }
  }

  /** With the first fence at `p` and no fence after it, `t` holds no fenced pair. */
  lemma NoPairAfterUnclosed(t: string, p: nat)
    requires FenceAt(t, p)
    requires forall j :: 0 <= j < p ==> !FenceAt(t, j)
    requires forall j :: p + 3 <= j ==> !FenceAt(t, j)
    ensures !HasFencePair(t)
  {
  }

  /** A text without a fenced pair is kept whole, as a single text chunk. */
  lemma SplitWithoutPair(t: string)
    ensures HasFencePair(t) || Split(t) == NonEmptyText(t)
  {
    var first := FirstFence(t, 0);
    if first.Some? && FirstFence(t, first.value + 3).Some? {
      assert FenceAt(t, first.value) && FenceAt(t, FirstFence(t, first.value + 3).value);
    }
  }

  lemma {:induction false} FlattenAppend(a: seq<Chunk>, b: seq<Chunk>)
    ensures Flatten(a + b) == Flatten(a) + Flatten(b)
  {
    if a == [] {
      assert a + b == b;
    } else {
      assert (a + b)[1..] == a[1..] + b;
      FlattenAppend(a[1..], b);
    }
  }

  lemma FlattenText(t: string)
    ensures Flatten(NonEmptyText(t)) == t
  {
    if t != [] { assert [TextChunk(t)][1..] == []; }
  }

  lemma FlattenCode(v: string)
    ensures Flatten([CodeChunk(v)]) == Fence + v + Fence
  {
    assert [CodeChunk(v)][1..] == [];
  }

  /** `t` cut around the fences at `p` and `q`. */
  lemma FencedCut(t: string, p: nat, q: nat)
    requires p + 3 <= q && FenceAt(t, p) && FenceAt(t, q)
    ensures t == t[..p] + Fence + t[p + 3..q] + Fence + t[q + 3..]
  {
    FenceSlice(t, p);
    FenceSlice(t, q);
    SliceAt(t, q, q + 3);
    SliceAt(t, p + 3, q);
    SliceAt(t, p, p + 3);
    SliceAt(t, 0, p);
    Regroup(t[..p], t[p + 3..q], t[q + 3..]);
  }

  lemma FenceSlice(t: string, i: nat)
    requires FenceAt(t, i)
    ensures t[i..i + 3] == Fence
  {
  }

  lemma Regroup(a: string, b: string, c: string)
    ensures a + (Fence + (b + (Fence + c))) == a + Fence + b + Fence + c
  {
  }

  /** The suffix of `t` from `i` is the piece up to `j` and the suffix from `j`. */
  lemma SliceAt(t: string, i: nat, j: nat)
    requires i <= j <= |t|
    ensures t[i..] == t[i..j] + t[j..]
  {
  }

  /** One match, the text before it and the chunks after it flatten back to `t`. */
  lemma FlattenMatch(t: string, p: nat, q: nat, rest: seq<Chunk>)
    requires p + 3 <= q && FenceAt(t, p) && FenceAt(t, q)
    requires Flatten(rest) == t[q + 3..]
    ensures Flatten(NonEmptyText(t[..p]) + [CodeChunk(t[p + 3..q])] + rest) == t
  {
    var head := NonEmptyText(t[..p]) + [CodeChunk(t[p + 3..q])];
    FlattenHead(t[..p], t[p + 3..q]);
    FlattenAppend(head, rest);
    FencedCut(t, p, q);
  }

  lemma FlattenHead(before: string, code: string)
    ensures Flatten(NonEmptyText(before) + [CodeChunk(code)]) == before + Fence + code + Fence
  {
    FlattenAppend(NonEmptyText(before), [CodeChunk(code)]);
    FlattenText(before);
    FlattenCode(code);
  }

  /** Re-wrapping every code chunk in fences and concatenating the chunks in
      order gives back exactly the text that was split. */
  lemma {:induction false} SplitRoundTrip(t: string)
    decreases |t|
    ensures Flatten(Split(t)) == t
  {
    var first := FirstFence(t, 0);
    if first.Some? && FirstFence(t, first.value + 3).Some? {
      var p := first.value;
      var q := FirstFence(t, p + 3).value;
      SplitOnMatch(t, p, q);
      SplitRoundTrip(t[q + 3..]);
      FlattenMatch(t, p, q, Split(t[q + 3..]));
    } else {
      assert Split(t) == NonEmptyText(t);
      FlattenText(t);
    }
  }
}
