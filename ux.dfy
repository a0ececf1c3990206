/**
 * The text shaping of the console dashboard (UX.cs): fixed-width chunking
 * of the three text panes, the nearest-neighbour scaling of a FIGlet block,
 * the scale clamp of `Write`, and the reasoning pane's `Conversation`
 * buffer. Cursor moves, colours and the FIGlet fonts are not modelled.
 */
module Ux {
  import opened Text

  /** Spaces put in front of every scaled line. */
  const LeftPadding: nat := 12
  /** Beyond this length the reasoning buffer stops growing. */
  const ConversationMaxLength: nat := 1500
  /** Width of a reasoning line. */
  const ConversationLineLength: nat := 140
  /** Width of a reply line: `(int)(140 / 3)`. */
  const ReplyLineLength: nat := ConversationLineLength / 3
  /** Width of an evaluation line: `(int)(140 / 2.5)`, which is 2*140/5 exactly. */
  const EvaluationLineLength: nat := ConversationLineLength * 2 / 5
  /** The marker appended once the buffer is over its cap. */
  const Ellipsis: string := " ..."

  // ---------------------------------------------------------------------
  // Chunking

  /** The number of chunks of width `width` needed for `n` characters. */
  function ChunkCount(n: nat, width: nat): nat
    requires width > 0
  {
    (n + width - 1) / width
  }

  /**
   * `Enumerable.Range(0, count).Select(i => text.Substring(i * width,
   * Math.Min(width, text.Length - i * width)))`.
   */
  function Chunks(text: string, width: nat): (r: seq<string>)
    requires width > 0
    ensures |r| == ChunkCount(|text|, width)
  {
    seq(ChunkCount(|text|, width), i requires 0 <= i < ChunkCount(|text|, width) =>
      ChunkStartInText(|text|, width, i);
      text[i * width..i * width + Min(width, |text| - i * width)])
  }

  function Min(a: int, b: int): int {
    if a <= b then a else b
  }

  /** A chunk index below the count starts inside the text. */
  lemma ChunkStartInText(n: nat, width: nat, i: int)
    requires width > 0 && 0 <= i < ChunkCount(n, width)
    ensures 0 <= i * width < n
  {
    var q := ChunkCount(n, width);
    CountBounds(n, width);
    MulLe(i + 1, q, width);
  }

  lemma MulLe(a: int, b: int, c: nat)
    requires a <= b
    ensures a * c <= b * c
  {
  }

  /** The count is the ceiling of n / width. */
  lemma CountBounds(n: nat, width: nat)
    requires width > 0
    ensures var q := ChunkCount(n, width);
      && q * width >= n && (q * width) - width < n
      && (n == 0 <==> q == 0)
  {
    var q := ChunkCount(n, width);
    var m := n + width - 1;
    assert m == q * width + m % width;
  }

  /**
   * Chunking yields the ceiling of length / width chunks, all of length
   * `width` except the last, whose length is between 1 and `width`; empty
   * text yields none.
   */
  lemma ChunkLengths(text: string, width: nat)
    requires width > 0
    ensures var r := Chunks(text, width);
      && |text| <= |r| * width < |text| + width
      && (|r| == 0 <==> |text| == 0)
      && (forall i :: 0 <= i < |r| - 1 ==> |r[i]| == width)
      && (|r| > 0 ==> 1 <= |r[|r| - 1]| <= width)
  {
    var r := Chunks(text, width);
    var n := |text|;
    CountBounds(n, width);
    forall i | 0 <= i < |r| - 1 ensures |r[i]| == width {
      MulLe(i + 1, |r| - 1, width);
    }
    if |r| > 0 {
      ChunkStartInText(n, width, |r| - 1);
    }
  }

  /** Concatenating the chunks gives back the text. */
  lemma ChunksConcat(text: string, width: nat)
    requires width > 0
    ensures Concat(Chunks(text, width)) == text
  {
    var r := Chunks(text, width);
    ChunksPrefix(text, width, |r|);
    CountBounds(|text|, width);
    assert r[..|r|] == r;
  }

  /** The first `k` chunks concatenate to the first `k * width` characters (or all of them). */
  lemma {:induction false} ChunksPrefix(text: string, width: nat, k: nat)
    requires width > 0 && k <= ChunkCount(|text|, width)
    ensures Concat(Chunks(text, width)[..k]) == text[..Min(k * width, |text|)]
  {
    var r := Chunks(text, width);
    if k > 0 {
      ChunksPrefix(text, width, k - 1);
      assert r[..k][..k - 1] == r[..k - 1];
      var a := (k - 1) * width;
      var b := PrefixStep(|text|, width, k);
      assert r[k - 1] == text[a..b];
      assert text[..a] + text[a..b] == text[..b];
    }
  }

  /** The end of chunk `k - 1`, which is also the length of the first `k` chunks. */
  lemma PrefixStep(n: nat, width: nat, k: nat) returns (b: int)
    requires width > 0 && 0 < k <= ChunkCount(n, width)
    ensures var a := (k - 1) * width;
      && 0 <= a < n && b == a + Min(width, n - a)
      && Min(a, n) == a && Min(k * width, n) == b
  {
    ChunkStartInText(n, width, k - 1);
    var a := (k - 1) * width;
    assert a + width == k * width;
    b := a + Min(width, n - a);
  }

  /** Every chunk has between 1 and `width` characters. */
  lemma ChunkSizes(text: string, width: nat)
    requires width > 0
    ensures forall c :: c in Chunks(text, width) ==> 1 <= |c| <= width
  {
    ChunkLengths(text, width);
  }

  /**
   * Every line of the reasoning, reply and evaluation panes has between 1
   * and 140, 46 and 56 characters respectively, and a pane's lines put
   * back together give its text.
   */
  lemma PaneChunksFit(text: string)
    ensures ConversationLineLength == 140 && ReplyLineLength == 46 && EvaluationLineLength == 56
    ensures forall c :: c in Chunks(text, ConversationLineLength) ==> 1 <= |c| <= 140
    ensures forall c :: c in Chunks(text, ReplyLineLength) ==> 1 <= |c| <= 46
    ensures forall c :: c in Chunks(text, EvaluationLineLength) ==> 1 <= |c| <= 56
    ensures Concat(Chunks(text, ReplyLineLength)) == text && Concat(Chunks(text, EvaluationLineLength)) == text
  {
    assert ReplyLineLength == 46 && EvaluationLineLength == 56;
    ChunkSizes(text, ConversationLineLength);
    ChunkSizes(text, ReplyLineLength);
    ChunkSizes(text, EvaluationLineLength);
    ChunksConcat(text, ReplyLineLength);
    ChunksConcat(text, EvaluationLineLength);
  }

  // ---------------------------------------------------------------------
  // Scaling a FIGlet block

  /** `Write`'s clamp: a scale below 1 becomes 1. */
  function EffectiveScale(scale: int): (r: nat)
    ensures r >= 1
    ensures scale >= 1 ==> r == scale
    ensures scale < 1 ==> r == 1
  {
    if scale < 1 then 1 else scale
  }

  /** The lines of a block: '\r' removed, split on '\n'. */
  function AsciiLines(ascii: string): seq<string> {
    SplitOn(ReplaceAll(ascii, "\r", ""), "\n")
  }

  /** Every character of `line` repeated `scale` times. */
  function Stretch(line: string, scale: nat): (r: string)
    ensures |r| == scale * |line|
    decreases |line|
  {
    if |line| == 0 then ""
    else Stretch(line[..|line| - 1], scale) + Repeat(line[|line| - 1], scale)
  }

  /** Nearest-neighbour: character `i` of the stretched line is character `i / scale` of the line. */
  lemma {:induction false} StretchAt(line: string, scale: nat, i: int)
    requires 0 <= i < scale * |line|
    ensures Stretch(line, scale)[i] == line[i / scale]
    decreases |line|
  {
    var n := |line|;
    var init := line[..n - 1];
    assert scale * n == scale * (n - 1) + scale;
    if i < scale * (n - 1) {
      StretchAt(init, scale, i);
      DivBelow(i, scale, n - 1);
    } else {
      DivLast(i, scale, n - 1);
    }
  }

  lemma DivBelow(i: int, scale: nat, m: int)
    requires 0 <= i < scale * m
    ensures scale > 0 && i / scale < m
  {
  }

  lemma DivLast(i: int, scale: nat, m: nat)
    requires scale * m <= i < scale * m + scale
    ensures i / scale == m
  {
    var q := i / scale;
    assert i == q * scale + i % scale;
    if q < m {
      MulLe(q + 1, m, scale);
    } else if q > m {
      MulLe(m + 1, q, scale);
    }
  }

  /** One output line: the padding, then the stretched line. */
  function ScaledLine(line: string, scale: nat, pad: nat): (r: string)
    ensures |r| == pad + scale * |line|
  {
    Spaces(pad) + Stretch(line, scale)
  }

  /** The laid-out line: `pad` spaces, then each character `scale` times. */
  lemma ScaledLineAt(line: string, scale: nat, pad: nat, j: int)
    requires 0 <= j < pad + scale * |line|
    ensures j < pad ==> ScaledLine(line, scale, pad)[j] == ' '
    ensures j >= pad ==> (scale > 0 && (j - pad) / scale < |line|
                          && ScaledLine(line, scale, pad)[j] == line[(j - pad) / scale])
  {
    if j >= pad {
      DivBelow(j - pad, scale, |line|);
      StretchAt(line, scale, j - pad);
    }
  }

  /** Each input line, `scale` times in a row, in input order. */
  function OutputLines(lines: seq<string>, scale: nat, pad: nat): (r: seq<string>)
    ensures |r| == |lines| * scale
    decreases |lines|
  {
    if |lines| == 0 then []
    else OutputLines(lines[..|lines| - 1], scale, pad) + Repeat(ScaledLine(lines[|lines| - 1], scale, pad), scale)
  }

  /** Output line `i * scale + k` is the scaled input line `i`, for every copy `k`. */
  lemma {:induction false} OutputLinesAt(lines: seq<string>, scale: nat, pad: nat, i: int, k: int)
    requires 0 <= i < |lines| && 0 <= k < scale
    ensures i * scale + k < |lines| * scale
    ensures OutputLines(lines, scale, pad)[i * scale + k] == ScaledLine(lines[i], scale, pad)
    decreases |lines|
  {
    var n := |lines|;
    var init := lines[..n - 1];
    assert n * scale == (n - 1) * scale + scale;
    if i < n - 1 {
      MulLe(i + 1, n - 1, scale);
      OutputLinesAt(init, scale, pad, i, k);
    } else {
      assert i * scale == (n - 1) * scale;
    }
  }

  /** The lines, each followed by the terminator `AppendLine` writes. */
  function Terminated(ls: seq<string>, nl: string): string
    decreases |ls|
  {
    if |ls| == 0 then "" else Terminated(ls[..|ls| - 1], nl) + ls[|ls| - 1] + nl
  }

  /** The text of a terminated sequence of lines is the lines and terminators in order. */
  lemma {:induction false} TerminatedAsConcat(ls: seq<string>, nl: string)
    ensures Terminated(ls, nl) == Concat(seq(|ls|, i requires 0 <= i < |ls| => ls[i] + nl))
    decreases |ls|
  {
    if |ls| > 0 {
      var init := ls[..|ls| - 1];
      TerminatedAsConcat(init, nl);
      var whole := seq(|ls|, i requires 0 <= i < |ls| => ls[i] + nl);
      assert whole[..|ls| - 1] == seq(|init|, i requires 0 <= i < |init| => init[i] + nl);
    }
  }

  lemma TerminatedAppend(ls: seq<string>, x: string, nl: string)
    ensures Terminated(ls + [x], nl) == Terminated(ls, nl) + x + nl
  {
    assert (ls + [x])[..|ls|] == ls;
  }

  /** One more copy of `out` adds one more terminated line. */
  lemma AppendCopy(done: seq<string>, out: string, i: nat, nl: string)
    ensures Terminated(done + Repeat(out, i + 1), nl) == Terminated(done + Repeat(out, i), nl) + out + nl
  {
    assert done + Repeat(out, i + 1) == (done + Repeat(out, i)) + [out];
    TerminatedAppend(done + Repeat(out, i), out, nl);
  }

  /** `OutputLines` with one more line. */
  lemma OutputLinesAppend(lines: seq<string>, line: string, scale: nat, pad: nat)
    ensures OutputLines(lines + [line], scale, pad)
         == OutputLines(lines, scale, pad) + Repeat(ScaledLine(line, scale, pad), scale)
  {
    assert (lines + [line])[..|lines|] == lines;
  }

  /** `Stretch` with one more character. */
  lemma StretchAppend(line: string, c: char, scale: nat)
    ensures Stretch(line + [c], scale) == Stretch(line, scale) + Repeat(c, scale)
  {
    assert (line + [c])[..|line|] == line;
  }

  /** The prebuilt horizontally scaled line of `ScaleAsciiBlock`. */
  method StretchLine(line: string, scale: nat) returns (hsb: string)
    ensures hsb == Stretch(line, scale)
  {
    hsb := "";
    for c := 0 to |line|
      invariant hsb == Stretch(line[..c], scale)
    {
      StretchAppend(line[..c], line[c], scale);
      assert line[..c + 1] == line[..c] + [line[c]];
      hsb := hsb + Repeat(line[c], scale);
    }
    assert line[..|line|] == line;
  }

  /**
   * `ScaleAsciiBlock`: for every line of the block, its characters each
   * repeated `scale` times, padded by `leftPadding + LeftPadding` spaces,
   * written `scale` times, each time followed by `nl`.
   */
  method ScaleAsciiBlock(ascii: string, scale: nat, leftPadding: nat, nl: string) returns (block: string)
    ensures block == Terminated(OutputLines(AsciiLines(ascii), scale, leftPadding + LeftPadding), nl)
  {
    var lines := AsciiLines(ascii);
    var pad := leftPadding + LeftPadding;
    var sb := "";
    for l := 0 to |lines|
      invariant sb == Terminated(OutputLines(lines[..l], scale, pad), nl)
    {
      var line := lines[l];
      var scaledLine := StretchLine(line, scale);
      ghost var done := OutputLines(lines[..l], scale, pad);
      ghost var out := ScaledLine(line, scale, pad);
      assert done + Repeat(out, 0) == done;
      for i := 0 to scale
        invariant sb == Terminated(done + Repeat(out, i), nl)
      {
        AppendCopy(done, out, i, nl);
        sb := sb + (Spaces(pad) + scaledLine) + nl;
      }
      OutputLinesAppend(lines[..l], line, scale, pad);
      assert lines[..l + 1] == lines[..l] + [line];
    }
    assert lines[..|lines|] == lines;
    return sb;
  }

  /**
   * `Write` after rendering: the FIGlet text loses its trailing line
   * breaks, is scaled by the clamped scale, and the lines printed are the
   * result with '\r' removed, split on '\n'.
   */
  method WrittenLines(rendered: string, scale: int, nl: string) returns (allLines: seq<string>)
    ensures allLines == AsciiLines(Terminated(OutputLines(AsciiLines(TrimLineBreaksEnd(rendered)),
                                                          EffectiveScale(scale), LeftPadding), nl))
  {
    var s := EffectiveScale(scale);
    var baseArt := TrimLineBreaksEnd(rendered);
    baseArt := ScaleAsciiBlock(baseArt, s, 0, nl);
    allLines := AsciiLines(baseArt);
  }

  // ---------------------------------------------------------------------
  // The reasoning pane

  /** The text appended: newlines removed, then two passes of "  " to " ". */
  function Squash(text: string): (r: string)
    ensures |r| <= |text|
  {
    ReplaceAll(ReplaceAll(ReplaceAll(text, "\n", ""), "  ", " "), "  ", " ")
  }

  /** Squashed text holds no newline. */
  lemma SquashNoNewlines(text: string)
    ensures '\n' !in Squash(text)
  {
    var a := ReplaceAll(text, "\n", "");
    ReplaceAllRemovesChar(text, '\n', "");
    var b := ReplaceAll(a, "  ", " ");
    assert '\n' !in b;
    assert '\n' !in ReplaceAll(b, "  ", " ");
  }

  /** The buffer after `WriteReasoning(text, reset)`. */
  function NextConversation(conversation: string, text: string, reset: bool): string {
    var c := if reset then "" else conversation;
    if |c| > ConversationMaxLength then (if EndsWith(c, Ellipsis) then c else c + Ellipsis)
    else c + Squash(text)
  }

  /**
   * Within the cap the squashed text is appended (to the empty buffer on a
   * reset); over the cap the text is dropped and the buffer ends in the
   * marker, added only if it was not there already.
   */
  lemma NextConversationMeaning(conversation: string, text: string, reset: bool)
    ensures var c := if reset then "" else conversation;
      var next := NextConversation(conversation, text, reset);
      && (|c| <= ConversationMaxLength ==> next == c + Squash(text) && '\n' !in next[|c|..])
      && (|c| > ConversationMaxLength ==>
            (EndsWith(next, Ellipsis) && (next == c || next == c + Ellipsis)
             && (EndsWith(c, Ellipsis) ==> next == c)))
  {
    var c := if reset then "" else conversation;
    if |c| <= ConversationMaxLength {
      SquashNoNewlines(text);
      assert (c + Squash(text))[|c|..] == Squash(text);
    }
  }

  /** A reset starts from the empty buffer: the pane shows only the new text. */
  lemma ResetShowsOnlyNewText(conversation: string, text: string)
    ensures NextConversation(conversation, text, true) == Squash(text)
  {
    assert "" + Squash(text) == Squash(text);
  }

  /** Once over the cap, further writes without reset change nothing after the first. */
  lemma OverCapIdempotent(conversation: string, t1: string, t2: string)
    requires |conversation| > ConversationMaxLength
    ensures var once := NextConversation(conversation, t1, false);
      NextConversation(once, t2, false) == once
  {
    var once := NextConversation(conversation, t1, false);
    if !EndsWith(conversation, Ellipsis) {
      assert once[|once| - |Ellipsis|..] == Ellipsis;
    }
  }

  /** Without a reset the buffer only grows, and by at most the text or the marker. */
  lemma ConversationGrowsBounded(conversation: string, text: string)
    ensures var next := NextConversation(conversation, text, false);
      && conversation <= next
      && |next| <= |conversation| + (if |conversation| > ConversationMaxLength then |Ellipsis| else |text|)
  {
  }

  /** The reasoning pane: the `Conversation` buffer. */
  class Dashboard {
    var conversation: string

    constructor ()
      ensures conversation == ""
    {
      conversation := "";
    }

    /** `WriteReasoning`: update the buffer and return the lines drawn (140 wide). */
    method WriteReasoning(text: string, reset: bool) returns (chunks: seq<string>)
      modifies this`conversation
      ensures conversation == NextConversation(old(conversation), text, reset)
      ensures chunks == Chunks(conversation, ConversationLineLength)
    {
      if reset {
        conversation := "";
      }
      if |conversation| > ConversationMaxLength {
        if !EndsWith(conversation, Ellipsis) {
          conversation := conversation + Ellipsis;
        }
      } else {
        conversation := conversation + ReplaceAll(ReplaceAll(ReplaceAll(text, "\n", ""), "  ", " "), "  ", " ");
      }
      chunks := Chunks(conversation, ConversationLineLength);
    }
  }
}
