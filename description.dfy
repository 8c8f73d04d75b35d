/**
 * How descriptions of videos and series are shown: the text is trimmed, split
 * into paragraphs at runs of two or more newlines, and every run is kept so
 * that newlines beyond the first two add extra space. A missing or blank
 * description shows a placeholder instead.
 */
module Description {
  import opened Text

  /** A `string | null | undefined` property. */
  datatype Nullable = Undefined | Null | Value(s: string)

  // ---------------------------------------------------------------------------
  // String.prototype.trim
  // ---------------------------------------------------------------------------

  /** JavaScript's WhiteSpace and LineTerminator characters, which `trim` removes. */
  predicate IsJsWhitespace(c: char) {
    c == '\t' || c == '\n' || c == '\U{000B}' || c == '\U{000C}' || c == '\r' || c == ' '
    || c == '\U{00A0}' || c == '\U{1680}' || ('\U{2000}' <= c <= '\U{200A}')
    || c == '\U{2028}' || c == '\U{2029}' || c == '\U{202F}' || c == '\U{205F}'
    || c == '\U{3000}' || c == '\U{FEFF}'
  }

  /** Index of the first character at or after `i` that is not whitespace, or `|s|`. */
  function SkipWhitespace(s: string, i: nat): (k: nat)
    requires i <= |s|
    ensures i <= k <= |s|
    ensures forall j :: i <= j < k ==> IsJsWhitespace(s[j])
    ensures k < |s| ==> !IsJsWhitespace(s[k])
    decreases |s| - i
  {
    if i == |s| || !IsJsWhitespace(s[i]) then i else SkipWhitespace(s, i + 1)
  }

  /** One past the last character before `j` that is not whitespace, or `lo`. */
  function SkipWhitespaceBack(s: string, lo: nat, j: nat): (k: nat)
    requires lo <= j <= |s|
    ensures lo <= k <= j
    ensures forall i :: k <= i < j ==> IsJsWhitespace(s[i])
    ensures k > lo ==> !IsJsWhitespace(s[k - 1])
    decreases j
  {
    if j == lo || !IsJsWhitespace(s[j - 1]) then j else SkipWhitespaceBack(s, lo, j - 1)
  }

  /** `s.trim()`: `s` without leading and trailing whitespace. */
  function Trim(s: string): (t: string)
    ensures t == "" <==> AllChars(s, IsJsWhitespace)
    ensures t != "" ==> !IsJsWhitespace(t[0]) && !IsJsWhitespace(t[|t| - 1])
    ensures exists a, b :: (0 <= a <= b <= |s| && t == s[a..b]
      && AllChars(s[..a], IsJsWhitespace) && AllChars(s[b..], IsJsWhitespace))
  {
    var a := SkipWhitespace(s, 0);
    var b := SkipWhitespaceBack(s, a, |s|);
    assert AllChars(s[..a], IsJsWhitespace) by {
      forall j | 0 <= j < a ensures IsJsWhitespace(s[..a][j]) {
        assert s[..a][j] == s[j];
      }
    }
    assert AllChars(s[b..], IsJsWhitespace) by {
      forall j | 0 <= j < |s| - b ensures IsJsWhitespace(s[b..][j]) {
        assert s[b..][j] == s[b + j];
      }
    }
    assert a == b ==> AllChars(s, IsJsWhitespace) by {
      if a == b {
        assert a == |s|;
        assert s[..a] == s;
      }
    }
    s[a..b]
  }

  // ---------------------------------------------------------------------------
  // split(/(\n{2,})/)
  // ---------------------------------------------------------------------------

  /** `s` holds no two consecutive newlines. */
  predicate NoDoubleNewline(s: string) {
    forall j :: 0 <= j < |s| - 1 ==> !(s[j] == '\n' && s[j + 1] == '\n')
  }

  /** A captured separator: two or more newlines and nothing else. */
  predicate IsSeparator(s: string) {
    |s| >= 2 && AllChars(s, c => c == '\n')
  }

  /** Index where the leftmost match of `\n\n` starts, or `|s|` when there is none. */
  function FirstDoubleNewline(s: string): (k: nat)
    ensures k <= |s|
    ensures k < |s| ==> k + 1 < |s| && s[k] == '\n' && s[k + 1] == '\n'
    ensures forall j :: 0 <= j < k && j + 1 < |s| ==> !(s[j] == '\n' && s[j + 1] == '\n')
  {
    if |s| < 2 then |s|
    else if s[0] == '\n' && s[1] == '\n' then 0
    else
      var k := 1 + FirstDoubleNewline(s[1..]);
      assert forall j :: 1 <= j < |s| ==> s[j] == s[1..][j - 1];
      k
  }

  /** End of the run of newlines starting at `k` (the greedy `\n{2,}`). */
  function RunEnd(s: string, k: nat): (e: nat)
    requires k <= |s|
    ensures k <= e <= |s|
    ensures forall j :: k <= j < e ==> s[j] == '\n'
    ensures e < |s| ==> s[e] != '\n'
    decreases |s| - k
  {
    if k == |s| || s[k] != '\n' then k else RunEnd(s, k + 1)
  }

  /**
   * `s.split(/(\n{2,})/)`: the pieces between the separators, with each
   * captured separator in between.
   */
  function SplitParagraphs(s: string): (pieces: seq<string>)
    ensures |pieces| % 2 == 1
    decreases |s|
  {
    var k := FirstDoubleNewline(s);
    if k == |s| then [s]
    else
      var e := RunEnd(s, k);
      [s[..k], s[k..e]] + SplitParagraphs(s[e..])
  }

  function Concat(pieces: seq<string>): string {
    if |pieces| == 0 then "" else pieces[0] + Concat(pieces[1..])
  }

  /** Joining the pieces gives the text back. */
  lemma {:induction false} SplitConcat(s: string)
    ensures Concat(SplitParagraphs(s)) == s
    decreases |s|
  {
    var k := FirstDoubleNewline(s);
    if k == |s| {
      assert Concat([s]) == s + Concat([]);
    } else {
      var e := RunEnd(s, k);
      var rest := SplitParagraphs(s[e..]);
      var pieces := [s[..k], s[k..e]] + rest;
      assert pieces[1..] == [s[k..e]] + rest && pieces[1..][1..] == rest;
      SplitConcat(s[e..]);
      assert s == s[..k] + s[k..e] + s[e..];
    }
  }

  /** Pieces at odd indices are separators; pieces at even indices are paragraphs without an empty line. */
  lemma {:induction false} SplitShape(s: string)
    ensures forall i :: 0 <= i < |SplitParagraphs(s)| && i % 2 == 1 ==> IsSeparator(SplitParagraphs(s)[i])
    ensures forall i :: 0 <= i < |SplitParagraphs(s)| && i % 2 == 0 ==> NoDoubleNewline(SplitParagraphs(s)[i])
    decreases |s|
  {
    var k := FirstDoubleNewline(s);
    if k < |s| {
      var e := RunEnd(s, k);
      var rest := SplitParagraphs(s[e..]);
      var pieces := [s[..k], s[k..e]] + rest;
      SplitShape(s[e..]);
      FirstPieces(s);
      forall i | 0 <= i < |pieces|
        ensures i % 2 == 1 ==> IsSeparator(pieces[i])
        ensures i % 2 == 0 ==> NoDoubleNewline(pieces[i])
      {
        if i >= 2 {
          assert pieces[i] == rest[i - 2];
          ParityShift(i);
        }
      }
    }
  }

  /** The text before the first double newline has none, and the run there is a separator. */
  lemma FirstPieces(s: string)
    requires FirstDoubleNewline(s) < |s|
    ensures NoDoubleNewline(s[..FirstDoubleNewline(s)])
    ensures IsSeparator(s[FirstDoubleNewline(s)..RunEnd(s, FirstDoubleNewline(s))])
  {
    var k := FirstDoubleNewline(s);
    var e := RunEnd(s, k);
    forall j | 0 <= j && j + 1 < k ensures !(s[..k][j] == '\n' && s[..k][j + 1] == '\n') {
      assert s[..k][j] == s[j] && s[..k][j + 1] == s[j + 1];
    }
    forall j | 0 <= j < e - k ensures s[k..e][j] == '\n' {
      assert s[k..e][j] == s[k + j];
    }
  }

  /** The first piece is empty or starts like the text. */
  lemma FirstPieceStart(s: string)
    ensures SplitParagraphs(s)[0] == "" || SplitParagraphs(s)[0][0] == s[0]
  {
  }

  /**
   * Every separator is a whole run: the paragraph before it does not end with a
   * newline, and the one after it does not start with one.
   */
  lemma {:induction false} SplitMaximal(s: string, i: nat)
    requires i < |SplitParagraphs(s)| && i % 2 == 1
    ensures var pieces := SplitParagraphs(s);
      (pieces[i - 1] == "" || pieces[i - 1][|pieces[i - 1]| - 1] != '\n')
      && (pieces[i + 1] == "" || pieces[i + 1][0] != '\n')
    decreases |s|
  {
    var k := FirstDoubleNewline(s);
    assert k < |s|;
    var e := RunEnd(s, k);
    if i == 1 {
      FirstSeparatorMaximal(s);
    } else {
      SplitStep(s);
      ParityShift(i);
      SplitMaximal(s[e..], i - 2);
    }
  }

  /** Past the first separator, the pieces are those of the rest of the text. */
  lemma SplitStep(s: string)
    requires FirstDoubleNewline(s) < |s|
    ensures var k := FirstDoubleNewline(s);
      var e := RunEnd(s, k);
      var pieces := SplitParagraphs(s);
      var rest := SplitParagraphs(s[e..]);
      |pieces| == |rest| + 2 && forall j :: 2 <= j < |pieces| ==> pieces[j] == rest[j - 2]
  {
    var k := FirstDoubleNewline(s);
    var e := RunEnd(s, k);
    var rest := SplitParagraphs(s[e..]);
    var pieces := [s[..k], s[k..e]] + rest;
    assert SplitParagraphs(s) == pieces;
    assert forall j :: 2 <= j < |pieces| ==> pieces[j] == rest[j - 2];
  }

  /** The first separator is a whole run. */
  lemma FirstSeparatorMaximal(s: string)
    requires FirstDoubleNewline(s) < |s|
    ensures var pieces := SplitParagraphs(s);
      |pieces| >= 3
      && (pieces[0] == "" || pieces[0][|pieces[0]| - 1] != '\n')
      && (pieces[2] == "" || pieces[2][0] != '\n')
  {
    var k := FirstDoubleNewline(s);
    var e := RunEnd(s, k);
    var rest := SplitParagraphs(s[e..]);
    assert SplitParagraphs(s) == [s[..k], s[k..e]] + rest;
    FirstPieceStart(s[e..]);
  }

  // ---------------------------------------------------------------------------
  // Description and SmallDescription
  // ---------------------------------------------------------------------------

  /** What the paragraph rendering produces for one piece. */
  datatype Block = Paragraph(text: string) | ExtraSpace(newlines: string)

  /** `s.slice(2)`. */
  function DropTwo(s: string): (t: string)
    ensures |s| >= 2 ==> s == s[..2] + t
    ensures |s| < 2 ==> t == ""
  {
    if |s| >= 2 then s[2..] else ""
  }

  /** Even pieces become paragraphs; odd pieces (separators) lose two newlines. */
  function RenderPieces(pieces: seq<string>): (blocks: seq<Block>)
    ensures |blocks| == |pieces|
  {
    seq(|pieces|, i requires 0 <= i < |pieces| =>
      if i % 2 == 0 then Paragraph(pieces[i]) else ExtraSpace(DropTwo(pieces[i])))
  }

  /** The placeholder, or the blocks of the trimmed text. */
  datatype DescriptionView = NoDescription | Blocks(blocks: seq<Block>)

  function Description(text: Nullable): (view: DescriptionView)
    ensures view.NoDescription? <==> !text.Value? || AllChars(text.s, IsJsWhitespace)
    ensures view.Blocks? ==> |view.blocks| % 2 == 1
  {
    if !text.Value? then NoDescription
    else
      var stripped := Trim(text.s);
      if stripped == "" then NoDescription
      else Blocks(RenderPieces(SplitParagraphs(stripped)))
  }

  /**
   * The blocks of a description alternate between paragraphs without an empty
   * line and extra spaces of newlines, each two newlines shorter than the run
   * it replaces; together with those runs the paragraphs give back the trimmed
   * text.
   */
  lemma DescriptionBlocks(s: string, i: nat)
    requires Description(Value(s)).Blocks? && i < |Description(Value(s)).blocks|
    ensures var pieces := SplitParagraphs(Trim(s));
      var b := Description(Value(s)).blocks[i];
      Concat(pieces) == Trim(s)
      && (i % 2 == 0 ==> b == Paragraph(pieces[i]) && NoDoubleNewline(b.text))
      && (i % 2 == 1 ==> b.ExtraSpace? && pieces[i] == "\n\n" + b.newlines && AllChars(b.newlines, c => c == '\n'))
  {
    var pieces := SplitParagraphs(Trim(s));
    assert Description(Value(s)).blocks == RenderPieces(pieces);
    SplitConcat(Trim(s));
    SplitShape(Trim(s));
    if i % 2 == 1 {
      RenderedSeparator(pieces, i);
    }
  }

  /** A separator piece renders as the newlines after its first two. */
  lemma RenderedSeparator(pieces: seq<string>, i: nat)
    requires i < |pieces| && i % 2 == 1 && IsSeparator(pieces[i])
    ensures var b := RenderPieces(pieces)[i];
      b.ExtraSpace? && pieces[i] == "\n\n" + b.newlines && AllChars(b.newlines, c => c == '\n')
  {
    var p := pieces[i];
    var b := RenderPieces(pieces)[i];
    assert b == ExtraSpace(DropTwo(p));
    assert p[0] == '\n' && p[1] == '\n';
    assert p[..2] == "\n\n";
    forall j | 0 <= j < |b.newlines| ensures b.newlines[j] == '\n' {
      assert b.newlines[j] == p[j + 2];
    }
  }

  /** The first and the last paragraph of a description are not empty. */
  lemma DescriptionEnds(s: string)
    requires Description(Value(s)).Blocks?
    ensures var blocks := Description(Value(s)).blocks;
      blocks[0].Paragraph? && blocks[0].text != ""
      && blocks[|blocks| - 1].Paragraph? && blocks[|blocks| - 1].text != ""
  {
    var t := Trim(s);
    assert !IsJsWhitespace(t[0]) && !IsJsWhitespace(t[|t| - 1]);
    SplitEnds(t);
    var pieces := SplitParagraphs(t);
    var blocks := Description(Value(s)).blocks;
    assert blocks == RenderPieces(pieces);
    var last := |pieces| - 1;
    OddPredecessor(|pieces|);
    assert blocks[0] == Paragraph(pieces[0]) && blocks[last] == Paragraph(pieces[last]);
  }

  lemma ParityShift(i: nat)
    requires i >= 2
    ensures (i - 2) % 2 == i % 2
  {
  }

  lemma OddPredecessor(n: nat)
    requires n % 2 == 1
    ensures (n - 1) % 2 == 0
  {
  }

  /** When the text neither starts nor ends with a newline, neither do the outer pieces end up empty. */
  lemma {:induction false} SplitEnds(s: string)
    requires s != "" && s[0] != '\n' && s[|s| - 1] != '\n'
    ensures SplitParagraphs(s)[0] != ""
    ensures SplitParagraphs(s)[|SplitParagraphs(s)| - 1] != ""
    decreases |s|
  {
    var k := FirstDoubleNewline(s);
    if k < |s| {
      var e := RunEnd(s, k);
      assert e < |s|;
      SplitEnds(s[e..]);
    }
  }

  /** What `SmallDescription` shows. */
  datatype SmallView = Placeholder | Shown(text: string)

  /**
   * The short form shows the placeholder only for `null`; an absent text shows
   * nothing, and a blank text is shown as it is.
   */
  function SmallDescription(text: Nullable): (view: SmallView)
    ensures view.Placeholder? <==> text == Null
    ensures text.Value? ==> view == Shown(text.s)
    ensures text == Undefined ==> view == Shown("")
  {
    if text == Null then Placeholder
    else if text.Value? then Shown(text.s)
    else Shown("")
  }

  /** The two forms disagree on blank and absent texts. */
  lemma PlaceholderDiffers()
    ensures Description(Undefined).NoDescription? && !SmallDescription(Undefined).Placeholder?
    ensures Description(Value(" ")).NoDescription? && !SmallDescription(Value(" ")).Placeholder?
  {
  }
}
