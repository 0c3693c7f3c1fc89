/** The rendering of a figure: the glyph rows of a message set side by
    side (`FIGure`, `is_not_empty` and `FIGure`'s `Display` in src/figlet.rs). */
module Render {
  import opened Text
  import opened Glyphs

  /** `FIGure`: the glyphs of a message, in order, and the font's height. */
  datatype Figure = Figure(characters: seq<FigCharacter>, height: nat)

  /** `is_not_empty`: at least one glyph and a positive height. */
  predicate IsNotEmpty(f: Figure)
  {
    |f.characters| > 0 && f.height > 0
  }

  /** Row i of a glyph, or nothing if it has no such row. */
  function RowOf(g: FigCharacter, i: nat): string
  {
    if i < |g.rows| then g.rows[i] else ""
  }

  /** Row i of every glyph, side by side. */
  function RowLine(glyphs: seq<FigCharacter>, i: nat): string
  {
    if glyphs == [] then "" else RowLine(glyphs[..|glyphs| - 1], i) + RowOf(glyphs[|glyphs| - 1], i)
  }

  /** The first n lines of a figure, each ended by a newline. */
  function LinesText(glyphs: seq<FigCharacter>, n: nat): string
  {
    if n == 0 then "" else LinesText(glyphs, n - 1) + RowLine(glyphs, n - 1) + "\n"
  }

  /** The text a figure displays: its `height` lines, or nothing when it is empty. */
  function Rendered(f: Figure): string
  {
    if IsNotEmpty(f) then LinesText(f.characters, f.height) else ""
  }

  /** `FIGure`'s `Display`: for each row index, the pieces of that row of
      every glyph, then a newline, all joined. */
  method Display(f: Figure) returns (out: string)
    ensures out == Rendered(f)
  {
    if !IsNotEmpty(f) {
      return "";
    }
    var rs: seq<string> := [];
    for i := 0 to f.height
      invariant Join(rs, "") == LinesText(f.characters, i)
    {
      for j := 0 to |f.characters|
        invariant Join(rs, "") == LinesText(f.characters, i) + RowLine(f.characters[..j], i)
      {
        var character := f.characters[j];
        assert f.characters[..j + 1][..j] == f.characters[..j];
        if i < |character.rows| {
          JoinEmptyAppend(rs, character.rows[i]);
          rs := rs + [character.rows[i]];
        }
      }
      assert f.characters[..|f.characters|] == f.characters;
      JoinEmptyAppend(rs, "\n");
      rs := rs + ["\n"];
    }
    out := Join(rs, "");
  }

  /** The rows of a concatenation of glyphs are the rows of each part side by side. */
  lemma {:induction false} RowLineAppend(a: seq<FigCharacter>, b: seq<FigCharacter>, i: nat)
    ensures RowLine(a + b, i) == RowLine(a, i) + RowLine(b, i)
    decreases |b|
  {
    if b == [] {
      assert a + b == a;
    } else {
      var init := b[..|b| - 1];
      assert (a + b)[..|a + b| - 1] == a + init;
      assert (a + b)[|a + b| - 1] == b[|b| - 1];
      RowLineAppend(a, init, i);
    }
  }

  /** One glyph contributes just its own row. */
  lemma RowLineSingle(g: FigCharacter, i: nat)
    ensures RowLine([g], i) == RowOf(g, i)
  {
    assert [g][..0] == [];
  }

  /** A glyph row line has no newline when no glyph row has one. */
  lemma {:induction false} RowLineNoNewline(glyphs: seq<FigCharacter>, i: nat)
    requires forall g :: g in glyphs ==> forall r :: r in g.rows ==> '\n' !in r
    ensures '\n' !in RowLine(glyphs, i)
    decreases |glyphs|
  {
    if glyphs != [] {
      var init := glyphs[..|glyphs| - 1];
      assert forall g :: g in init ==> g in glyphs;
      RowLineNoNewline(init, i);
      var last := glyphs[|glyphs| - 1];
      assert last in glyphs;
      if i < |last.rows| {
        assert last.rows[i] in last.rows;
      }
    }
  }

  /** The row lines 0..n-1. */
  function Lines(glyphs: seq<FigCharacter>, n: nat): (s: seq<string>)
    ensures |s| == n
  {
    seq(n, i requires 0 <= i < n => RowLine(glyphs, i))
  }

  /** Splitting the first n lines, and whatever follows, at newlines gives
      the n row lines back. */
  lemma {:induction false} SplitLinesText(glyphs: seq<FigCharacter>, n: nat, rest: string)
    requires forall g :: g in glyphs ==> forall r :: r in g.rows ==> '\n' !in r
    ensures Split(LinesText(glyphs, n) + rest, '\n') == Lines(glyphs, n) + Split(rest, '\n')
    decreases n
  {
    if n > 0 {
      var line := RowLine(glyphs, n - 1);
      RowLineNoNewline(glyphs, n - 1);
      calc {
        Split(LinesText(glyphs, n) + rest, '\n');
        { assert LinesText(glyphs, n) + rest == LinesText(glyphs, n - 1) + (line + ['\n'] + rest); }
        Split(LinesText(glyphs, n - 1) + (line + ['\n'] + rest), '\n');
        { SplitLinesText(glyphs, n - 1, line + ['\n'] + rest); }
        Lines(glyphs, n - 1) + Split(line + ['\n'] + rest, '\n');
        { SplitAt(line, '\n', rest); }
        Lines(glyphs, n - 1) + ([line] + Split(rest, '\n'));
        (Lines(glyphs, n - 1) + [line]) + Split(rest, '\n');
        { LinesSnoc(glyphs, n - 1); }
        Lines(glyphs, n) + Split(rest, '\n');
      }
    } else {
      assert LinesText(glyphs, n) + rest == rest;
      assert Lines(glyphs, n) + Split(rest, '\n') == Split(rest, '\n');
    }
  }

  /** One more row line at the end. */
  lemma LinesSnoc(glyphs: seq<FigCharacter>, n: nat)
    ensures Lines(glyphs, n + 1) == Lines(glyphs, n) + [RowLine(glyphs, n)]
  {
    var a := Lines(glyphs, n + 1);
    var b := Lines(glyphs, n) + [RowLine(glyphs, n)];
    assert forall i :: 0 <= i < n + 1 ==> a[i] == b[i];
  }

  /** A non-empty figure displays exactly `height` newline-terminated lines,
      line i being row i of every glyph side by side; an empty one displays
      nothing. */
  lemma RenderedLines(f: Figure)
    requires forall g :: g in f.characters ==> forall r :: r in g.rows ==> '\n' !in r
    ensures !IsNotEmpty(f) ==> Rendered(f) == ""
    ensures IsNotEmpty(f) ==> Split(Rendered(f), '\n') == Lines(f.characters, f.height) + [""]
  {
    if IsNotEmpty(f) {
      SplitLinesText(f.characters, f.height, "");
      assert LinesText(f.characters, f.height) + "" == LinesText(f.characters, f.height);
    }
  }

  /** The display is empty exactly when the figure has no glyph or height 0. */
  lemma RenderedEmpty(f: Figure)
    ensures Rendered(f) == "" <==> |f.characters| == 0 || f.height == 0
  {
    if IsNotEmpty(f) {
      assert |LinesText(f.characters, f.height)| > 0;
    }
  }
}
