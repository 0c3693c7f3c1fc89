/** A whole FIGlet font read from its lines, and the conversion of a message
    into the glyphs that draw it (`FIGfont::read_comments`, `from_content`
    and `convert` in src/figlet.rs). */
module Font {
  import opened Wrappers
  import opened MachineInt
  import opened Text
  import opened Numbers
  import opened Header
  import opened Glyphs
  import opened FontTable
  import opened Render

  /** `FIGfont`: the parsed header, the comment block and the glyph table. */
  datatype FigFont = FigFont(header: HeaderLine, comments: string, fonts: Table)

  /** `read_comments`: lines 1..comment_lines joined with newlines. The line
      count is taken as an i32 (wrapping), `comment_lines + 1` overflowing
      panics, and a negative count panics when the slice is taken. */
  function ReadComments(lines: seq<string>, commentCount: i32): (r: Result<string>)
    ensures r.Ok? ==> 0 <= commentCount && commentCount + 1 <= |lines|
    ensures 0 <= commentCount < I32_MAX && |lines| <= I32_MAX ==> (r.Ok? <==> commentCount + 1 <= |lines|)
    ensures r.Err? && r.error == FormatError ==> commentCount + 1 > WrapI32(|lines|)
  {
    if commentCount + 1 > I32_MAX then Err(Panic)
    else if WrapI32(|lines|) < commentCount + 1 then Err(FormatError)
    else if commentCount < 0 then Err(Panic)
    else Ok(Join(lines[1..1 + commentCount], "\n"))
  }

  /** The comment block splits back into the comment lines, and no comments
      give the empty string. */
  lemma CommentLines(lines: seq<string>, commentCount: i32)
    requires ReadComments(lines, commentCount).Ok?
    requires forall k :: 1 <= k < |lines| ==> '\n' !in lines[k]
    ensures commentCount == 0 ==> ReadComments(lines, commentCount).value == ""
    ensures commentCount > 0 ==> Split(ReadComments(lines, commentCount).value, '\n') == lines[1..1 + commentCount]
  {
    if commentCount > 0 {
      var parts := lines[1..1 + commentCount];
      assert forall k :: 0 <= k < |parts| ==> parts[k] == lines[k + 1];
      SplitJoin(parts, '\n');
    }
  }

  /** `from_content` on the font's lines: the header from the first line,
      then the comments, then the glyph table. */
  function ParseFont(lines: seq<string>): Result<FigFont>
  {
    if lines == [] then Err(FormatError)
    else
      match ParseHeader(lines[0])
      case Err(e) => Err(e)
      case Ok(header) =>
        match ReadComments(lines, header.commentLines)
        case Err(e) => Err(e)
        case Ok(comments) =>
          match Fonts(lines, header)
          case Err(e) => Err(e)
          case Ok(fonts) => Ok(FigFont(header, comments, fonts))
  }

  /** `from_content`. */
  method FromContent(lines: seq<string>) returns (r: Result<FigFont>)
    ensures r == ParseFont(lines)
  {
    if |lines| == 0 {
      return Err(FormatError);
    }
    var headerLine :- ParseHeader(lines[0]);
    var comments :- ReadComments(lines, headerLine.commentLines);
    var fonts :- ReadFonts(lines, headerLine);
    r := Ok(FigFont(headerLine, comments, fonts));
  }

  /** A font read from its lines is its header, parsed from the first line,
      its comment lines joined, and its glyph table, each read successfully. */
  lemma ParseFontParts(lines: seq<string>, font: FigFont)
    requires ParseFont(lines) == Ok(font)
    ensures lines != [] && ParseHeader(lines[0]) == Ok(font.header)
    ensures ReadComments(lines, font.header.commentLines) == Ok(font.comments)
    ensures font.header.commentLines >= 0 && font.comments == Join(lines[1..1 + font.header.commentLines], "\n")
    ensures Fonts(lines, font.header) == Ok(font.fonts)
  {
    match ParseHeader(lines[0]) {
      case Err(_) => assert false;
      case Ok(header) =>
        match ReadComments(lines, header.commentLines) {
          case Err(_) => assert false;
          case Ok(comments) =>
            match Fonts(lines, header) {
              case Err(_) => assert false;
              case Ok(fonts) => assert font == FigFont(header, comments, fonts);
            }
        }
    }
  }

  /** Every glyph of a font that can be read sits under its own code and
      has exactly `height` rows. */
  lemma FontWellFormed(lines: seq<string>, font: FigFont)
    requires ParseFont(lines) == Ok(font)
    ensures font.header.height >= 0 && WellFormed(font.fonts, font.header.height)
  {
    ParseFontParts(lines, font);
    FontsShape(lines, font.header, font.fonts);
  }

  /** A font of positive height defines every required character. */
  lemma FontHasRequired(lines: seq<string>, font: FigFont)
    requires ParseFont(lines) == Ok(font)
    requires font.header.height >= 1
    ensures forall j :: 0 <= j < 102 ==> RequiredCode(j) in font.fonts
  {
    ParseFontParts(lines, font);
    FontsRequired(lines, font.header, font.fonts);
  }

  /** A font of height 0 is only its header and comments, with no glyphs. */
  lemma FontZeroHeight(lines: seq<string>, font: FigFont)
    requires ParseFont(lines) == Ok(font)
    requires font.header.height == 0
    ensures font.fonts == map[]
    ensures |lines| == 1 + font.header.commentLines
  {
    ParseFontParts(lines, font);
    FontsZeroHeight(lines, font.header, font.fonts);
  }

  /** A font of positive height whose header line parses is read exactly
      when its glyph table can be read (`FontTable.FontsAccepted` says when):
      the table needs more lines than the comments, so the comments are then
      read too. */
  lemma ParseFontAccepted(lines: seq<string>, header: HeaderLine)
    requires lines != [] && ParseHeader(lines[0]) == Ok(header)
    requires header.height >= 1 && header.commentLines >= 0
    ensures ParseFont(lines).Ok? ==> ParseFont(lines).value.header == header && Fonts(lines, header).Ok?
    ensures |lines| <= I32_MAX ==> (ParseFont(lines).Ok? <==> Fonts(lines, header).Ok?)
  {
    var comments := ReadComments(lines, header.commentLines);
    if Fonts(lines, header).Ok? {
      FontsNeedEntries(lines, header);
      if |lines| <= I32_MAX {
        assert comments.Ok?;
      }
    }
  }

  /** The numeric fields of that header. */
  lemma SmallNumbers()
    ensures ParseI32("1") == Some(1) && ParseI32("0") == Some(0)
  {
    ParseI32Digits("1");
    ParseI32Digits("0");
  }

  /** The header `flf2a$ 1 0 0 0 0` gives signature "flf2a", hardblank '$',
      height 1 and no comments. */
  lemma SmallFields(line: string)
    requires line == Join(["flf2a$", "1", "0", "0", "0", "0"], " ")
    ensures ParseHeader(line) == Ok(HeaderLine(line, "flf2a", '$', 1, 0, 0, 0, 0, None, None, None))
  {
    var parts := ["flf2a$", "1", "0", "0", "0", "0"];
    TokensOfJoin(parts);
    assert Tokens(line) == parts;
    SmallNumbers();
    assert parts[0] == "flf2a" + ['$'];
    HeaderOfTokens(line, "flf2a", '$', [1, 0, 0, 0, 0]);
  }

  /** Every glyph of a one-line-high font whose glyph lines are all "@" can be read. */
  lemma SmallGlyphs(lines: seq<string>)
    requires |lines| == 103 && forall k :: 1 <= k < 103 ==> lines[k] == "@"
    ensures forall j :: 0 <= j < 102 ==> ExtractGlyph(lines, RequiredCode(j), GlyphStart(1, j, 1), 1, '$').Ok?
  {
    forall j | 0 <= j < 102 ensures ExtractGlyph(lines, RequiredCode(j), GlyphStart(1, j, 1), 1, '$').Ok? {
      ExtractGlyphSpec(lines, RequiredCode(j), GlyphStart(1, j, 1), 1, '$');
      assert Row(lines, 1 + j, 1, '$', 0).Ok?;
    }
  }

  /** A font one line high with no comments and 102 glyphs whose only row
      is the terminator '@' is read, and defines every required character. */
  lemma SmallFont(lines: seq<string>)
    requires |lines| == 103 && lines[0] == "flf2a$ 1 0 0 0 0"
    requires forall k :: 1 <= k < 103 ==> lines[k] == "@"
    ensures ParseFont(lines).Ok?
    ensures forall j :: 0 <= j < 102 ==> RequiredCode(j) in ParseFont(lines).value.fonts
  {
    assert lines[0] == Join(["flf2a$", "1", "0", "0", "0", "0"], " ");
    SmallFields(lines[0]);
    var header := ParseHeader(lines[0]).value;
    SmallGlyphs(lines);
    FontsAccepted(lines, header);
    ParseFontAccepted(lines, header);
    FontHasRequired(lines, ParseFont(lines).value);
  }

  // ---------------------------------------------------------------- convert

  /** The glyphs of the characters of `message` that the table defines, in
      message order; the others are dropped. */
  function GlyphsOf(table: Table, message: string): seq<FigCharacter>
  {
    if message == [] then []
    else
      var c := message[|message| - 1] as nat;
      GlyphsOf(table, message[..|message| - 1]) + (if c in table then [table[c]] else [])
  }

  /** The glyphs of a concatenation are the concatenation of the glyphs. */
  lemma {:induction false} GlyphsOfAppend(table: Table, s: string, t: string)
    ensures GlyphsOf(table, s + t) == GlyphsOf(table, s) + GlyphsOf(table, t)
    decreases |t|
  {
    if t == [] {
      assert s + t == s;
    } else {
      var u := t[..|t| - 1];
      assert (s + t)[..|s + t| - 1] == s + u;
      assert (s + t)[|s + t| - 1] == t[|t| - 1];
      GlyphsOfAppend(table, s, u);
    }
  }

  /** A single character contributes its glyph, or nothing if it has none. */
  lemma GlyphsOfChar(table: Table, ch: char)
    ensures GlyphsOf(table, [ch]) == if ch as nat in table then [table[ch as nat]] else []
  {
    assert [ch][..0] == [];
  }

  /** No glyph is found exactly when no character of the message has one. */
  lemma {:induction false} GlyphsOfEmpty(table: Table, message: string)
    ensures GlyphsOf(table, message) == [] <==> forall k :: 0 <= k < |message| ==> message[k] as nat !in table
    decreases |message|
  {
    if message != [] {
      var init := message[..|message| - 1];
      GlyphsOfEmpty(table, init);
      assert forall k :: 0 <= k < |init| ==> init[k] == message[k];
    }
  }

  /** Every glyph found is the table's glyph for some character of the message. */
  lemma {:induction false} GlyphsOfFrom(table: Table, message: string)
    ensures |GlyphsOf(table, message)| <= |message|
    ensures forall g :: g in GlyphsOf(table, message) ==>
      exists k :: 0 <= k < |message| && message[k] as nat in table && table[message[k] as nat] == g
    decreases |message|
  {
    if message != [] {
      var init := message[..|message| - 1];
      GlyphsOfFrom(table, init);
      forall g | g in GlyphsOf(table, message)
        ensures exists k :: 0 <= k < |message| && message[k] as nat in table && table[message[k] as nat] == g
      {
        if g in GlyphsOf(table, init) {
          var k :| 0 <= k < |init| && init[k] as nat in table && table[init[k] as nat] == g;
          assert message[k] == init[k];
        } else {
          assert table[message[|message| - 1] as nat] == g;
        }
      }
    }
  }

  /** `convert`: no figure for an empty message or when no character has a
      glyph; otherwise the glyphs in message order and the header's height
      as a u32. */
  method Convert(font: FigFont, message: string) returns (r: Option<Figure>)
    ensures r.None? <==> message == [] || forall k :: 0 <= k < |message| ==> message[k] as nat !in font.fonts
    ensures r.Some? ==> r.value == Figure(GlyphsOf(font.fonts, message), AsU32(font.header.height))
  {
    if |message| == 0 {
      return None;
    }
    var characters: seq<FigCharacter> := [];
    for i := 0 to |message|
      invariant characters == GlyphsOf(font.fonts, message[..i])
    {
      var code := message[i] as nat;
      assert message[..i + 1][..i] == message[..i];
      if code in font.fonts {
        characters := characters + [font.fonts[code]];
      }
    }
    assert message[..|message|] == message;
    GlyphsOfEmpty(font.fonts, message);
    if |characters| == 0 {
      return None;
    }
    r := Some(Figure(characters, AsU32(font.header.height)));
  }
}
