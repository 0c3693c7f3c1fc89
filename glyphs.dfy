/** The glyph extractor: one FIGcharacter read from `height` consecutive font
    lines (`extract_one_line` and `extract_one_font` in src/figlet.rs). */
module Glyphs {
  import opened Wrappers
  import opened MachineInt
  import opened Text

  /** One character of a font (`FIGcharacter`): its code point, its rows of
      ASCII art, the width of its first row and its height. */
  datatype FigCharacter = FigCharacter(code: nat, rows: seq<string>, width: nat, height: nat)

  /** How many characters end a font line: the terminator (conventionally '@'),
      plus a second one on the last line of a glyph more than one line high. */
  function Terminators(height: nat, isLast: bool): nat
  {
    if isLast && height != 1 then 2 else 1
  }

  /** `extract_one_line`: line `index` without its terminators, every hardblank
      turned into a space. A missing line is an error; a line shorter than its
      terminators makes the Rust code panic on a usize underflow. */
  function ExtractOneLine(lines: seq<string>, index: nat, height: nat, hardblank: char, isLast: bool)
    : (r: Result<string>)
    ensures r == Err(FormatError) <==> index >= |lines|
    ensures r.Ok? <==> index < |lines| && |lines[index]| >= Terminators(height, isLast)
    ensures r.Ok? ==> var line := lines[index];
      && |r.value| == |line| - Terminators(height, isLast)
      && (forall k :: 0 <= k < |r.value| ==> r.value[k] == if line[k] == hardblank then ' ' else line[k])
      && (hardblank != ' ' ==> hardblank !in r.value)
  {
    if index >= |lines| then Err(FormatError)
    else
      var line := lines[index];
      if |line| == 0 then Err(Panic)                              // `line.len() - 1`
      else
        var width := |line| - 1;
        if isLast && height != 1 && width == 0 then Err(Panic)    // `width -= 1`
        else
          var width := if isLast && height != 1 then width - 1 else width;
          Ok(Replace(line[..width], hardblank, ' '))
  }

  /** Row k of the glyph of the given height whose first line is `start`. */
  function Row(lines: seq<string>, start: nat, height: nat, hardblank: char, k: nat): Result<string>
  {
    ExtractOneLine(lines, start + k, height, hardblank, k == height - 1)
  }

  /** The rows i.. of a glyph appended to `rows`, stopping at the first row that fails. */
  function RowsFrom(lines: seq<string>, start: nat, height: nat, hardblank: char, i: nat, rows: seq<string>)
    : Result<seq<string>>
    requires i <= height
    decreases height - i
  {
    if i == height then Ok(rows)
    else match Row(lines, start, height, hardblank, i)
      case Err(e) => Err(e)
      case Ok(row) => RowsFrom(lines, start, height, hardblank, i + 1, rows + [row])
  }

  /** The glyph for `code` whose rows start at line `start`; a height of 0 makes
      the Rust code panic when it reads the first row's width. */
  function ExtractGlyph(lines: seq<string>, code: nat, start: nat, height: nat, hardblank: char)
    : (r: Result<FigCharacter>)
    ensures r.Ok? ==> r.value.code == code && r.value.height == AsU32(height)
  {
    match RowsFrom(lines, start, height, hardblank, 0, [])
    case Err(e) => Err(e)
    case Ok(rows) =>
      if rows == [] then Err(Panic)
      else Ok(FigCharacter(code, rows, AsU32(|rows[0]|), AsU32(height)))
  }

  /** `extract_one_font`: collects the rows in a loop. */
  method ExtractOneFont(lines: seq<string>, code: nat, startIndex: nat, height: nat, hardblank: char)
    returns (r: Result<FigCharacter>)
    ensures r == ExtractGlyph(lines, code, startIndex, height, hardblank)
  {
    var characters: seq<string> := [];
    for i := 0 to height
      invariant RowsFrom(lines, startIndex, height, hardblank, 0, [])
             == RowsFrom(lines, startIndex, height, hardblank, i, characters)
    {
      var index := startIndex + i;
      var isLastIndex := i == height - 1;
      var oneLine :- ExtractOneLine(lines, index, height, hardblank, isLastIndex);
      characters := characters + [oneLine];
    }
    if |characters| == 0 {
      return Err(Panic);
    }
    var width := AsU32(|characters[0]|);
    r := Ok(FigCharacter(code, characters, width, AsU32(height)));
  }

  /** RowsFrom succeeds exactly when each remaining row does, and then appends them in order. */
  lemma {:induction false} RowsFromSpec(lines: seq<string>, start: nat, height: nat, hardblank: char,
                                        i: nat, rows: seq<string>)
    requires i <= height
    ensures var r := RowsFrom(lines, start, height, hardblank, i, rows);
      r.Ok? <==> forall k :: i <= k < height ==> Row(lines, start, height, hardblank, k).Ok?
    ensures var r := RowsFrom(lines, start, height, hardblank, i, rows);
      r.Ok? ==>
        && |r.value| == |rows| + height - i && r.value[..|rows|] == rows
        && forall k :: i <= k < height ==> Row(lines, start, height, hardblank, k) == Ok(r.value[|rows| + k - i])
    decreases height - i
  {
    if i < height {
      var row := Row(lines, start, height, hardblank, i);
      if row.Ok? {
        RowsFromSpec(lines, start, height, hardblank, i + 1, rows + [row.value]);
        var r := RowsFrom(lines, start, height, hardblank, i, rows);
        if r.Ok? {
          assert r.value[..|rows| + 1] == rows + [row.value];
          assert r.value[..|rows|] == (rows + [row.value])[..|rows|];
        }
      }
    }
  }

  /** An extracted glyph has exactly `height` rows, row k being line start+k
      stripped of its terminators with hardblanks turned into spaces; it
      exists exactly when the height is positive and every row can be read. */
  lemma ExtractGlyphSpec(lines: seq<string>, code: nat, start: nat, height: nat, hardblank: char)
    ensures var r := ExtractGlyph(lines, code, start, height, hardblank);
      r.Ok? <==> height > 0 && forall k :: 0 <= k < height ==> Row(lines, start, height, hardblank, k).Ok?
    ensures var r := ExtractGlyph(lines, code, start, height, hardblank);
      r.Ok? ==> var g := r.value;
        && g.code == code && |g.rows| == height
        && g.height == AsU32(height) && g.width == AsU32(|g.rows[0]|)
        && forall k :: 0 <= k < height ==> Row(lines, start, height, hardblank, k) == Ok(g.rows[k])
  {
    RowsFromSpec(lines, start, height, hardblank, 0, []);
  }

  /** A glyph that would need a line past the end of the input is an error. */
  lemma LineBeyondInput(lines: seq<string>, code: nat, start: nat, height: nat, hardblank: char)
    requires start + height > |lines|
    ensures ExtractGlyph(lines, code, start, height, hardblank).Err?
  {
    ExtractGlyphSpec(lines, code, start, height, hardblank);
    if height > 0 {
      var k := if start >= |lines| then 0 else |lines| - start;
      assert Row(lines, start, height, hardblank, k).Err?;
    }
  }
}
