/** The font-table builder: the required block of 102 glyphs and the
    code-tagged block, both written into one code-to-glyph map
    (`read_required_font`, `extract_codetag_font_code`, `read_codetag_font`
    and `read_fonts` in src/figlet.rs). */
module FontTable {
  import opened Wrappers
  import opened MachineInt
  import opened Text
  import opened Numbers
  import opened Header
  import opened Glyphs

  type Table = map<nat, FigCharacter>

  /** What one glyph slot of a block does to the table: insert a glyph under its
      code, fail, or end the block silently. */
  datatype Step = Insert(glyph: FigCharacter) | Fail(error: Failure) | Stop

  function StepOf(r: Result<FigCharacter>): Step
  {
    match r
    case Ok(g) => Insert(g)
    case Err(e) => Fail(e)
  }

  /** Runs the steps in order on the table: a later insert of a code replaces
      an earlier one, the first Fail is the result, and a Stop ends the block
      with the table built so far. */
  function Apply(steps: seq<Step>, table: Table): Result<Table>
    decreases |steps|
  {
    if steps == [] then Ok(table)
    else match steps[0]
      case Stop => Ok(table)
      case Fail(e) => Err(e)
      case Insert(g) => Apply(steps[1..], table[g.code := g])
  }

  /** The index of the first Stop, or the number of steps if there is none. */
  function StopIndex(steps: seq<Step>): (k: nat)
    ensures k <= |steps|
    ensures k < |steps| ==> steps[k].Stop?
    ensures forall i :: 0 <= i < k ==> !steps[i].Stop?
  {
    if steps == [] || steps[0].Stop? then 0 else 1 + StopIndex(steps[1..])
  }

  /** The codes inserted before the first Stop. */
  function InsertedCodes(steps: seq<Step>): set<nat>
  {
    set i | 0 <= i < StopIndex(steps) && steps[i].Insert? :: steps[i].glyph.code
  }

  /** Step i inserts a code that no later step before the first Stop inserts again. */
  predicate LastFor(steps: seq<Step>, i: nat)
    requires i < |steps| && steps[i].Insert?
  {
    forall j :: i < j < StopIndex(steps) && steps[j].Insert? ==> steps[j].glyph.code != steps[i].glyph.code
  }

  /** Every glyph is stored under its own code and has the given number of rows. */
  predicate WellFormed(table: Table, height: nat)
  {
    forall c :: c in table ==> table[c].code == c && |table[c].rows| == height
  }

  /** A run of steps fails exactly when a Fail comes before the first Stop, and
      then with the error of the first such Fail. */
  lemma {:induction false} ApplyErr(steps: seq<Step>, table: Table)
    ensures Apply(steps, table).Err? <==> exists i :: 0 <= i < StopIndex(steps) && steps[i].Fail?
    ensures Apply(steps, table).Err? ==>
      exists i :: 0 <= i < StopIndex(steps) && steps[i] == Fail(Apply(steps, table).error)
        && forall j :: 0 <= j < i ==> steps[j].Insert?
    decreases |steps|
  {
    if steps != [] && steps[0].Insert? {
      var g := steps[0].glyph;
      var rest := steps[1..];
      ApplyErr(rest, table[g.code := g]);
      assert StopIndex(steps) == 1 + StopIndex(rest);
      assert forall i :: 0 <= i < StopIndex(rest) ==> rest[i] == steps[i + 1];
      if exists i :: 0 <= i < StopIndex(steps) && steps[i].Fail? {
        var i :| 0 <= i < StopIndex(steps) && steps[i].Fail?;
        assert rest[i - 1].Fail?;
      }
      if Apply(steps, table).Err? {
        var i :| 0 <= i < StopIndex(rest) && rest[i] == Fail(Apply(rest, table[g.code := g]).error)
          && forall j :: 0 <= j < i ==> rest[j].Insert?;
        assert steps[i + 1] == rest[i];
        assert forall j :: 1 <= j < i + 1 ==> steps[j] == rest[j - 1];
      }
    }
  }

  /** A successful run inserts every step before the first Stop: the table
      gains exactly their codes, keeps every other entry, and holds for each
      code the glyph of its last insert. */
  lemma {:induction false} ApplyOk(steps: seq<Step>, table: Table, m: Table)
    requires Apply(steps, table) == Ok(m)
    ensures forall i :: 0 <= i < StopIndex(steps) ==> steps[i].Insert?
    ensures m.Keys == table.Keys + InsertedCodes(steps)
    ensures forall c :: c in table && c !in InsertedCodes(steps) ==> m[c] == table[c]
    ensures forall i :: 0 <= i < StopIndex(steps) && steps[i].Insert? && LastFor(steps, i) ==>
      m[steps[i].glyph.code] == steps[i].glyph
    decreases |steps|
  {
    if steps != [] && steps[0].Insert? {
      var g := steps[0].glyph;
      var rest := steps[1..];
      var t := table[g.code := g];
      ApplyOk(rest, t, m);
      StepsTail(steps);
      forall i | 0 <= i < StopIndex(steps) && steps[i].Insert? && LastFor(steps, i)
        ensures m[steps[i].glyph.code] == steps[i].glyph
      {
        if i > 0 {
          LastForTail(steps, i);
        }
      }
    }
  }

  /** Past an insert, the steps before the first Stop are those of the rest,
      shifted by one, and the inserted codes gain the first one. */
  lemma StepsTail(steps: seq<Step>)
    requires steps != [] && steps[0].Insert?
    ensures StopIndex(steps) == 1 + StopIndex(steps[1..])
    ensures forall i :: 0 <= i < StopIndex(steps[1..]) ==> steps[1..][i] == steps[i + 1]
    ensures InsertedCodes(steps) == {steps[0].glyph.code} + InsertedCodes(steps[1..])
  {
    var rest := steps[1..];
    var k := StopIndex(rest);
    assert forall i :: 0 <= i < k ==> rest[i] == steps[i + 1];
    forall c | c in InsertedCodes(steps) ensures c in {steps[0].glyph.code} + InsertedCodes(rest) {
      var i :| 0 <= i < StopIndex(steps) && steps[i].Insert? && steps[i].glyph.code == c;
      if i > 0 { assert rest[i - 1] == steps[i]; }
    }
    forall c | c in InsertedCodes(rest) ensures c in InsertedCodes(steps) {
      var i :| 0 <= i < k && rest[i].Insert? && rest[i].glyph.code == c;
      assert steps[i + 1] == rest[i];
    }
  }

  /** A last insert past the first step is still last among the rest. */
  lemma LastForTail(steps: seq<Step>, i: nat)
    requires steps != [] && steps[0].Insert?
    requires 0 < i < |steps| && steps[i].Insert? && LastFor(steps, i)
    ensures LastFor(steps[1..], i - 1)
  {
    var rest := steps[1..];
    StepsTail(steps);
    assert rest[i - 1] == steps[i];
    forall j | i - 1 < j < StopIndex(rest) && rest[j].Insert?
      ensures rest[j].glyph.code != rest[i - 1].glyph.code
    {
      assert steps[j + 1] == rest[j];
    }
  }

  /** Inserting glyphs of the table's height keeps it well formed. */
  lemma {:induction false} ApplyWellFormed(steps: seq<Step>, table: Table, height: nat)
    requires WellFormed(table, height)
    requires forall i :: 0 <= i < |steps| && steps[i].Insert? ==> |steps[i].glyph.rows| == height
    requires Apply(steps, table).Ok?
    ensures WellFormed(Apply(steps, table).value, height)
    decreases |steps|
  {
    if steps != [] && steps[0].Insert? {
      var g := steps[0].glyph;
      assert forall i :: 0 <= i < |steps| - 1 ==> steps[1..][i] == steps[i + 1];
      ApplyWellFormed(steps[1..], table[g.code := g], height);
    }
  }

  /** a <= b implies a * c <= b * c. */
  lemma {:induction false} MulLe(a: nat, b: nat, c: nat)
    requires a <= b
    ensures a * c <= b * c
    decreases c
  {
    if c > 0 {
      MulLe(a, b, c - 1);
      assert a * c == a * (c - 1) + a && b * c == b * (c - 1) + b;
    }
  }

  // ---------------------------------------------------------------- required block

  /** The codes 32..126 of the ASCII loop, in file order. */
  function AsciiCodes(): (s: seq<nat>)
    ensures |s| == 95 && forall j :: 0 <= j < 95 ==> s[j] == 32 + j
  {
    seq(95, j => 32 + j)
  }

  /** The seven German characters every font must define, in file order. */
  const DEUTSCH_CODES: seq<nat> := [196, 214, 220, 228, 246, 252, 223]

  /** The code of required glyph j: 32..126 for j < 95, then the German characters. */
  function RequiredCode(j: nat): (c: nat)
    requires j < 102
    ensures j < 95 ==> c == 32 + j
    ensures j >= 95 ==> c == DEUTSCH_CODES[j - 95]
  {
    if j < 95 then 32 + j else DEUTSCH_CODES[j - 95]
  }

  /** All 102 required codes in file order. */
  function RequiredCodes(): (s: seq<nat>)
    ensures |s| == 102 && forall j :: 0 <= j < 102 ==> s[j] == RequiredCode(j)
  {
    AsciiCodes() + DEUTSCH_CODES
  }

  /** The slot of a glyph for `code` starting at line `start`: past the end
      of the input it ends the block. */
  function Slot(lines: seq<string>, code: nat, start: nat, height: nat, hardblank: char): (s: Step)
    ensures s.Stop? <==> start >= |lines|
  {
    if start >= |lines| then Stop else StepOf(ExtractGlyph(lines, code, start, height, hardblank))
  }

  /** The first line of glyph j of a run of glyphs of the given height
      stored back to back from line `offset`. */
  function GlyphStart(offset: nat, j: nat, height: nat): nat
  {
    offset + j * height
  }

  /** The slots of a run of glyphs stored back to back: glyph j, for codes[j],
      starts at line offset + j * height. */
  function Slots(lines: seq<string>, codes: seq<nat>, offset: nat, height: nat, hardblank: char): (s: seq<Step>)
    ensures |s| == |codes|
  {
    seq(|codes|, j requires 0 <= j < |codes| => Slot(lines, codes[j], GlyphStart(offset, j, height), height, hardblank))
  }

  /** Slot j of a run. */
  lemma SlotsAt(lines: seq<string>, codes: seq<nat>, offset: nat, height: nat, hardblank: char, j: nat)
    requires j < |codes|
    ensures var start := GlyphStart(offset, j, height);
      && Slots(lines, codes, offset, height, hardblank)[j] == Slot(lines, codes[j], start, height, hardblank)
      && (start < |lines| ==> match ExtractGlyph(lines, codes[j], start, height, hardblank)
            case Ok(g) => Slots(lines, codes, offset, height, hardblank)[j] == Insert(g) && g.code == codes[j]
            case Err(e) => Slots(lines, codes, offset, height, hardblank)[j] == Fail(e))
  {
  }

  /** The required block as the Rust code reads it: `1 + comment_lines`
      overflowing i32 panics, the ASCII loop runs, then the start of the German
      loop, `offset + 95 * height`, is computed (an overflow panics) and that
      loop runs. */
  function RequiredFont(lines: seq<string>, header: HeaderLine, table: Table): Result<Table>
  {
    if !IsI32(1 + header.commentLines) then Err(Panic)
    else
      var offset := AsUsize(1 + header.commentLines);
      var height := AsUsize(header.height);
      match Apply(Slots(lines, AsciiCodes(), offset, height, header.hardblank), table)
      case Err(e) => Err(e)
      case Ok(m) =>
        if offset + 95 * height >= USIZE_LIMIT then Err(Panic)
        else Apply(Slots(lines, DEUTSCH_CODES, offset + 95 * height, height, header.hardblank), m)
  }

  /** One step of a run. */
  lemma ApplyAt(steps: seq<Step>, i: nat, table: Table)
    requires i < |steps|
    ensures steps[i].Stop? ==> Apply(steps[i..], table) == Ok(table)
    ensures steps[i].Fail? ==> Apply(steps[i..], table) == Err(steps[i].error)
    ensures steps[i].Insert? ==>
      Apply(steps[i..], table) == Apply(steps[i + 1..], table[steps[i].glyph.code := steps[i].glyph])
  {
    assert steps[i..][0] == steps[i] && steps[i..][1..] == steps[i + 1..];
  }

  /** One glyph slot of a run: a start past the input ends the block, a glyph
      that cannot be read is the block's error, and a glyph read is inserted. */
  lemma SlotAt(steps: seq<Step>, i: nat, table: Table,
               lines: seq<string>, code: nat, start: nat, height: nat, hardblank: char)
    requires i < |steps| && steps[i] == Slot(lines, code, start, height, hardblank)
    ensures start >= |lines| ==> Apply(steps[i..], table) == Ok(table)
    ensures start < |lines| ==> var g := ExtractGlyph(lines, code, start, height, hardblank);
      && (g.Err? ==> Apply(steps[i..], table) == Err(g.error))
      && (g.Ok? ==> Apply(steps[i..], table) == Apply(steps[i + 1..], table[code := g.value]))
  {
    ApplyAt(steps, i, table);
  }

  /** One loop of `read_required_font`: glyph i, for codes[i], starts at line
      offset + i * height; the loop ends silently at a start past the input and
      returns the first glyph error. */
  method ReadGlyphRun(lines: seq<string>, codes: seq<nat>, offset: nat, height: nat, hardblank: char, table: Table)
    returns (r: Result<Table>)
    ensures r == Apply(Slots(lines, codes, offset, height, hardblank), table)
  {
    ghost var steps := Slots(lines, codes, offset, height, hardblank);
    var size := |lines|;
    var fonts: Table := table;
    for i := 0 to |codes|
      invariant Apply(steps, table) == Apply(steps[i..], fonts)
    {
      var code := codes[i];
      var startIndex := offset + i * height;
      SlotAt(steps, i, fonts, lines, code, startIndex, height, hardblank);
      if startIndex >= size {
        break;
      }
      var font :- ExtractOneFont(lines, code, startIndex, height, hardblank);
      fonts := fonts[code := font];
    }
    r := Ok(fonts);
  }

  /** `read_required_font`: the ASCII loop over codes 32..126, then the German
      loop from its own start line. */
  method ReadRequiredFont(lines: seq<string>, headerline: HeaderLine, table: Table) returns (r: Result<Table>)
    ensures r == RequiredFont(lines, headerline, table)
  {
    if !IsI32(1 + headerline.commentLines) {
      return Err(Panic);
    }
    var offset := AsUsize(1 + headerline.commentLines);
    var height := AsUsize(headerline.height);
    var fonts :- ReadGlyphRun(lines, AsciiCodes(), offset, height, headerline.hardblank, table);
    if offset + 95 * height >= USIZE_LIMIT {
      return Err(Panic);
    }
    var offset2 := offset + 95 * height;
    r := ReadGlyphRun(lines, DEUTSCH_CODES, offset2, height, headerline.hardblank, fonts);
  }

  /** Running two blocks of steps back to back. */
  lemma {:induction false} ApplyAppend(a: seq<Step>, b: seq<Step>, table: Table)
    ensures Apply(a + b, table) == match Apply(a, table)
      case Err(e) => Err(e)
      case Ok(m) => if StopIndex(a) < |a| then Ok(m) else Apply(b, m)
    decreases |a|
  {
    if a == [] {
      assert a + b == b;
    } else {
      assert (a + b)[0] == a[0] && (a + b)[1..] == a[1..] + b;
      if a[0].Insert? {
        ApplyAppend(a[1..], b, table[a[0].glyph.code := a[0].glyph]);
      }
    }
  }

  /** Two runs back to back are one run whose second part starts where the
      first part ends. */
  lemma SlotsAppend(lines: seq<string>, a: seq<nat>, b: seq<nat>, offset: nat, height: nat, hardblank: char)
    ensures Slots(lines, a + b, offset, height, hardblank)
         == Slots(lines, a, offset, height, hardblank) + Slots(lines, b, offset + |a| * height, height, hardblank)
  {
    var first := Slots(lines, a, offset, height, hardblank);
    var second := Slots(lines, b, offset + |a| * height, height, hardblank);
    var all := Slots(lines, a + b, offset, height, hardblank);
    forall j | 0 <= j < |a| + |b| ensures all[j] == (first + second)[j] {
      if j >= |a| {
        var d := j - |a|;
        assert j * height == |a| * height + d * height;
        assert (first + second)[j] == second[d];
      } else {
        assert (first + second)[j] == first[j];
      }
    }
  }

  /** No two required glyphs share a code. */
  lemma RequiredCodesDistinct(i: nat, j: nat)
    requires i < 102 && j < 102 && i != j
    ensures RequiredCode(i) != RequiredCode(j)
  {
  }

  /** Without the overflow, the two loops read the block as one run over all
      102 required codes: if the ASCII loop stopped early, the German loop
      stops at once. */
  lemma RequiredSweep(lines: seq<string>, header: HeaderLine, table: Table)
    requires IsI32(1 + header.commentLines)
    requires AsUsize(1 + header.commentLines) + 95 * AsUsize(header.height) < USIZE_LIMIT
    ensures var offset := AsUsize(1 + header.commentLines); var height := AsUsize(header.height);
      RequiredFont(lines, header, table) == Apply(Slots(lines, RequiredCodes(), offset, height, header.hardblank), table)
  {
    var offset := AsUsize(1 + header.commentLines);
    var height := AsUsize(header.height);
    var hb := header.hardblank;
    var ascii := Slots(lines, AsciiCodes(), offset, height, hb);
    var deutsch := Slots(lines, DEUTSCH_CODES, offset + 95 * height, height, hb);
    SlotsAppend(lines, AsciiCodes(), DEUTSCH_CODES, offset, height, hb);
    ApplyAppend(ascii, deutsch, table);
    var k := StopIndex(ascii);
    if k < 95 && Apply(ascii, table).Ok? {
      assert ascii[k].Stop?;
      MulLe(k, 95, height);
      assert deutsch[0].Stop?;
      ApplyAt(deutsch, 0, Apply(ascii, table).value);
    }
  }

  /** The starts of the required glyphs never decrease, so the ones inside
      the input are exactly those before the first Stop. */
  lemma RequiredStops(lines: seq<string>, offset: nat, height: nat, hardblank: char)
    ensures var steps := Slots(lines, RequiredCodes(), offset, height, hardblank);
      forall j :: 0 <= j < 102 ==> (j < StopIndex(steps) <==> GlyphStart(offset, j, height) < |lines|)
  {
    var steps := Slots(lines, RequiredCodes(), offset, height, hardblank);
    var k := StopIndex(steps);
    forall j | 0 <= j < 102 ensures j < k <==> GlyphStart(offset, j, height) < |lines| {
      if j < k {
        assert !steps[j].Stop?;
      } else {
        assert steps[k].Stop?;
        MulLe(k, j, height);
      }
    }
  }

  /** The codes of the required slots whose start line lies inside the input. */
  function RequiredInside(lines: seq<string>, offset: nat, height: nat): set<nat>
  {
    set j | 0 <= j < 102 && GlyphStart(offset, j, height) < |lines| :: RequiredCode(j)
  }

  /** A successful one-run reading of the required block. */
  lemma RequiredStepsOk(lines: seq<string>, offset: nat, height: nat, hardblank: char, table: Table, m: Table)
    requires Apply(Slots(lines, RequiredCodes(), offset, height, hardblank), table) == Ok(m)
    ensures forall j :: 0 <= j < 102 && GlyphStart(offset, j, height) < |lines| ==>
      var g := ExtractGlyph(lines, RequiredCode(j), GlyphStart(offset, j, height), height, hardblank);
      g.Ok? && RequiredCode(j) in m && m[RequiredCode(j)] == g.value
    ensures m.Keys == table.Keys + RequiredInside(lines, offset, height)
    ensures forall c :: c in table && c !in RequiredInside(lines, offset, height) ==> m[c] == table[c]
  {
    var steps := Slots(lines, RequiredCodes(), offset, height, hardblank);
    ApplyOk(steps, table, m);
    RequiredStops(lines, offset, height, hardblank);
    var k := StopIndex(steps);
    forall j | 0 <= j < k ensures steps[j].Insert? && steps[j].glyph.code == RequiredCode(j) {
      SlotsAt(lines, RequiredCodes(), offset, height, hardblank, j);
    }
    forall j | 0 <= j < k ensures LastFor(steps, j) {
      forall i | j < i < k && steps[i].Insert? ensures steps[i].glyph.code != steps[j].glyph.code {
        RequiredCodesDistinct(i, j);
      }
    }
    forall j | 0 <= j < 102 && GlyphStart(offset, j, height) < |lines|
      ensures var g := ExtractGlyph(lines, RequiredCode(j), GlyphStart(offset, j, height), height, hardblank);
        g.Ok? && RequiredCode(j) in m && m[RequiredCode(j)] == g.value
    {
      SlotsAt(lines, RequiredCodes(), offset, height, hardblank, j);
    }
    assert InsertedCodes(steps) == RequiredInside(lines, offset, height) by {
      forall c | c in RequiredInside(lines, offset, height) ensures c in InsertedCodes(steps) {
        var j :| 0 <= j < 102 && GlyphStart(offset, j, height) < |lines| && RequiredCode(j) == c;
        assert steps[j].glyph.code == c;
      }
    }
  }

  /** What a successfully read required block adds to the table: for every
      required slot j whose start line offset + j * height lies inside the
      input, the glyph extracted there under code RequiredCode(j), and
      nothing else; other entries are kept. */
  lemma RequiredBlock(lines: seq<string>, header: HeaderLine, table: Table, m: Table)
    requires RequiredFont(lines, header, table) == Ok(m)
    ensures IsI32(1 + header.commentLines)
    ensures var offset := AsUsize(1 + header.commentLines); var height := AsUsize(header.height);
      && offset + 95 * height < USIZE_LIMIT
      && (forall j :: 0 <= j < 102 && GlyphStart(offset, j, height) < |lines| ==>
            var g := ExtractGlyph(lines, RequiredCode(j), GlyphStart(offset, j, height), height, header.hardblank);
            g.Ok? && RequiredCode(j) in m && m[RequiredCode(j)] == g.value)
      && m.Keys == table.Keys + RequiredInside(lines, offset, height)
      && (forall c :: c in table && c !in RequiredInside(lines, offset, height) ==> m[c] == table[c])
  {
    RequiredSweep(lines, header, table);
    RequiredStepsOk(lines, AsUsize(1 + header.commentLines), AsUsize(header.height), header.hardblank, table, m);
  }

  // ---------------------------------------------------------------- code-tagged block

  /** The code literal of a code tag: "0x" or "0X" introduces a hexadecimal
      number, any other leading '0' an octal one, and the rest is decimal. */
  function ParseCodeLiteral(code: string): (r: Option<nat>)
    ensures r.Some? ==> r.value <= U32_MAX
  {
    if |code| >= 2 && code[..2] == "0x" then ParseU32(code[2..], 16)
    else if |code| >= 2 && code[..2] == "0X" then ParseU32(code[2..], 16)
    else if |code| >= 1 && code[0] == '0' then ParseU32(code[1..], 8)
    else ParseU32(code, 10)
  }

  /** `extract_codetag_font_code`: the code literal is the first
      space-separated token of the trimmed line (splitting always yields at
      least one token, so the source's empty-token check never fires). */
  function CodetagCode(lines: seq<string>, index: nat): (r: Result<nat>)
    ensures index >= |lines| ==> r == Err(FormatError)
    ensures r.Err? ==> r.error == FormatError
    ensures index < |lines| ==> match ParseCodeLiteral(Trim(Split(Trim(lines[index]), ' ')[0]))
      case None => r.Err?
      case Some(c) => r == Ok(c)
  {
    if index >= |lines| then Err(FormatError)
    else
      var infos := Split(Trim(lines[index]), ' ');
      match ParseCodeLiteral(Trim(infos[0]))
      case None => Err(FormatError)
      case Some(c) => Ok(c)
  }

  /** A hexadecimal literal, with either prefix, denotes its value. */
  lemma HexLiteral(n: nat)
    requires n <= U32_MAX
    ensures ParseCodeLiteral("0x" + ToDigits(n, 16)) == Some(n)
    ensures ParseCodeLiteral("0X" + ToDigits(n, 16)) == Some(n)
  {
    var d := ToDigits(n, 16);
    DigitsRoundTrip(n, 16, false, 0, U32_MAX);
    assert ("0x" + d)[..2] == "0x" && ("0x" + d)[2..] == d;
    assert ("0X" + d)[..2] == "0X" && ("0X" + d)[2..] == d;
  }

  /** A '0' followed by octal digits denotes their value. */
  lemma OctalLiteral(n: nat)
    requires n <= U32_MAX
    ensures ParseCodeLiteral("0" + ToDigits(n, 8)) == Some(n)
  {
    var d := ToDigits(n, 8);
    DigitsRoundTrip(n, 8, false, 0, U32_MAX);
    var s := "0" + d;
    assert s[1..] == d;
    assert DigitValue(d[0]) < 8;
    assert s[..2][1] == d[0];
  }

  /** A decimal literal without leading zeros denotes its value. */
  lemma DecimalLiteral(n: nat)
    requires 0 < n <= U32_MAX
    ensures ParseCodeLiteral(ToDigits(n, 10)) == Some(n)
  {
    var d := ToDigits(n, 10);
    DigitsRoundTrip(n, 10, false, 0, U32_MAX);
    assert ParseU32(d, 10) == Some(n);
    assert d[0] != '0';
    if |d| >= 2 {
      assert d[..2][0] == d[0];
    }
  }

  /** A lone "0" is read as octal with no digits, which `from_str_radix`
      rejects: code 0 can only be written "00" or "0x0". A negative code is
      rejected by the unsigned parse. */
  lemma RejectedLiterals(s: string)
    ensures ParseCodeLiteral("0") == None
    ensures ParseCodeLiteral("00") == Some(0)
    ensures ParseCodeLiteral("-" + s) == None
  {
    assert "00"[1..] == "0";
    assert DigitsValue("0", 8) == 0;
    assert ("-" + s)[0] == '-';
  }

  /** The code of a tag line that is a code literal, alone or followed by a
      space and more text. */
  lemma CodetagLine(lines: seq<string>, index: nat, token: string, rest: string)
    requires index < |lines|
    requires token != [] && ' ' !in token && !IsWhitespace(token[0]) && !IsWhitespace(token[|token| - 1])
    requires lines[index] == token || (lines[index] == token + " " + rest && rest != [] && !IsWhitespace(rest[|rest| - 1]))
    ensures CodetagCode(lines, index) == match ParseCodeLiteral(token)
      case None => Err(FormatError)
      case Some(c) => Ok(c)
  {
    var line := lines[index];
    TrimUnchanged(token);
    if line == token {
      SplitNone(token, ' ');
    } else {
      assert line == token + [' '] + rest;
      assert line[0] == token[0] && line[|line| - 1] == rest[|rest| - 1];
      TrimUnchanged(line);
      SplitAt(token, ' ', rest);
    }
  }

  lemma DivExact(a: nat, b: nat)
    requires b >= 1 && a % b == 0
    ensures (a / b) * b == a
  {
  }

  /** The lines before the code-tagged block: the header, the comments and
      the 102 required glyphs. */
  function RequiredLines(header: HeaderLine): int
  {
    1 + header.commentLines + 102 * header.height
  }

  /** The lines of one code-tagged glyph: its code line and its rows. */
  function GroupHeight(header: HeaderLine): int
  {
    header.height + 1
  }

  /** n lines are a whole number of groups of `groupHeight` lines. */
  predicate WholeGroups(n: int, groupHeight: int)
  {
    groupHeight >= 1 && n % groupHeight == 0
  }

  /** Where the code-tagged block starts, how many lines each of its glyphs
      takes (the code line plus `height` rows) and how many glyphs it holds.
      The i32 sums overflowing, the input being shorter than the required
      part, and `height + 1` being zero make the Rust code panic; a block
      that is not a whole number of glyphs is an error. */
  function CodetagLayout(lines: seq<string>, header: HeaderLine): (r: Result<(nat, nat, nat)>)
    ensures r.Ok? ==> var (offset, groupHeight, count) := r.value;
      && groupHeight >= 1 && offset + count * groupHeight == |lines|
      && IsI32(1 + header.commentLines + 102 * header.height)
      && offset == AsUsize(1 + header.commentLines + 102 * header.height)
      && IsI32(header.height + 1) && groupHeight == AsUsize(header.height + 1)
    ensures r.Err? && r.error == FormatError ==>
      IsI32(1 + header.commentLines + 102 * header.height) && IsI32(header.height + 1) &&
      var offset := AsUsize(1 + header.commentLines + 102 * header.height);
      var groupHeight := AsUsize(header.height + 1);
      offset <= |lines| && groupHeight >= 1 && !WholeGroups(|lines| - offset, groupHeight)
    ensures (0 <= header.height && 0 <= header.commentLines && IsI32(RequiredLines(header))
             && IsI32(header.height + 1) && RequiredLines(header) <= |lines|) ==>
      && (r.Ok? <==> WholeGroups(|lines| - RequiredLines(header), header.height + 1))
      && (r.Err? ==> r.error == FormatError)
  {
    var c := header.commentLines;
    var h := header.height;
    if !IsI32(1 + c) || !IsI32(102 * h) || !IsI32(1 + c + 102 * h) then Err(Panic)
    else
      var offset := AsUsize(1 + c + 102 * h);
      if !IsI32(h + 1) then Err(Panic)
      else
        var groupHeight := AsUsize(h + 1);
        if |lines| < offset then Err(Panic)
        else
          var codetagLines := |lines| - offset;
          if groupHeight == 0 then Err(Panic)
          else if codetagLines % groupHeight != 0 then Err(FormatError)
          else
            DivExact(codetagLines, groupHeight);
            Ok((offset, groupHeight, codetagLines / groupHeight))
  }

  /** A laid-out block is a whole number of groups: the lines after the
      required part leave no remainder. */
  lemma CodetagLayoutDivides(lines: seq<string>, header: HeaderLine)
    requires CodetagLayout(lines, header).Ok?
    ensures var (offset, groupHeight, _) := CodetagLayout(lines, header).value;
      offset <= |lines| && WholeGroups(|lines| - offset, groupHeight)
  {
  }

  /** One code-tagged glyph: the code from the tag line at `start`, then the
      glyph's rows from the next line. */
  function CodetagEntry(lines: seq<string>, start: nat, height: nat, hardblank: char): (r: Result<FigCharacter>)
    ensures r.Ok? ==> CodetagCode(lines, start).Ok? && r.value.code == CodetagCode(lines, start).value
  {
    var code :- CodetagCode(lines, start);
    ExtractGlyph(lines, code, start + 1, height, hardblank)
  }

  /** The slots of the code-tagged block: glyph i's tag line is
      offset + i * groupHeight; past the input it would end the block. */
  function CodetagSteps(lines: seq<string>, offset: nat, groupHeight: nat, count: nat, height: nat, hardblank: char)
    : (s: seq<Step>)
    ensures |s| == count
  {
    seq(count, i requires 0 <= i < count =>
      var start := GlyphStart(offset, i, groupHeight);
      if start >= |lines| then Stop else StepOf(CodetagEntry(lines, start, height, hardblank)))
  }

  /** The code-tagged block as the Rust code reads it. */
  function CodetagFont(lines: seq<string>, header: HeaderLine, table: Table): Result<Table>
  {
    match CodetagLayout(lines, header)
    case Err(e) => Err(e)
    case Ok((offset, groupHeight, count)) =>
      Apply(CodetagSteps(lines, offset, groupHeight, count, AsUsize(header.height), header.hardblank), table)
  }

  /** One slot of a code-tagged block: past the input it ends the block; a
      tag that does not parse or a glyph that cannot be read is the block's
      error; otherwise the glyph goes in under the tag's code. */
  lemma CodetagSlotAt(lines: seq<string>, offset: nat, groupHeight: nat, count: nat, height: nat, hardblank: char,
                      i: nat, table: Table)
    requires i < count
    ensures var steps := CodetagSteps(lines, offset, groupHeight, count, height, hardblank);
      var start := GlyphStart(offset, i, groupHeight);
      if start >= |lines| then Apply(steps[i..], table) == Ok(table)
      else match CodetagCode(lines, start)
        case Err(e) => Apply(steps[i..], table) == Err(e)
        case Ok(code) =>
          match ExtractGlyph(lines, code, start + 1, height, hardblank)
          case Err(e) => Apply(steps[i..], table) == Err(e)
          case Ok(g) => Apply(steps[i..], table) == Apply(steps[i + 1..], table[code := g])
  {
    var steps := CodetagSteps(lines, offset, groupHeight, count, height, hardblank);
    var start := GlyphStart(offset, i, groupHeight);
    ApplyAt(steps, i, table);
    if start < |lines| {
      var e := CodetagEntry(lines, start, height, hardblank);
      assert steps[i] == StepOf(e);
      match CodetagCode(lines, start) {
        case Err(er) =>
          assert e == Err(er);
        case Ok(code) =>
          assert e == ExtractGlyph(lines, code, start + 1, height, hardblank);
      }
    }
  }

  /** `read_codetag_font`: lays out the block, then reads its glyphs in order,
      each under the code of its tag line. */
  method ReadCodetagFont(lines: seq<string>, headerline: HeaderLine, table: Table) returns (r: Result<Table>)
    ensures r == CodetagFont(lines, headerline, table)
  {
    var layout :- CodetagLayout(lines, headerline);
    var (offset, codetagHeight, size) := layout;
    r := ReadCodetagRun(lines, offset, codetagHeight, size, AsUsize(headerline.height), headerline.hardblank, table);
  }

  /** The loop of `read_codetag_font`: for each of the `count` groups, the
      code from its tag line, then the glyph's rows under it. */
  method ReadCodetagRun(lines: seq<string>, offset: nat, groupHeight: nat, count: nat, height: nat, hardblank: char,
                        table: Table) returns (r: Result<Table>)
    ensures r == Apply(CodetagSteps(lines, offset, groupHeight, count, height, hardblank), table)
  {
    ghost var steps := CodetagSteps(lines, offset, groupHeight, count, height, hardblank);
    var fonts: Table := table;
    for i := 0 to count
      invariant Apply(steps, table) == Apply(steps[i..], fonts)
    {
      var startIndex := GlyphStart(offset, i, groupHeight);
      CodetagSlotAt(lines, offset, groupHeight, count, height, hardblank, i, fonts);
      if startIndex >= |lines| {
        break;
      }
      var code :- CodetagCode(lines, startIndex);
      var font :- ExtractOneFont(lines, code, startIndex + 1, height, hardblank);
      fonts := fonts[code := font];
    }
    r := Ok(fonts);
  }

  /** Every tag line of a laid-out block lies inside the input, so the
      loop's early exit never fires: the block has no Stop. */
  lemma CodetagInside(lines: seq<string>, offset: nat, groupHeight: nat, count: nat, height: nat, hardblank: char)
    requires groupHeight >= 1 && offset + count * groupHeight == |lines|
    ensures forall i :: 0 <= i < count ==> GlyphStart(offset, i, groupHeight) < |lines|
    ensures StopIndex(CodetagSteps(lines, offset, groupHeight, count, height, hardblank)) == count
  {
    forall i | 0 <= i < count ensures GlyphStart(offset, i, groupHeight) < |lines| {
      MulLe(i + 1, count, groupHeight);
    }
  }

  /** The set of codes the tag lines of a block name. */
  function CodetagCodes(lines: seq<string>, offset: nat, groupHeight: nat, count: nat, height: nat, hardblank: char)
    : set<nat>
  {
    set i | 0 <= i < count && Entry(lines, offset, groupHeight, height, hardblank, i).Ok?
      :: Entry(lines, offset, groupHeight, height, hardblank, i).value.code
  }

  /** Entry i of a code-tagged block. */
  function Entry(lines: seq<string>, offset: nat, groupHeight: nat, height: nat, hardblank: char, i: nat)
    : Result<FigCharacter>
  {
    CodetagEntry(lines, GlyphStart(offset, i, groupHeight), height, hardblank)
  }

  /** Entry i names a code that no later entry of the block names again. */
  predicate LastEntry(lines: seq<string>, offset: nat, groupHeight: nat, count: nat, height: nat, hardblank: char,
                      i: nat)
  {
    var e := Entry(lines, offset, groupHeight, height, hardblank, i);
    e.Ok? && forall j :: i < j < count && Entry(lines, offset, groupHeight, height, hardblank, j).Ok? ==>
      Entry(lines, offset, groupHeight, height, hardblank, j).value.code != e.value.code
  }

  /** Slot i of a code-tagged block whose tag line lies inside the input. */
  lemma CodetagStepAt(lines: seq<string>, offset: nat, groupHeight: nat, count: nat, height: nat, hardblank: char,
                      i: nat)
    requires i < count && GlyphStart(offset, i, groupHeight) < |lines|
    ensures var steps := CodetagSteps(lines, offset, groupHeight, count, height, hardblank);
      match Entry(lines, offset, groupHeight, height, hardblank, i)
      case Ok(g) => steps[i] == Insert(g)
      case Err(e) => steps[i] == Fail(e)
  {
  }

  /** The slots of a laid-out block are its entries, in order. */
  lemma CodetagStepsAll(lines: seq<string>, offset: nat, groupHeight: nat, count: nat, height: nat, hardblank: char)
    requires groupHeight >= 1 && offset + count * groupHeight == |lines|
    ensures var steps := CodetagSteps(lines, offset, groupHeight, count, height, hardblank);
      && StopIndex(steps) == count
      && forall i :: 0 <= i < count ==> steps[i] == StepOf(Entry(lines, offset, groupHeight, height, hardblank, i))
  {
    CodetagInside(lines, offset, groupHeight, count, height, hardblank);
    forall i | 0 <= i < count
      ensures CodetagSteps(lines, offset, groupHeight, count, height, hardblank)[i]
           == StepOf(Entry(lines, offset, groupHeight, height, hardblank, i))
    {
      CodetagStepAt(lines, offset, groupHeight, count, height, hardblank, i);
    }
  }

  /** A laid-out block is read exactly when every entry can be read. */
  lemma CodetagStepsRun(lines: seq<string>, offset: nat, groupHeight: nat, count: nat, height: nat, hardblank: char,
                        table: Table)
    requires groupHeight >= 1 && offset + count * groupHeight == |lines|
    ensures Apply(CodetagSteps(lines, offset, groupHeight, count, height, hardblank), table).Ok?
      <==> forall i :: 0 <= i < count ==> Entry(lines, offset, groupHeight, height, hardblank, i).Ok?
  {
    var steps := CodetagSteps(lines, offset, groupHeight, count, height, hardblank);
    CodetagStepsAll(lines, offset, groupHeight, count, height, hardblank);
    ApplyErr(steps, table);
    if Apply(steps, table).Err? {
      var i :| 0 <= i < count && steps[i].Fail?;
      assert Entry(lines, offset, groupHeight, height, hardblank, i).Err?;
    }
  }

  /** A successful run of a laid-out block stores each code's last entry. */
  lemma CodetagStepsOk(lines: seq<string>, offset: nat, groupHeight: nat, count: nat, height: nat, hardblank: char,
                       table: Table, m: Table)
    requires groupHeight >= 1 && offset + count * groupHeight == |lines|
    requires Apply(CodetagSteps(lines, offset, groupHeight, count, height, hardblank), table) == Ok(m)
    ensures var codes := CodetagCodes(lines, offset, groupHeight, count, height, hardblank);
      && m.Keys == table.Keys + codes
      && (forall c :: c in table && c !in codes ==> m[c] == table[c])
      && (forall i :: 0 <= i < count && LastEntry(lines, offset, groupHeight, count, height, hardblank, i) ==>
            var e := Entry(lines, offset, groupHeight, height, hardblank, i).value;
            e.code in m && m[e.code] == e)
  {
    var steps := CodetagSteps(lines, offset, groupHeight, count, height, hardblank);
    CodetagStepsAll(lines, offset, groupHeight, count, height, hardblank);
    CodetagStepsRun(lines, offset, groupHeight, count, height, hardblank, table);
    ApplyOk(steps, table, m);
    var codes := CodetagCodes(lines, offset, groupHeight, count, height, hardblank);
    assert InsertedCodes(steps) == codes by {
      forall c | c in codes ensures c in InsertedCodes(steps) {
        var i :| 0 <= i < count && Entry(lines, offset, groupHeight, height, hardblank, i).Ok?
          && Entry(lines, offset, groupHeight, height, hardblank, i).value.code == c;
        assert steps[i].glyph.code == c;
      }
      forall c | c in InsertedCodes(steps) ensures c in codes {
        var i :| 0 <= i < count && steps[i].Insert? && steps[i].glyph.code == c;
        assert Entry(lines, offset, groupHeight, height, hardblank, i).value.code == c;
      }
    }
    forall i | 0 <= i < count && LastEntry(lines, offset, groupHeight, count, height, hardblank, i)
      ensures LastFor(steps, i)
    {
    }
  }

  /** A code-tagged block is read exactly when it lays out and every one of
      its entries (a code literal and a glyph) can be read. */
  lemma CodetagOk(lines: seq<string>, header: HeaderLine, table: Table)
    ensures CodetagFont(lines, header, table).Ok? <==>
      && CodetagLayout(lines, header).Ok?
      && var (offset, groupHeight, count) := CodetagLayout(lines, header).value;
         forall i :: 0 <= i < count ==>
           Entry(lines, offset, groupHeight, AsUsize(header.height), header.hardblank, i).Ok?
  {
    if CodetagLayout(lines, header).Ok? {
      var (offset, groupHeight, count) := CodetagLayout(lines, header).value;
      CodetagStepsRun(lines, offset, groupHeight, count, AsUsize(header.height), header.hardblank, table);
    }
  }

  /** What a successfully read code-tagged block adds to the table: the codes
      its tag lines name, each holding the glyph of its last entry, with every
      other entry kept. */
  lemma CodetagBlock(lines: seq<string>, header: HeaderLine, table: Table, m: Table)
    requires CodetagFont(lines, header, table) == Ok(m)
    ensures CodetagLayout(lines, header).Ok?
    ensures var (offset, groupHeight, count) := CodetagLayout(lines, header).value;
      var height := AsUsize(header.height);
      var codes := CodetagCodes(lines, offset, groupHeight, count, height, header.hardblank);
      && m.Keys == table.Keys + codes
      && (forall c :: c in table && c !in codes ==> m[c] == table[c])
      && (forall i :: 0 <= i < count && LastEntry(lines, offset, groupHeight, count, height, header.hardblank, i) ==>
            var e := Entry(lines, offset, groupHeight, height, header.hardblank, i).value;
            e.code in m && m[e.code] == e)
  {
    var (offset, groupHeight, count) := CodetagLayout(lines, header).value;
    CodetagStepsOk(lines, offset, groupHeight, count, AsUsize(header.height), header.hardblank, table, m);
  }

  // ---------------------------------------------------------------- whole table

  /** The glyph table of a font: the required block, then the code-tagged
      block, written into one initially empty map. */
  function Fonts(lines: seq<string>, header: HeaderLine): Result<Table>
  {
    match RequiredFont(lines, header, map[])
    case Err(e) => Err(e)
    case Ok(m) => CodetagFont(lines, header, m)
  }

  /** `read_fonts`. */
  method ReadFonts(lines: seq<string>, headerline: HeaderLine) returns (r: Result<Table>)
    ensures r == Fonts(lines, headerline)
  {
    var fonts: Table := map[];
    fonts :- ReadRequiredFont(lines, headerline, fonts);
    r := ReadCodetagFont(lines, headerline, fonts);
  }

  /** Every glyph a run of slots inserts has `height` rows. */
  lemma SlotsRows(lines: seq<string>, codes: seq<nat>, offset: nat, height: nat, hardblank: char)
    ensures var steps := Slots(lines, codes, offset, height, hardblank);
      forall i :: 0 <= i < |steps| && steps[i].Insert? ==> |steps[i].glyph.rows| == height
  {
    var steps := Slots(lines, codes, offset, height, hardblank);
    forall i | 0 <= i < |steps| && steps[i].Insert? ensures |steps[i].glyph.rows| == height {
      SlotsAt(lines, codes, offset, height, hardblank, i);
      ExtractGlyphSpec(lines, codes[i], GlyphStart(offset, i, height), height, hardblank);
    }
  }

  /** Every glyph a code-tagged block inserts has `height` rows. */
  lemma CodetagRows(lines: seq<string>, offset: nat, groupHeight: nat, count: nat, height: nat, hardblank: char)
    ensures var steps := CodetagSteps(lines, offset, groupHeight, count, height, hardblank);
      forall i :: 0 <= i < |steps| && steps[i].Insert? ==> |steps[i].glyph.rows| == height
  {
    var steps := CodetagSteps(lines, offset, groupHeight, count, height, hardblank);
    forall i | 0 <= i < |steps| && steps[i].Insert? ensures |steps[i].glyph.rows| == height {
      var start := GlyphStart(offset, i, groupHeight);
      CodetagStepAt(lines, offset, groupHeight, count, height, hardblank, i);
      var code := CodetagCode(lines, start).value;
      ExtractGlyphSpec(lines, code, start + 1, height, hardblank);
    }
  }

  /** The required block keeps a table well formed. */
  lemma RequiredWellFormed(lines: seq<string>, header: HeaderLine, table: Table)
    requires WellFormed(table, AsUsize(header.height))
    requires RequiredFont(lines, header, table).Ok?
    ensures WellFormed(RequiredFont(lines, header, table).value, AsUsize(header.height))
  {
    var height := AsUsize(header.height);
    var hb := header.hardblank;
    var offset := AsUsize(1 + header.commentLines);
    var ascii := Slots(lines, AsciiCodes(), offset, height, hb);
    SlotsRows(lines, AsciiCodes(), offset, height, hb);
    ApplyWellFormed(ascii, table, height);
    SlotsRows(lines, DEUTSCH_CODES, offset + 95 * height, height, hb);
    ApplyWellFormed(Slots(lines, DEUTSCH_CODES, offset + 95 * height, height, hb), Apply(ascii, table).value, height);
  }

  /** The code-tagged block keeps a table well formed. */
  lemma CodetagWellFormed(lines: seq<string>, header: HeaderLine, table: Table)
    requires WellFormed(table, AsUsize(header.height))
    requires CodetagFont(lines, header, table).Ok?
    ensures WellFormed(CodetagFont(lines, header, table).value, AsUsize(header.height))
  {
    var height := AsUsize(header.height);
    var (o, gh, count) := CodetagLayout(lines, header).value;
    CodetagRows(lines, o, gh, count, height, header.hardblank);
    ApplyWellFormed(CodetagSteps(lines, o, gh, count, height, header.hardblank), table, height);
  }

  /** In a font's table every glyph sits under its own code and has the
      font's height in rows. */
  lemma FontsWellFormed(lines: seq<string>, header: HeaderLine, m: Table)
    requires Fonts(lines, header) == Ok(m)
    ensures WellFormed(m, AsUsize(header.height))
  {
    RequiredWellFormed(lines, header, map[]);
    CodetagWellFormed(lines, header, RequiredFont(lines, header, map[]).value);
  }

  /** A negative height, taken as a usize, overflows the start of the
      second run of required glyphs. */
  lemma FontsHeight(lines: seq<string>, header: HeaderLine)
    requires Fonts(lines, header).Ok?
    ensures header.height >= 0
  {
    RequiredBlock(lines, header, map[], RequiredFont(lines, header, map[]).value);
  }

  /** A table that can be read has a non-negative height (a negative one,
      taken as a usize, overflows the start of the second run), the lines
      after the 102 required glyphs form a whole number of code-tagged
      groups, and the table is well formed. */
  lemma FontsShape(lines: seq<string>, header: HeaderLine, m: Table)
    requires Fonts(lines, header) == Ok(m)
    requires header.commentLines >= 0
    ensures header.height >= 0
    ensures RequiredLines(header) <= |lines| && WholeGroups(|lines| - RequiredLines(header), header.height + 1)
    ensures WellFormed(m, header.height)
  {
    FontsHeight(lines, header);
    CodetagLayoutDivides(lines, header);
    var (offset, groupHeight, _) := CodetagLayout(lines, header).value;
    assert offset == RequiredLines(header);
    assert groupHeight == header.height + 1;
    FontsWellFormed(lines, header, m);
  }

  /** A font of positive height whose table can be read defines all 102
      required characters: the code-tagged block can only start after them. */
  lemma FontsRequired(lines: seq<string>, header: HeaderLine, m: Table)
    requires Fonts(lines, header) == Ok(m)
    requires header.height >= 1 && header.commentLines >= 0
    ensures forall j :: 0 <= j < 102 ==> RequiredCode(j) in m
  {
    var required := RequiredFont(lines, header, map[]).value;
    RequiredBlock(lines, header, map[], required);
    CodetagBlock(lines, header, required, m);
    var offset: nat := 1 + header.commentLines;
    var height: nat := header.height;
    forall j | 0 <= j < 102 ensures RequiredCode(j) in m {
      MulLe(j, 101, height);
      assert GlyphStart(offset, j, height) < |lines|;
      assert RequiredCode(j) in RequiredInside(lines, offset, height);
    }
  }

  /** No glyph of height 0 can be read. */
  lemma EntryZeroHeight(lines: seq<string>, start: nat, hardblank: char)
    ensures CodetagEntry(lines, start, 0, hardblank).Err?
  {
    if CodetagCode(lines, start).Ok? {
      ExtractGlyphSpec(lines, CodetagCode(lines, start).value, start + 1, 0, hardblank);
    }
  }

  /** A font of height 0 has no glyph to read: its table can be read only
      when no line follows the comments, and is then empty. */
  lemma FontsZeroHeight(lines: seq<string>, header: HeaderLine, m: Table)
    requires Fonts(lines, header) == Ok(m)
    requires header.height == 0
    ensures m == map[]
    ensures |lines| == AsUsize(1 + header.commentLines)
  {
    var required := RequiredFont(lines, header, map[]).value;
    RequiredBlock(lines, header, map[], required);
    var offset := AsUsize(1 + header.commentLines);
    assert RequiredInside(lines, offset, 0) == {} by {
      forall j | 0 <= j < 102 && GlyphStart(offset, j, 0) < |lines| ensures false {
        ExtractGlyphSpec(lines, RequiredCode(j), GlyphStart(offset, j, 0), 0, header.hardblank);
      }
    }
    CodetagBlock(lines, header, required, m);
    CodetagOk(lines, header, required);
    var (o, gh, count) := CodetagLayout(lines, header).value;
    EntryZeroHeight(lines, GlyphStart(o, 0, gh), header.hardblank);
    assert CodetagCodes(lines, o, gh, count, 0, header.hardblank) == {};
  }

  /** What a font of positive height needs for its glyph table to be read:
      the i32 sums fit, the input holds the header, the comments and the 102
      required glyphs, each of those glyphs can be read, the rest is a whole
      number of code-tagged groups, and each code-tagged entry can be read. */
  predicate TableReadable(lines: seq<string>, header: HeaderLine)
    requires header.height >= 1 && header.commentLines >= 0
  {
    var offset: nat := 1 + header.commentLines;
    var height: nat := header.height;
    var rl: nat := RequiredLines(header);
    && IsI32(rl) && rl <= |lines| && WholeGroups(|lines| - rl, GroupHeight(header))
    && (forall j :: 0 <= j < 102 ==>
          ExtractGlyph(lines, RequiredCode(j), GlyphStart(offset, j, height), height, header.hardblank).Ok?)
    && (forall i :: 0 <= i < (|lines| - rl) / GroupHeight(header) ==>
          Entry(lines, rl, GroupHeight(header), height, header.hardblank, i).Ok?)
  }

  /** The glyph table of a font of positive height is read exactly when
      TableReadable holds. */
  lemma FontsAccepted(lines: seq<string>, header: HeaderLine)
    requires header.height >= 1 && header.commentLines >= 0
    ensures Fonts(lines, header).Ok? <==> TableReadable(lines, header)
  {
    if Fonts(lines, header).Ok? {
      FontsNeed(lines, header);
    } else if TableReadable(lines, header) {
      FontsRead(lines, header);
    }
  }

  /** A table that was read meets TableReadable. */
  lemma FontsNeed(lines: seq<string>, header: HeaderLine)
    requires header.height >= 1 && header.commentLines >= 0
    requires Fonts(lines, header).Ok?
    ensures TableReadable(lines, header)
  {
    FontsShape(lines, header, Fonts(lines, header).value);
    FontsNeedGlyphs(lines, header);
    FontsNeedEntries(lines, header);
  }

  /** A table that was read has every required glyph readable. */
  lemma FontsNeedGlyphs(lines: seq<string>, header: HeaderLine)
    requires header.height >= 1 && header.commentLines >= 0
    requires Fonts(lines, header).Ok?
    ensures forall j :: 0 <= j < 102 ==>
      ExtractGlyph(lines, RequiredCode(j), GlyphStart(1 + header.commentLines, j, header.height),
                   header.height, header.hardblank).Ok?
  {
    var offset: nat := 1 + header.commentLines;
    var height: nat := header.height;
    var hb := header.hardblank;
    FontsShape(lines, header, Fonts(lines, header).value);
    var required := RequiredFont(lines, header, map[]).value;
    RequiredBlock(lines, header, map[], required);
    forall j | 0 <= j < 102
      ensures ExtractGlyph(lines, RequiredCode(j), GlyphStart(offset, j, height), height, hb).Ok?
    {
      MulLe(j, 101, height);
      assert GlyphStart(offset, j, height) < |lines|;
    }
  }

  /** A table that was read has every code-tagged entry readable. */
  lemma FontsNeedEntries(lines: seq<string>, header: HeaderLine)
    requires header.height >= 1 && header.commentLines >= 0
    requires Fonts(lines, header).Ok?
    ensures IsI32(RequiredLines(header)) && RequiredLines(header) <= |lines|
    ensures forall i :: 0 <= i < (|lines| - RequiredLines(header)) / GroupHeight(header) ==>
      Entry(lines, RequiredLines(header), GroupHeight(header), header.height, header.hardblank, i).Ok?
  {
    var required := RequiredFont(lines, header, map[]).value;
    CodetagOk(lines, header, required);
    CodetagLayoutCount(lines, header);
  }

  /** A table that meets TableReadable is read. */
  lemma FontsRead(lines: seq<string>, header: HeaderLine)
    requires header.height >= 1 && header.commentLines >= 0
    requires TableReadable(lines, header)
    ensures Fonts(lines, header).Ok?
  {
    var offset: nat := 1 + header.commentLines;
    var height: nat := header.height;
    var hb := header.hardblank;
    RequiredSweep(lines, header, map[]);
    var steps := Slots(lines, RequiredCodes(), offset, height, hb);
    ApplyErr(steps, map[]);
    forall j | 0 <= j < 102 ensures !steps[j].Fail? {
      MulLe(j, 101, height);
      SlotsAt(lines, RequiredCodes(), offset, height, hb, j);
    }
    var required := RequiredFont(lines, header, map[]).value;
    CodetagOk(lines, header, required);
    CodetagLayoutCount(lines, header);
  }

  /** A laid-out block holds (|lines| - RequiredLines) / (height + 1) groups. */
  lemma CodetagLayoutCount(lines: seq<string>, header: HeaderLine)
    requires CodetagLayout(lines, header).Ok?
    requires header.height >= 0 && header.commentLines >= 0
    ensures var (offset, groupHeight, count) := CodetagLayout(lines, header).value;
      && offset == RequiredLines(header) && groupHeight == header.height + 1
      && count == (|lines| - RequiredLines(header)) / (header.height + 1)
  {
    var (offset, groupHeight, count) := CodetagLayout(lines, header).value;
    assert |lines| - offset == count * groupHeight;
  }
}
