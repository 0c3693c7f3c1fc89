# FIGlet font loader and renderer

This project models the core of a small Rust program that draws text as
ASCII art with a FIGlet font (`src/figlet.rs`), and proves properties of
the model. It also models the string transform `link_in_bio` in
`src/main.rs`.

The model covers:

- reading the header line (signature and hardblank, five required
  integers, three optional ones);
- reading the comment block;
- the 102 required glyphs (ASCII 32..126, then the seven German
  characters Ä Ö Ü ä ö ü ß) and the code-tagged glyphs after them;
- collecting everything into one code-to-glyph table;
- converting a message into the glyphs that draw it;
- displaying those glyphs row by row.

A font is its list of lines (`seq<string>`). The loading operations (the
header, the comments, the glyphs, the table and `from_content`) return a
`Result`; `convert` and the optional header fields return an `Option`, and
the display and `link_in_bio` return strings. `FormatError` stands for each
`Err` the Rust code returns. `Panic` marks each place where the Rust code
would abort:

- an index out of range;
- a usize underflow, or an i32 or usize overflow (debug build);
- a remainder by zero;
- `characters[0]` of a glyph with no rows.

Integer widths are modelled explicitly:

- `i32` is a subset type;
- `x as usize` is sign extension modulo 2^64 (`AsUsize`);
- `n as i32` wraps (`WrapI32`);
- `as u32` keeps the low 32 bits (`AsU32`).

Building the table is modelled as a fold, `FontTable.Apply`. It runs a
sequence of steps over the table. A step inserts a glyph under its code,
fails with an error, or stops the block. Each Rust loop is a Dafny method
whose loop invariant ties its partial table to this fold. The required block and
the code-tagged block are both sequences of such steps, and the lemmas
about `Apply` give what each block stores. Rendering is specified by
`Render.Rendered`. `link_in_bio` is specified by `LinkInBio.Marked`.

The files follow the program's structure:

| file | contents |
|---|---|
| `wrappers.dfy` | `Option` and `Result` |
| `machine_int.dfy` | fixed-width integers and casts |
| `text.dfy` | the `str` operations used: trim, split, join, replace |
| `numbers.dfy` | `str::parse` and `from_str_radix` |
| `header.dfy` | `HeaderLine` |
| `glyphs.dfy` | `FIGcharacter`, `extract_one_line`, `extract_one_font` |
| `font_table.dfy` | `read_required_font`, `extract_codetag_font_code`, `read_codetag_font`, `read_fonts` |
| `font.dfy` | `FIGfont`, `read_comments`, `from_content`, `convert` |
| `render.dfy` | `FIGure`, `is_not_empty`, and `FIGure`'s `Display` |
| `link_in_bio.dfy` | `link_in_bio` |

In a debug build, a font shorter than `1 + comment_lines + 102*height` lines is rejected:
`read_codetag_font` computes `lines.len() - offset` (src/figlet.rs:144),
and that subtraction underflows, which panics in a debug build.
`FontTable.CodetagLayout` returns `Panic` there, and `FontTable.FontsShape`
proves that every table that can be read has at least that many lines.
`FontTable.FontsAccepted` states exactly when the table of a font of
positive height is read, and `Font.SmallFont` exhibits a smallest font of
positive height that is read. A font of height 0 is read only when no line
follows its comments (`FontTable.FontsZeroHeight`).

## Model

| member | source | states |
|---|---|---|
| MachineInt.AsUsize | src/figlet.rs:80-81 | `i32 as usize`: non-negative values are kept; a negative value x becomes 2^64 + x |
| MachineInt.AsU32 | src/figlet.rs:63-64 | `as u32` keeps the low 32 bits of every input: the result is in range, differs from the input by a multiple of 2^32, and is the input itself when that already fits |
| MachineInt.WrapI32 | src/figlet.rs:20 | `len() as i32` keeps every length up to i32::MAX, never exceeds the length, and differs from it by a multiple of 2^32 |
| Text.TrimStart | src/figlet.rs:117 | the result is a suffix of the input, everything dropped is whitespace, and it does not start with whitespace |
| Text.TrimEnd | src/figlet.rs:117 | the result is a prefix of the input, everything dropped is whitespace, and it does not end with whitespace |
| Text.TrimSpec | src/figlet.rs:300 | `trim` gives the slice of the input that starts after its leading whitespace, with only whitespace before and after it; it starts and ends with non-whitespace, and it is empty exactly when the input is all whitespace |
| Text.TrimmedAfter | src/figlet.rs:300 | dropping a whitespace prefix and then a whitespace suffix leaves such a slice |
| Text.Split | src/figlet.rs:300 | `split(sep)` yields at least one piece, and no piece contains the separator |
| Text.JoinSplit | src/figlet.rs:117 | joining the pieces of a split with the separator gives the string back |
| Text.SplitAt | src/figlet.rs:117 | splitting at the first separator yields the text before it, then the pieces of the rest |
| Text.SplitNone | src/figlet.rs:117 | a string without the separator splits into itself |
| Text.SplitJoin | src/figlet.rs:24 | splitting a join of separator-free pieces gives the pieces back |
| Text.JoinEmptyAppend | src/figlet.rs:376 | appending a piece to a join with the empty separator appends its text |
| Text.TrimUnchanged | src/figlet.rs:122 | a token that neither starts nor ends with whitespace trims to itself |
| Text.JoinLast | src/figlet.rs:300 | a join ends with the last character of its last piece, so a header line joined from tokens without end whitespace trims to itself |
| Text.JoinShape | src/figlet.rs:24 | `join` starts with its first piece, and its length is the pieces' lengths plus one separator between each two |
| Text.Replace | src/figlet.rs:45 | `replace` keeps the length, turns every occurrence of the character into the replacement, keeps every other character in place, and leaves no occurrence behind |
| Numbers.DigitValue | src/figlet.rs:125-131 | a digit's value is at most 36 |
| Numbers.FromStrRadix | src/figlet.rs:124-132 | a parsed value is in the type's range; the input is non-empty and starts with '-' only for a signed type; an unsigned literal is all digits and denotes their value |
| Numbers.FromStrRadixExact | src/figlet.rs:124-132 | the converse: an in-range digit string parses to its value; after '+' the rest must be such a string; after '-' (signed types only) the rest must be digits whose negated value is in range, and that is the result; anything else is rejected |
| Numbers.ParseI32Digits | src/figlet.rs:283-284 | a decimal digit string whose value fits in an i32 parses to that value |
| Numbers.ParseI32 | src/figlet.rs:283-284 | `parse::<i32>()` is decimal `from_str_radix` over the i32 range |
| Numbers.ParseU32 | src/figlet.rs:125-131 | `u32::from_str_radix` gives values up to u32::MAX and rejects a leading '-' |
| Numbers.DigitChar | src/figlet.rs:125-131 | the digit written for d reads back as d |
| Numbers.ToDigits | src/figlet.rs:125-131 | the digits of n are a non-empty digit string with no sign and no leading zero |
| Numbers.ToDigitsValue | src/figlet.rs:125-131 | the digit string of n denotes n |
| Numbers.DigitsRoundTrip | src/figlet.rs:124-132 | the digits of an in-range n parse back to n |
| Numbers.NegativeRoundTrip | src/figlet.rs:283 | "-" and the digits of n parse as the i32 -n |
| Header.SignatureWithHardblank | src/figlet.rs:257-272 | the first token is accepted exactly when it has at least 6 characters; then signature followed by hardblank is the token |
| Header.RequiredInfo | src/figlet.rs:274-285 | a required field is present exactly when the token exists and parses as an i32, and it is that value |
| Header.OptionalInfo | src/figlet.rs:287-293 | an optional field is present exactly when the token exists and parses; it is never an error |
| Header.Tokens | src/figlet.rs:300 | the header has at least one token |
| Header.TokensSpec | src/figlet.rs:300 | no token holds a space, and the tokens joined by spaces are the trimmed line |
| Header.ParseHeader | src/figlet.rs:296-332 | every error is a format error, and a parsed header keeps the line as given |
| Header.ParseHeaderSpec | src/figlet.rs:296-332 | the header parses exactly when there are at least 6 tokens, the first has at least 6 characters and tokens 1-5 parse as i32; every field then comes from its token, the optional ones being absent when their token is missing or does not parse |
| Header.TokensOfJoin | src/figlet.rs:300 | non-empty, space-free pieces joined by single spaces, with no whitespace at either end, split back into the pieces |
| Header.HeaderOfTokens | src/figlet.rs:296-332 | six tokens, a signature of at least five characters plus the hardblank and then five i32 values, give the header with that signature, hardblank and those numbers and no optional fields |
| Header.ExampleNumbers | src/figlet.rs:283 | the decimal fields of the example header parse to their numbers |
| Header.ExampleFields | src/figlet.rs:299-332 | the tokens `flf2a$ 6 5 20 15 3` joined by spaces give signature "flf2a", hardblank '$', height 6, baseline 5, max length 20, old layout 15, 3 comment lines, no optional fields |
| Header.HeaderExample | src/figlet.rs:299-332 | the header line "flf2a$ 6 5 20 15 3" parses to that header |
| Glyphs.ExtractOneLine | src/figlet.rs:29-46 | a missing line is a format error; a line is read exactly when it is at least as long as its terminators (one, or two on the last row of a glyph taller than one line); the row drops them and has every hardblank turned into a space |
| Glyphs.ExtractGlyph | src/figlet.rs:48-72 | a glyph keeps the code it was asked for and records the height as a u32 |
| Glyphs.ExtractOneFont | src/figlet.rs:48-72 | the row loop computes ExtractGlyph |
| Glyphs.RowsFromSpec | src/figlet.rs:56-62 | collecting rows succeeds exactly when every row can be read, and then appends them in order |
| Glyphs.ExtractGlyphSpec | src/figlet.rs:48-72 | a glyph exists exactly when the height is positive and every row can be read; it has exactly `height` rows, row k comes from line start+k, and its width is its first row's length |
| Glyphs.LineBeyondInput | src/figlet.rs:36-38 | a glyph that needs a line past the end of the input is an error |
| FontTable.StopIndex | src/figlet.rs:84-89 | the first Stop of a block: no earlier step stops |
| FontTable.ApplyErr | src/figlet.rs:84-94 | reading a block fails exactly when a glyph before the first stop fails, and then with the first such error |
| FontTable.ApplyOk | src/figlet.rs:84-94 | a successful read adds exactly the codes inserted before the first stop, keeps every other entry, and holds each code's last insert |
| FontTable.StepsTail | src/figlet.rs:84-94 | past one insert, the rest of the block is read the same way, one step later |
| FontTable.LastForTail | src/figlet.rs:93 | a last insert of a code stays last among the remaining steps |
| FontTable.ApplyWellFormed | src/figlet.rs:91-93 | inserting glyphs of the table's height keeps every entry under its own code with that many rows |
| FontTable.AsciiCodes | src/figlet.rs:84-85 | the ASCII loop reads codes 32..126 in order |
| FontTable.RequiredCode | src/figlet.rs:84-97 | required glyph j has code 32+j for j < 95, then the German codes 196, 214, 220, 228, 246, 252, 223 |
| FontTable.RequiredCodes | src/figlet.rs:74 | the 102 required codes in file order |
| FontTable.Slot | src/figlet.rs:86-92 | a glyph slot ends the block exactly when its start line is past the input |
| FontTable.Slots | src/figlet.rs:84-107 | a run has one slot per code |
| FontTable.SlotsAt | src/figlet.rs:86 | slot j of a run starts at line offset + j*height |
| FontTable.ApplyAt | src/figlet.rs:84-167 | one step of any of the three loops (the two required-glyph loops and the code-tagged loop): a stop ends it, a failure is its result, an insert goes on with the updated table |
| FontTable.SlotAt | src/figlet.rs:86-93 | one iteration of a required-glyph loop: break on a start past the input, return the glyph's error, or insert the glyph |
| FontTable.ReadGlyphRun | src/figlet.rs:84-107 | each loop of `read_required_font` computes the fold of its slots over the table |
| FontTable.ReadRequiredFont | src/figlet.rs:75-110 | `read_required_font` reads the ASCII run, panics if the German run's start overflows, then reads the German run |
| FontTable.ApplyAppend | src/figlet.rs:84-107 | two blocks read back to back: the first block's error, or the second block read on its result |
| FontTable.SlotsAppend | src/figlet.rs:96-99 | two runs back to back are one run whose second part starts 95*height lines later |
| FontTable.RequiredCodesDistinct | src/figlet.rs:74 | no two required glyphs share a code |
| FontTable.RequiredSweep | src/figlet.rs:75-110 | without the overflow, the two loops read the table as one run over all 102 codes |
| FontTable.RequiredStops | src/figlet.rs:84-102 | the required glyphs read are exactly those whose start line is inside the input |
| FontTable.RequiredStepsOk | src/figlet.rs:84-107 | after a successful read, every required glyph inside the input is stored under its code, nothing else is added, and other entries are kept |
| FontTable.RequiredBlock | src/figlet.rs:75-110 | a successful `read_required_font` had neither overflow; it stores the glyph of each required code whose start line is inside the input, adds no other code, and keeps other entries |
| FontTable.ParseCodeLiteral | src/figlet.rs:122-132 | a code literal's value is at most u32::MAX |
| FontTable.CodetagCode | src/figlet.rs:112-135 | a missing line is an error, every error is a format error, and otherwise the code is the first token, trimmed, read as a code literal |
| FontTable.HexLiteral | src/figlet.rs:124-127 | "0x" or "0X" followed by hex digits denotes their value |
| FontTable.OctalLiteral | src/figlet.rs:128-129 | '0' followed by octal digits denotes their value |
| FontTable.DecimalLiteral | src/figlet.rs:130-131 | a decimal literal without a leading zero denotes its value |
| FontTable.RejectedLiterals | src/figlet.rs:124-134 | a bare "0" is rejected (octal with no digits), "00" is 0, and a negative literal is rejected |
| FontTable.CodetagLine | src/figlet.rs:112-135 | a tag line made of a literal, alone or followed by a space and a comment, yields the literal's code |
| FontTable.CodetagLayout | src/figlet.rs:142-150 | i32 overflow, a font shorter than the required part, and a zero group height panic; otherwise the code-tagged lines fill a whole number of groups of height+1 lines exactly, or it is a format error; with a non-negative height and comment count, in-range sums and enough lines, it succeeds exactly when the rest is whole groups, and fails with a format error otherwise |
| FontTable.CodetagLayoutCount | src/figlet.rs:142-150 | a laid-out block starts after the required lines, its groups are height+1 lines, and it holds (lines - required lines) / (height+1) of them |
| FontTable.CodetagLayoutDivides | src/figlet.rs:144-148 | a laid-out block starts inside the input and is a whole number of groups |
| FontTable.CodetagEntry | src/figlet.rs:158-165 | a code-tagged glyph carries the code of its tag line |
| FontTable.CodetagSteps | src/figlet.rs:152-167 | a code-tagged block has one slot per group |
| FontTable.CodetagSlotAt | src/figlet.rs:153-166 | one iteration of the code-tagged loop: a start past the input breaks, a bad tag or glyph is the error, otherwise the glyph is inserted under the tag's code |
| FontTable.ReadCodetagFont | src/figlet.rs:137-170 | `read_codetag_font` lays out the block and then reads it |
| FontTable.ReadCodetagRun | src/figlet.rs:152-167 | the code-tagged loop computes the fold of its slots over the table |
| FontTable.CodetagInside | src/figlet.rs:152-156 | every tag line of a laid-out block is inside the input, so in a debug build the early `break` never fires |
| FontTable.CodetagStepAt | src/figlet.rs:158-166 | slot i of a laid-out block inserts entry i's glyph or fails with its error |
| FontTable.CodetagStepsAll | src/figlet.rs:152-167 | a laid-out block has no stop, and each slot is its entry |
| FontTable.CodetagStepsRun | src/figlet.rs:152-167 | a laid-out block is read exactly when every entry can be read |
| FontTable.CodetagStepsOk | src/figlet.rs:152-167 | a successful read adds exactly the tagged codes, stores each code's last entry, and keeps other entries |
| FontTable.CodetagOk | src/figlet.rs:137-170 | `read_codetag_font` succeeds exactly when the block lays out and every entry (literal and glyph) can be read |
| FontTable.CodetagBlock | src/figlet.rs:137-170 | a successful `read_codetag_font` adds exactly the tagged codes, a later tag for a code overwrites an earlier one, and other entries are kept |
| FontTable.ReadFonts | src/figlet.rs:172-180 | `read_fonts` reads the required block into an empty table, then the code-tagged block |
| FontTable.SlotsRows | src/figlet.rs:91-93 | every glyph a required run inserts has `height` rows |
| FontTable.CodetagRows | src/figlet.rs:159-166 | every glyph a code-tagged block inserts has `height` rows |
| FontTable.RequiredWellFormed | src/figlet.rs:75-110 | the required block keeps a table well formed |
| FontTable.CodetagWellFormed | src/figlet.rs:137-170 | the code-tagged block keeps a table well formed |
| FontTable.FontsWellFormed | src/figlet.rs:172-180 | every glyph of a font's table is stored under its own code and has the font's height in rows |
| FontTable.FontsShape | src/figlet.rs:137-150 | a table that can be read has a non-negative height and at least the required lines, and the rest is a whole number of code-tagged groups |
| FontTable.FontsRequired | src/figlet.rs:75-110 | a table of positive height that can be read defines all 102 required characters |
| FontTable.EntryZeroHeight | src/figlet.rs:63 | no glyph of height 0 can be read (`characters[0]` panics) |
| FontTable.FontsHeight | src/figlet.rs:96-99 | a table that can be read has a non-negative height (a negative one overflows the German run's start) |
| FontTable.FontsAccepted | src/figlet.rs:172-180 | a table of positive height is read exactly when the required lines are there, the rest is whole groups, every required glyph can be read and every code-tagged entry can be read |
| FontTable.FontsNeed | src/figlet.rs:172-180 | a table that was read meets those conditions |
| FontTable.FontsNeedGlyphs | src/figlet.rs:75-110 | a table that was read has each of the 102 required glyphs readable at its place |
| FontTable.FontsNeedEntries | src/figlet.rs:137-170 | a table that was read has its required lines within i32 range and inside the input, and every code-tagged entry readable |
| FontTable.FontsRead | src/figlet.rs:172-180 | a table meeting those conditions is read |
| FontTable.FontsZeroHeight | src/figlet.rs:142-150 | a table of height 0 can be read only when no line follows the comments, and it is then empty |
| Font.ReadComments | src/figlet.rs:19-27 | a successful read has 0 <= comment_lines < number of lines; for sane sizes it succeeds exactly then; a format error means the wrapped line count is below comment_lines + 1 |
| Font.CommentLines | src/figlet.rs:24 | no comments give ""; otherwise the joined comments split back into lines 1..comment_lines |
| Font.FromContent | src/figlet.rs:183-199 | `from_content` computes ParseFont: an empty font is an error; the header, then the comments, then the table |
| Font.ParseFontParts | src/figlet.rs:183-199 | a font that can be read has its header from the first line, its comments read and joined, and its table read |
| Font.FontWellFormed | src/figlet.rs:183-199 | a font that can be read has a non-negative height and a well-formed table |
| Font.FontHasRequired | src/figlet.rs:183-199 | a font of positive height that can be read defines all 102 required characters |
| Font.ParseFontAccepted | src/figlet.rs:183-199 | a font of positive height whose header parses is read only when its table is read, and, with at most i32::MAX lines, exactly then |
| Font.SmallNumbers | src/figlet.rs:283 | "1" and "0" parse as the i32 values 1 and 0 |
| Font.SmallFields | src/figlet.rs:299-332 | the line `flf2a$ 1 0 0 0 0` gives signature "flf2a", hardblank '$', height 1 and no comment lines |
| Font.SmallGlyphs | src/figlet.rs:48-72 | in a font one line high whose glyph lines are all "@", every required glyph can be read |
| Font.SmallFont | src/figlet.rs:183-199 | the 103-line font made of that header and 102 lines "@" is read and defines every required character |
| Font.FontZeroHeight | src/figlet.rs:183-199 | a font of height 0 that can be read is its header and comments only, with an empty table |
| Font.GlyphsOfAppend | src/figlet.rs:216-221 | the glyphs of a concatenated message are the glyphs of each part in order |
| Font.GlyphsOfChar | src/figlet.rs:217-220 | one character contributes its glyph, or nothing if the table has none |
| Font.GlyphsOfEmpty | src/figlet.rs:216-225 | no glyph is found exactly when no character of the message has one |
| Font.GlyphsOfFrom | src/figlet.rs:216-221 | there are at most as many glyphs as characters, and each is the table's glyph for some character of the message |
| Font.Convert | src/figlet.rs:210-231 | `convert` gives None exactly when the message is empty or no character has a glyph; otherwise the glyphs in message order and the height as a u32 |
| Render.Display | src/figlet.rs:363-381 | `Display` for a figure produces Rendered: nothing for an empty figure; otherwise, for each row index, that row of every glyph and then a newline |
| Render.RowLineAppend | src/figlet.rs:368-372 | a row of the glyphs of a concatenation is the rows of each part side by side |
| Render.RowLineSingle | src/figlet.rs:369-371 | one glyph contributes its own row, or nothing if it has no such row |
| Render.RowLineNoNewline | src/figlet.rs:368-372 | a displayed line has no newline when no glyph row has one |
| Render.Lines | src/figlet.rs:367-374 | one row line per row index |
| Render.SplitLinesText | src/figlet.rs:367-376 | splitting displayed lines at newlines gives the row lines back |
| Render.LinesSnoc | src/figlet.rs:367-374 | one more row index appends one more row line |
| Render.RenderedLines | src/figlet.rs:357-381 | an empty figure displays nothing; otherwise the display is exactly `height` newline-ended lines, line i being row i of every glyph side by side |
| Render.RenderedEmpty | src/figlet.rs:358-378 | `is_not_empty` decides the display: it is empty exactly when the figure has no glyph or height 0 |
| LinkInBio.LinkInBio | src/main.rs:11-24 | the loop builds Marked(s), the images of the characters in order |
| LinkInBio.MarkedEmpty | src/main.rs:11-24 | the empty string maps to the empty string |
| LinkInBio.MarkedChar | src/main.rs:16-21 | a space maps to one space; any other character becomes the marker followed by the character |
| LinkInBio.MarkedAppend | src/main.rs:14-22 | the transform maps a concatenation to the concatenation of the results |
| LinkInBio.MarkedLength | src/main.rs:14-22 | the output is the input's length plus one marker length per non-space character |
| LinkInBio.UnmarkMarked | src/main.rs:14-22 | the marker does not start with a space, so the input can be recovered from the output |

## Left out

- `str::lines` (src/figlet.rs:184): the model takes the font as its list of lines already split, so line-ending handling is not modelled.
- Byte lengths and UTF-8: `len()`, `line[..width]` and `signature_with_hardblank[..hardblank_index]` count bytes, and the model counts characters; they agree for ASCII fonts. A slice that is not on a character boundary would panic, and that panic is not modelled.
- Error messages: every `Err(String)` is `FormatError`, without its text.
- `HashMap`: the table is a `map` from code to glyph, so only its contents are modelled. The order of iteration is not observable in the modelled code.
- `FIGfont::standard` (src/figlet.rs:204-207) reads an embedded font file, which is not part of this model.
- `main` (src/main.rs:5-9) only prints a banner.
- `Display` for `FIGcharacter` (src/figlet.rs:344-348) and the `Formatter` plumbing: `Render.Display` returns the string that `FIGure`'s `Display` would write.
- `read_header_line` (src/figlet.rs:15-17) is `ParseHeader` by another name.
- The header's `codetag_count` is parsed but never used by the code; the model keeps it as a field only.
- `FontTable.ReadGlyphRun` is the body shared by the two loops of `read_required_font`, which the Rust writes out twice.
- `FontTable.ReadCodetagRun` is the loop of `read_codetag_font`, split out of `FontTable.ReadCodetagFont`.
- `FontTable.CodetagCode`: the `infos.is_empty()` check (src/figlet.rs:118-120) cannot fire, because `split` always yields a piece, so it has no branch.
- `FontTable.CodetagInside`: the `start_index >= lines.len()` break in `read_codetag_font` (src/figlet.rs:154-156) is modelled, and proved never to fire in a debug build (see the release-build line below).
- `extract_one_font` with a huge height (a negative `height` cast to usize) is modelled with unbounded integers. It fails at the first missing line, as the Rust code does, and no bound on the number of lines is needed.
- usize overflow of `offset + i * height` inside the loops is not modelled as a panic. A start line is only computed after the glyphs before it were read from the input, so it stays below the line count, which is below 2^64.
- `LinkInBio.MARK` is the three characters the source literally contains (U+00E2 U+2013 U+2018). That is the Windows-1252 reading of the UTF-8 bytes of '░'. The proofs hold for any marker that does not start with a space.
- Release-build wrap-around: the model follows a debug build, where integer overflow and usize underflow panic. A release build wraps instead at `comment_count + 1` (src/figlet.rs:20-21), `1 + comment_lines` (src/figlet.rs:80), `offset + 95 * height` (src/figlet.rs:96) and `1 + comment_lines + 102 * height` and `lines.len() - offset` (src/figlet.rs:142-144). That changes which fonts are accepted: with a wrapped `lines.len() - offset` that happens to be a multiple of `height + 1`, the `break` at src/figlet.rs:154-156 fires at once and a short font loads with only the glyphs present (for example the header `flf2a$ 1 0 0 0 0` followed by 100 lines "@"), where the model rejects it.
- `Font.ParseFontAccepted` states its "exactly when" direction only for fonts of at most i32::MAX lines, where the line count does not wrap in `read_comments`.
- `Font.ReadComments` states its "succeeds exactly when" direction only for comment counts below i32::MAX and at most i32::MAX lines. Outside that range the wrapped comparison is stated as it is written and not characterised further.
- `FontTable.FontsRequired`, `FontTable.FontsShape`: require a non-negative comment count, which every font read by `from_content` has (`Font.ParseFontParts`).
