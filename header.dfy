/** The first line of a FIGlet font: signature with hardblank, five required
    integers and three optional ones (`HeaderLine` in src/figlet.rs). */
module Header {
  import opened Wrappers
  import opened MachineInt
  import opened Text
  import opened Numbers

  datatype HeaderLine = HeaderLine(
    headerLine: string,         // the line as given, before trimming
    signature: string,
    hardblank: char,
    height: i32,
    baseline: i32,
    maxLength: i32,
    oldLayout: i32,
    commentLines: i32,
    printDirection: Option<i32>,
    fullLayout: Option<i32>,
    codetagCount: Option<i32>)

  /** The header's space-separated tokens: the trimmed line cut at every
      single space. */
  function Tokens(line: string): (r: seq<string>)
    ensures |r| >= 1
  {
    Split(Trim(line), ' ')
  }

  /** The tokens hold no space, and joining them with spaces gives the
      trimmed line back. */
  lemma TokensSpec(line: string)
    ensures forall k :: 0 <= k < |Tokens(line)| ==> ' ' !in Tokens(line)[k]
    ensures Join(Tokens(line), " ") == Trim(line)
  {
    JoinSplit(Trim(line), ' ');
  }

  /** `extract_signature_with_hardblank`: the last character of the first
      token is the hardblank, the rest is the signature. */
  function SignatureWithHardblank(token: string): (r: Result<(string, char)>)
    ensures r.Ok? <==> |token| >= 6
    ensures r.Err? ==> r.error == FormatError
    ensures r.Ok? ==> r.value.0 + [r.value.1] == token
  {
    if |token| < 6 then Err(FormatError)
    else Ok((token[..|token| - 1], token[|token| - 1]))
  }

  /** `extract_required_info`: a missing or unparsable token is an error. */
  function RequiredInfo(infos: seq<string>, index: nat): (r: Result<i32>)
    ensures r.Ok? <==> index < |infos| && ParseI32(infos[index]).Some?
    ensures r.Err? ==> r.error == FormatError
    ensures r.Ok? ==> ParseI32(infos[index]) == Some(r.value)
  {
    if index >= |infos| then Err(FormatError)
    else match ParseI32(infos[index])
      case Some(v) => Ok(v)
      case None => Err(FormatError)
  }

  /** `extract_optional_info`: a missing or unparsable token is absent, never an error. */
  function OptionalInfo(infos: seq<string>, index: nat): (r: Option<i32>)
    ensures r.Some? <==> index < |infos| && ParseI32(infos[index]).Some?
    ensures r.Some? ==> ParseI32(infos[index]) == r
  {
    if index < |infos| then ParseI32(infos[index]) else None
  }

  /** `HeaderLine::try_from`. */
  function ParseHeader(line: string): (r: Result<HeaderLine>)
    ensures r.Err? ==> r.error == FormatError
    ensures r.Ok? ==> r.value.headerLine == line
  {
    var infos := Tokens(line);
    if |infos| < 6 then Err(FormatError)
    else
      var (signature, hardblank) :- SignatureWithHardblank(infos[0]);
      var height :- RequiredInfo(infos, 1);
      var baseline :- RequiredInfo(infos, 2);
      var maxLength :- RequiredInfo(infos, 3);
      var oldLayout :- RequiredInfo(infos, 4);
      var commentLines :- RequiredInfo(infos, 5);
      Ok(HeaderLine(line, signature, hardblank, height, baseline, maxLength, oldLayout, commentLines,
                    OptionalInfo(infos, 6), OptionalInfo(infos, 7), OptionalInfo(infos, 8)))
  }

  /** The header parses exactly when there are at least six tokens, the
      first has at least six characters and tokens 1-5 parse as i32; every
      field then comes from its token. */
  lemma ParseHeaderSpec(line: string)
    ensures var infos := Tokens(line); var r := ParseHeader(line);
      r.Ok? <==> |infos| >= 6 && |infos[0]| >= 6
                 && ParseI32(infos[1]).Some? && ParseI32(infos[2]).Some? && ParseI32(infos[3]).Some?
                 && ParseI32(infos[4]).Some? && ParseI32(infos[5]).Some?
    ensures var r := ParseHeader(line); r.Ok? ==> var infos := Tokens(line); var h := r.value;
      && h.headerLine == line
      && h.signature + [h.hardblank] == infos[0]
      && ParseI32(infos[1]) == Some(h.height)
      && ParseI32(infos[2]) == Some(h.baseline)
      && ParseI32(infos[3]) == Some(h.maxLength)
      && ParseI32(infos[4]) == Some(h.oldLayout)
      && ParseI32(infos[5]) == Some(h.commentLines)
      && h.printDirection == (if |infos| > 6 then ParseI32(infos[6]) else None)
      && h.fullLayout == (if |infos| > 7 then ParseI32(infos[7]) else None)
      && h.codetagCount == (if |infos| > 8 then ParseI32(infos[8]) else None)
  {
  }

  /** Non-empty, space-free pieces joined by single spaces, with no
      whitespace at either end of the line, split back into the pieces. */
  lemma TokensOfJoin(parts: seq<string>)
    requires |parts| >= 1
    requires forall k :: 0 <= k < |parts| ==> parts[k] != [] && ' ' !in parts[k]
    requires !IsWhitespace(parts[0][0])
    requires !IsWhitespace(parts[|parts| - 1][|parts[|parts| - 1]| - 1])
    ensures Tokens(Join(parts, " ")) == parts
  {
    var line := Join(parts, " ");
    JoinShape(parts, " ");
    JoinLast(parts, " ");
    assert line[0] == line[..|parts[0]|][0];
    TrimUnchanged(line);
    SplitJoin(parts, ' ');
  }

  /** The numeric fields of the example header. */
  lemma ExampleNumbers()
    ensures ParseI32("6") == Some(6) && ParseI32("5") == Some(5) && ParseI32("3") == Some(3)
    ensures ParseI32("20") == Some(20) && ParseI32("15") == Some(15)
  {
    ParseI32Digits("6"); ParseI32Digits("5"); ParseI32Digits("3");
    assert DigitsValue("20", 10) == 20;
    ParseI32Digits("20");
    assert DigitsValue("15", 10) == 15;
    ParseI32Digits("15");
  }

  /** Six tokens, the first a signature of at least five characters followed
      by the hardblank and the other five i32 values: the header has that
      signature and hardblank, those five numbers, and no optional fields. */
  lemma HeaderOfTokens(line: string, signature: string, hardblank: char, values: seq<i32>)
    requires |signature| >= 5 && |values| == 5
    requires |Tokens(line)| == 6 && Tokens(line)[0] == signature + [hardblank]
    requires forall k :: 1 <= k < 6 ==> ParseI32(Tokens(line)[k]) == Some(values[k - 1])
    ensures ParseHeader(line) == Ok(HeaderLine(line, signature, hardblank,
                                               values[0], values[1], values[2], values[3], values[4], None, None, None))
  {
    var infos := Tokens(line);
    assert ParseI32(infos[1]) == Some(values[0]) && ParseI32(infos[2]) == Some(values[1]);
    assert ParseI32(infos[3]) == Some(values[2]) && ParseI32(infos[4]) == Some(values[3]);
    assert ParseI32(infos[5]) == Some(values[4]);
    var h := ParseHeader(line).value;
    assert h.signature == (h.signature + [h.hardblank])[..|h.signature|];
    assert signature == (signature + [hardblank])[..|signature|];
  }

  /** The header of a six-line-high font with three comment lines and no optional fields. */
  lemma HeaderExample()
    ensures ParseHeader("flf2a$ 6 5 20 15 3")
      == Ok(HeaderLine("flf2a$ 6 5 20 15 3", "flf2a", '$', 6, 5, 20, 15, 3, None, None, None))
  {
    var line := "flf2a$ 6 5 20 15 3";
    assert line == Join(["flf2a$", "6", "5", "20", "15", "3"], " ");
    ExampleFields(line);
  }

  /** The six example tokens joined by spaces give signature "flf2a",
      hardblank '$' and the five numbers. */
  lemma ExampleFields(line: string)
    requires line == Join(["flf2a$", "6", "5", "20", "15", "3"], " ")
    ensures ParseHeader(line) == Ok(HeaderLine(line, "flf2a", '$', 6, 5, 20, 15, 3, None, None, None))
  {
    var parts := ["flf2a$", "6", "5", "20", "15", "3"];
    TokensOfJoin(parts);
    assert Tokens(line) == parts;
    ExampleNumbers();
    assert parts[0] == "flf2a" + ['$'];
    HeaderOfTokens(line, "flf2a", '$', [6, 5, 20, 15, 3]);
  }
}
