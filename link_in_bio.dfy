/** `link_in_bio` in src/main.rs: every character other than a space gets a
    marker string in front of it; spaces are copied as they are. */
module LinkInBio {

  /** The marker the Rust code pushes before each non-space character: the
      three characters U+00E2 U+2013 U+2018 exactly as the source spells them
      (the Windows-1252 reading of the UTF-8 bytes of U+2591 LIGHT SHADE). */
  const MARK: string := "\U{00E2}\U{2013}\U{2018}"

  /** What one character becomes. */
  function Image(c: char): string
  {
    if c != ' ' then MARK + [c] else " "
  }

  /** The images of the characters of s, in order. */
  function Marked(s: string): string
  {
    if s == [] then "" else Marked(s[..|s| - 1]) + Image(s[|s| - 1])
  }

  /** The number of characters of s that are not spaces. */
  function NonSpaces(s: string): nat
  {
    if s == [] then 0 else NonSpaces(s[..|s| - 1]) + (if s[|s| - 1] != ' ' then 1 else 0)
  }

  /** `link_in_bio`: pushes each character's image onto the result in turn. */
  method LinkInBio(s: string) returns (genned: string)
    ensures genned == Marked(s)
  {
    genned := "";
    for i := 0 to |s|
      invariant genned == Marked(s[..i])
    {
      var c := s[i];
      assert s[..i + 1][..i] == s[..i];
      if c != ' ' {
        genned := genned + MARK;
        genned := genned + [c];
      } else {
        genned := genned + " ";
      }
    }
    assert s[..|s|] == s;
  }

  /** The empty string maps to the empty string. */
  lemma MarkedEmpty()
    ensures Marked("") == ""
  {
  }

  /** A single character maps to its image: a space to one space, anything
      else to the marker followed by the character. */
  lemma MarkedChar(c: char)
    ensures Marked([c]) == Image(c)
    ensures c == ' ' ==> Marked([c]) == " "
    ensures c != ' ' ==> Marked([c]) == MARK + [c]
  {
    assert [c][..0] == [];
  }

  /** The transform works character by character: it maps a concatenation to
      the concatenation of the results. */
  lemma {:induction false} MarkedAppend(s: string, t: string)
    ensures Marked(s + t) == Marked(s) + Marked(t)
    decreases |t|
  {
    if t == [] {
      assert s + t == s;
    } else {
      var u := t[..|t| - 1];
      assert (s + t)[..|s + t| - 1] == s + u;
      assert (s + t)[|s + t| - 1] == t[|t| - 1];
      MarkedAppend(s, u);
    }
  }

  /** The result is as long as the input plus one marker per non-space character. */
  lemma {:induction false} MarkedLength(s: string)
    ensures |Marked(s)| == |s| + |MARK| * NonSpaces(s)
    decreases |s|
  {
    if s != [] {
      MarkedLength(s[..|s| - 1]);
    }
  }

  /** Reads a marked string back: a space stands for itself, anything else
      is a marker followed by the character it marks. */
  function Unmark(t: string): string
    decreases |t|
  {
    if t == [] then ""
    else if t[0] == ' ' then " " + Unmark(t[1..])
    else if |t| > |MARK| then [t[|MARK|]] + Unmark(t[|MARK| + 1..])
    else ""
  }

  /** The marker never starts with a space, so the marked string can be read
      back unambiguously: dropping the markers gives the input. */
  lemma {:induction false} UnmarkMarked(s: string)
    ensures Unmark(Marked(s)) == s
    decreases |s|
  {
    if s != [] {
      var c := s[0];
      var rest := s[1..];
      assert s == [c] + rest;
      MarkedAppend([c], rest);
      MarkedChar(c);
      UnmarkMarked(rest);
      var t := Image(c) + Marked(rest);
      if c == ' ' {
        assert t[1..] == Marked(rest);
      } else {
        assert t[0] == MARK[0] != ' ';
        assert t[|MARK|] == c;
        assert t[|MARK| + 1..] == Marked(rest);
      }
    }
  }
}
