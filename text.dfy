/** The pieces of Rust's `str` API that the loader uses: trim, split on a
    character, join, and replace one character by another. */
module Text {

  /** Rust's `char::is_whitespace`: the Unicode White_Space property. */
  predicate IsWhitespace(c: char) {
    ('\t' <= c <= '\r') || c == ' ' || c == '\U{0085}' || c == '\U{00A0}' || c == '\U{1680}'
    || ('\U{2000}' <= c <= '\U{200A}') || c == '\U{2028}' || c == '\U{2029}'
    || c == '\U{202F}' || c == '\U{205F}' || c == '\U{3000}'
  }

  /** `str::trim_start`: drops the leading whitespace. */
  function TrimStart(s: string): (r: string)
    ensures |r| <= |s| && r == s[|s| - |r|..]
    ensures forall k :: 0 <= k < |s| - |r| ==> IsWhitespace(s[k])
    ensures r != [] ==> !IsWhitespace(r[0])
  {
    if s != [] && IsWhitespace(s[0]) then TrimStart(s[1..]) else s
  }

  /** `str::trim_end`: drops the trailing whitespace. */
  function TrimEnd(s: string): (r: string)
    ensures |r| <= |s| && r == s[..|r|]
    ensures forall k :: |r| <= k < |s| ==> IsWhitespace(s[k])
    ensures r != [] ==> !IsWhitespace(r[|r| - 1])
  {
    if s != [] && IsWhitespace(s[|s| - 1]) then TrimEnd(s[..|s| - 1]) else s
  }

  /** How many whitespace characters `str::trim_start` drops. */
  function LeadingWhitespace(s: string): (n: nat)
    ensures n <= |s|
  {
    |s| - |TrimStart(s)|
  }

  /** r is the slice of s from i on with only whitespace before and after it,
      r neither starts nor ends with whitespace, and r is empty exactly when s
      is all whitespace. */
  predicate TrimmedAt(s: string, r: string, i: nat)
  {
    && i + |r| <= |s| && r == s[i..i + |r|]
    && (forall k :: 0 <= k < i ==> IsWhitespace(s[k]))
    && (forall k :: i + |r| <= k < |s| ==> IsWhitespace(s[k]))
    && (r != [] ==> !IsWhitespace(r[0]) && !IsWhitespace(r[|r| - 1]))
    && (r == [] <==> forall k :: 0 <= k < |s| ==> IsWhitespace(s[k]))
  }

  /** r is s trimmed: the slice after the leading whitespace, as above. */
  predicate IsTrimOf(s: string, r: string)
  {
    TrimmedAt(s, r, LeadingWhitespace(s))
  }

  /** `str::trim`: drops the leading and the trailing whitespace. */
  function Trim(s: string): string
  {
    TrimEnd(TrimStart(s))
  }

  /** Trimming keeps the slice of s between its leading and its trailing whitespace. */
  lemma TrimSpec(s: string)
    ensures IsTrimOf(s, Trim(s))
  {
    var t := TrimStart(s);
    var r := TrimEnd(t);
    TrimmedAfter(s, t, r);
    assert Trim(s) == r && LeadingWhitespace(s) == |s| - |t|;
  }

  /** A suffix t of s after whitespace only, starting with non-whitespace,
      and a prefix r of t before whitespace only, ending with non-whitespace:
      r is s trimmed at |s| - |t|. */
  lemma TrimmedAfter(s: string, t: string, r: string)
    requires |t| <= |s| && t == s[|s| - |t|..]
    requires forall k :: 0 <= k < |s| - |t| ==> IsWhitespace(s[k])
    requires t != [] ==> !IsWhitespace(t[0])
    requires |r| <= |t| && r == t[..|r|]
    requires forall k :: |r| <= k < |t| ==> IsWhitespace(t[k])
    requires r != [] ==> !IsWhitespace(r[|r| - 1])
    ensures TrimmedAt(s, r, |s| - |t|)
  {
    var i := |s| - |t|;
    forall k | i + |r| <= k < |s| ensures IsWhitespace(s[k]) {
      assert t[k - i] == s[k];
    }
    if r != [] {
      assert r[0] == t[0];
    }
  }

  /** `str::split(sep)` collected into a vector: the pieces between occurrences
      of sep, empty pieces included, so there is always at least one. */
  function Split(s: string, sep: char): (r: seq<string>)
    ensures |r| >= 1
    ensures forall k :: 0 <= k < |r| ==> sep !in r[k]
  {
    if s == [] then [""]
    else
      var rest := Split(s[1..], sep);
      if s[0] == sep then [""] + rest
      else [[s[0]] + rest[0]] + rest[1..]
  }

  /** The total length of the pieces. */
  function Lengths(parts: seq<string>): nat
  {
    if parts == [] then 0 else |parts[0]| + Lengths(parts[1..])
  }

  /** `[&str]::join(sep)`: the pieces in order, one separator between each two. */
  function Join(parts: seq<string>, sep: string): string
  {
    if |parts| == 0 then ""
    else if |parts| == 1 then parts[0]
    else parts[0] + sep + Join(parts[1..], sep)
  }

  /** A join starts with its first piece and is as long as the pieces plus
      one separator between each two. */
  lemma {:induction false} JoinShape(parts: seq<string>, sep: string)
    requires |parts| >= 1
    ensures var r := Join(parts, sep);
      && |r| == Lengths(parts) + (|parts| - 1) * |sep|
      && |parts[0]| <= |r| && r[..|parts[0]|] == parts[0]
  {
    if |parts| >= 2 {
      JoinShape(parts[1..], sep);
      var r := Join(parts, sep);
      assert r == parts[0] + (sep + Join(parts[1..], sep));
    }
  }

  /** `str::replace(c, d)` for a single character d: every c becomes d and
      every other character is kept in place. */
  function Replace(s: string, c: char, d: char): (r: string)
    ensures |r| == |s|
    ensures forall k :: 0 <= k < |s| && s[k] == c ==> r[k] == d
    ensures forall k :: 0 <= k < |s| && s[k] != c ==> r[k] == s[k]
    ensures c != d ==> c !in r
  {
    seq(|s|, k requires 0 <= k < |s| => if s[k] == c then d else s[k])
  }

  /** Joining the pieces of a split with the separator gives the original back. */
  lemma {:induction false} JoinSplit(s: string, sep: char)
    ensures Join(Split(s, sep), [sep]) == s
  {
    if s != [] {
      var rest := Split(s[1..], sep);
      JoinSplit(s[1..], sep);
      if s[0] != sep {
        var r := Split(s, sep);
        assert r[1..] == rest[1..];
        if |rest| == 1 {
          assert Join(r, [sep]) == [s[0]] + rest[0];
        } else {
          assert Join(rest, [sep]) == rest[0] + [sep] + Join(rest[1..], [sep]);
          assert Join(r, [sep]) == [s[0]] + rest[0] + [sep] + Join(rest[1..], [sep]);
        }
      }
    }
  }

  /** Splitting at the first separator. */
  lemma {:induction false} SplitAt(a: string, sep: char, b: string)
    requires sep !in a
    ensures Split(a + [sep] + b, sep) == [a] + Split(b, sep)
  {
    if a == [] {
      assert a + [sep] + b == [sep] + b;
      assert ([sep] + b)[1..] == b;
    } else {
      assert (a + [sep] + b)[1..] == a[1..] + [sep] + b;
      SplitAt(a[1..], sep, b);
      assert [a[0]] + a[1..] == a;
    }
  }

  /** A piece free of the separator splits into itself. */
  lemma {:induction false} SplitNone(a: string, sep: char)
    requires sep !in a
    ensures Split(a, sep) == [a]
  {
    if a != [] {
      SplitNone(a[1..], sep);
      assert [a[0]] + a[1..] == a;
    }
  }

  /** Splitting the join of separator-free pieces gives the pieces back. */
  lemma {:induction false} SplitJoin(parts: seq<string>, sep: char)
    requires |parts| >= 1
    requires forall k :: 0 <= k < |parts| ==> sep !in parts[k]
    ensures Split(Join(parts, [sep]), sep) == parts
  {
    if |parts| == 1 {
      SplitNone(parts[0], sep);
    } else {
      SplitJoin(parts[1..], sep);
      SplitAt(parts[0], sep, Join(parts[1..], [sep]));
      assert [parts[0]] + parts[1..] == parts;
    }
  }

  /** Appending a piece to a separator-less join appends its text. */
  lemma {:induction false} JoinEmptyAppend(parts: seq<string>, x: string)
    ensures Join(parts + [x], "") == Join(parts, "") + x
  {
    if |parts| == 1 {
      assert parts + [x] == [parts[0], x];
    } else if |parts| > 1 {
      assert (parts + [x])[1..] == parts[1..] + [x];
      JoinEmptyAppend(parts[1..], x);
    }
  }

  /** A string that neither starts nor ends with whitespace trims to itself. */
  lemma TrimUnchanged(s: string)
    requires s != [] && !IsWhitespace(s[0]) && !IsWhitespace(s[|s| - 1])
    ensures Trim(s) == s
  {
  }

  /** A join ends with the last character of its last piece. */
  lemma {:induction false} JoinLast(parts: seq<string>, sep: string)
    requires |parts| >= 1 && parts[|parts| - 1] != []
    ensures var j := Join(parts, sep); var p := parts[|parts| - 1];
      j != [] && j[|j| - 1] == p[|p| - 1]
  {
    if |parts| > 1 {
      JoinLast(parts[1..], sep);
    }
  }
}
