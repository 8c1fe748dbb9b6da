/** The string operations the bot borrows from Python: `str.strip()`,
    `str.lower().startswith(...)` on the command text, the decimal rendering
    of a line number and `"\n".join(...)` with its inverse `str.split("\n")`. */
module Text {

  /** Python's `str.isspace()` for a single character. */
  predicate IsSpace(c: char) {
    ('\t' <= c <= '\r') || ('\U{1C}' <= c <= ' ') || c == '\U{85}' || c == '\U{A0}'
    || c == '\U{1680}' || ('\U{2000}' <= c <= '\U{200A}') || c == '\U{2028}' || c == '\U{2029}'
    || c == '\U{202F}' || c == '\U{205F}' || c == '\U{3000}'
  }

  predicate AllSpace(s: string) {
    forall i :: 0 <= i < |s| ==> IsSpace(s[i])
  }

  /** Drops the leading whitespace: what remains is a suffix of `s`. */
  function TrimStart(s: string): (r: string)
    ensures |r| <= |s| && r == s[|s| - |r|..]
    ensures AllSpace(s[..|s| - |r|])
    ensures r == [] || !IsSpace(r[0])
  {
    if s != [] && IsSpace(s[0]) then
      var r := TrimStart(s[1..]);
      SpaceThenSuffix(s, r);
      r
    else s
  }

  /** A suffix of `s[1..]` behind whitespace is a suffix of `s` behind whitespace when `s[0]` is one. */
  lemma {:induction false} SpaceThenSuffix(s: string, r: string)
    requires s != [] && IsSpace(s[0])
    requires |r| <= |s| - 1 && r == s[1..][|s| - 1 - |r|..]
    requires AllSpace(s[1..][..|s| - 1 - |r|])
    ensures r == s[|s| - |r|..] && AllSpace(s[..|s| - |r|])
  {
    forall k | 0 <= k < |s| - |r| ensures IsSpace(s[k]) {
      if k > 0 {
        assert s[k] == s[1..][..|s| - 1 - |r|][k - 1];
      }
    }
  }

  /** Drops the trailing whitespace: what remains is a prefix of `s`. */
  function TrimEnd(s: string): (r: string)
    ensures |r| <= |s| && r == s[..|r|]
    ensures AllSpace(s[|r|..])
    ensures r == [] || !IsSpace(r[|r| - 1])
  {
    if s != [] && IsSpace(s[|s| - 1]) then
      var r := TrimEnd(s[..|s| - 1]);
      PrefixThenSpace(s, r);
      r
    else s
  }

  /** A prefix of `s` without its last character, followed by whitespace, is a
      prefix of `s` followed by whitespace when that last character is one. */
  lemma {:induction false} PrefixThenSpace(s: string, r: string)
    requires s != [] && IsSpace(s[|s| - 1])
    requires |r| <= |s| - 1 && r == s[..|s| - 1][..|r|]
    requires AllSpace(s[..|s| - 1][|r|..])
    ensures r == s[..|r|] && AllSpace(s[|r|..])
  {
    forall k | |r| <= k < |s| ensures IsSpace(s[k]) {
      if k < |s| - 1 {
        assert s[k] == s[..|s| - 1][|r|..][k - |r|];
      }
    }
  }

  /** `r` is `s` with only whitespace in front of it, from index `i`, and behind it. */
  predicate SpaceAround(s: string, r: string, i: int) {
    0 <= i <= |s| - |r| && r == s[i..i + |r|] && AllSpace(s[..i]) && AllSpace(s[i + |r|..])
  }

  /** What `str.strip()` promises of its result `r`: neither end is whitespace,
      and `s` is `r` with whitespace only around it. */
  ghost predicate StrippedFrom(s: string, r: string) {
    (r == [] || (!IsSpace(r[0]) && !IsSpace(r[|r| - 1])))
    && exists i :: SpaceAround(s, r, i)
  }

  /** Python's `str.strip()` with no argument. */
  function Strip(s: string): (r: string)
    ensures StrippedFrom(s, r)
  {
    TrimmedBothEnds(s);
    TrimEnd(TrimStart(s))
  }

  lemma {:induction false} TrimmedBothEnds(s: string)
    ensures StrippedFrom(s, TrimEnd(TrimStart(s)))
  {
    var t := TrimStart(s);
    var r := TrimEnd(t);
    PrefixOfSuffix(s, t, r);
  }

  /** A prefix `r` of a suffix `t` of `s`, with whitespace only around it, is `s`
      with whitespace around `r`. */
  lemma {:induction false} PrefixOfSuffix(s: string, t: string, r: string)
    requires |t| <= |s| && t == s[|s| - |t|..] && AllSpace(s[..|s| - |t|])
    requires |r| <= |t| && r == t[..|r|] && AllSpace(t[|r|..])
    requires r == [] || !IsSpace(r[|r| - 1])
    requires t == [] || !IsSpace(t[0])
    ensures StrippedFrom(s, r)
  {
    var i := |s| - |t|;
    assert r == s[i..i + |r|];
    assert s[i + |r|..] == t[|r|..];
    assert SpaceAround(s, r, i);
    assert r == [] || r[0] == t[0];
  }

  lemma {:induction false} StripIdempotent(s: string)
    ensures Strip(Strip(s)) == Strip(s)
  {
    var r := Strip(s);
    assert TrimStart(r) == r;
    assert TrimEnd(r) == r;
  }

  /** Lower-cases the ASCII letters and leaves every other character alone. */
  function LowerAscii(c: char): (d: char)
    ensures 'A' <= c <= 'Z' ==> 'a' <= d <= 'z' && d as int - c as int == 32
    ensures !('A' <= c <= 'Z') ==> d == c
  {
    if 'A' <= c <= 'Z' then (c as int + 32) as char else c
  }

  function Lower(s: string): (r: string)
    ensures |r| == |s| && forall i :: 0 <= i < |s| ==> r[i] == LowerAscii(s[i])
  {
    seq(|s|, i requires 0 <= i < |s| => LowerAscii(s[i]))
  }

  predicate StartsWith(s: string, prefix: string) {
    |prefix| <= |s| && s[..|prefix|] == prefix
  }

  function DigitChar(d: nat): (c: char)
    requires d < 10
    ensures '0' <= c <= '9' && c as int - '0' as int == d
  {
    ('0' as int + d) as char
  }

  predicate AllDigits(s: string) {
    forall i :: 0 <= i < |s| ==> '0' <= s[i] <= '9'
  }

  /** Python's `str(n)` (and `f"{n}"`) for a natural number. */
  function NatToString(n: nat): (r: string)
    ensures |r| >= 1 && AllDigits(r)
    ensures |r| == 1 || r[0] != '0'
  {
    if n < 10 then [DigitChar(n)] else NatToString(n / 10) + [DigitChar(n % 10)]
  }

  /** The number a string of decimal digits denotes (Python's `int(s)`). */
  function DigitsValue(s: string): nat
    requires AllDigits(s)
  {
    if s == [] then 0 else DigitsValue(s[..|s| - 1]) * 10 + (s[|s| - 1] as int - '0' as int)
  }

  lemma {:induction false} NatToStringRoundTrip(n: nat)
    ensures DigitsValue(NatToString(n)) == n
  {
    if n >= 10 {
      var s := NatToString(n);
      assert s[..|s| - 1] == NatToString(n / 10);
      NatToStringRoundTrip(n / 10);
    }
  }

  /** Python's `"\n".join(lines)`. */
  function JoinLines(lines: seq<string>): (s: string)
  {
    if |lines| == 0 then "" else if |lines| == 1 then lines[0] else lines[0] + "\n" + JoinLines(lines[1..])
  }

  function IndexOfNewline(s: string): (i: nat)
    requires '\n' in s
    ensures i < |s| && s[i] == '\n' && '\n' !in s[..i]
  {
    if s[0] == '\n' then 0 else
      var j := IndexOfNewline(s[1..]);
      assert s[..j + 1] == [s[0]] + s[1..][..j];
      j + 1
  }

  /** Python's `s.split("\n")`: never empty, and no piece holds a newline. */
  function SplitLines(s: string): (lines: seq<string>)
    ensures |lines| >= 1
    ensures forall i :: 0 <= i < |lines| ==> '\n' !in lines[i]
    decreases |s|
  {
    if '\n' !in s then [s] else
      var i := IndexOfNewline(s);
      [s[..i]] + SplitLines(s[i + 1..])
  }

  /** Splitting a joined text gives back the lines, when none holds a newline. */
  lemma {:induction false} SplitJoin(lines: seq<string>)
    requires |lines| >= 1
    requires forall i :: 0 <= i < |lines| ==> '\n' !in lines[i]
    ensures SplitLines(JoinLines(lines)) == lines
  {
    if |lines| > 1 {
      var s := JoinLines(lines);
      var head := lines[0];
      assert s == head + "\n" + JoinLines(lines[1..]);
      assert s[|head|] == '\n' && s[..|head|] == head;
      assert '\n' in s;
      assert IndexOfNewline(s) == |head|;
      assert s[|head| + 1..] == JoinLines(lines[1..]);
      SplitJoin(lines[1..]);
    } else {
      assert '\n' !in lines[0];
    }
  }

  /** Joining the pieces of a split gives back the text. */
  lemma {:induction false} JoinSplit(s: string)
    ensures JoinLines(SplitLines(s)) == s
    decreases |s|
  {
    if '\n' in s {
      var i := IndexOfNewline(s);
      var tail := s[i + 1..];
      var rest := SplitLines(tail);
      JoinSplit(tail);
      var lines := [s[..i]] + rest;
      assert SplitLines(s) == lines;
      assert lines[0] == s[..i] && lines[1..] == rest;
      assert JoinLines(lines) == s[..i] + "\n" + JoinLines(rest);
      assert s == s[..i] + [s[i]] + tail;
    }
  }

  /** Joining two non-empty groups of lines with one more newline joins them all. */
  lemma {:induction false} JoinConcat(a: seq<string>, b: seq<string>)
    requires |a| >= 1 && |b| >= 1
    ensures JoinLines(a) + "\n" + JoinLines(b) == JoinLines(a + b)
  {
    if |a| > 1 {
      JoinConcat(a[1..], b);
      assert (a + b)[1..] == a[1..] + b;
    } else {
      assert (a + b)[1..] == b;
    }
  }

  /** A line put in front of non-empty lines is followed by one newline. */
  lemma {:induction false} JoinPrepend(head: string, lines: seq<string>)
    requires |lines| >= 1
    ensures JoinLines([head] + lines) == head + "\n" + JoinLines(lines)
  {
    assert ([head] + lines)[1..] == lines;
  }

  /** Two titled blocks of lines with an empty line between them. */
  lemma {:induction false} JoinTitledBlocks(title1: string, lines1: seq<string>, title2: string, lines2: seq<string>)
    requires |lines1| >= 1 && |lines2| >= 1
    ensures title1 + "\n" + JoinLines(lines1) + "\n\n" + title2 + "\n" + JoinLines(lines2)
         == JoinLines([title1] + lines1 + ["", title2] + lines2)
  {
    var top := [title1] + lines1;
    var titled2 := [title2] + lines2;
    var bottom := [""] + titled2;
    var text1, text2 := JoinLines(lines1), JoinLines(lines2);
    calc {
      title1 + "\n" + text1 + "\n\n" + title2 + "\n" + text2;
      { JoinTitledBlocksRegroup(title1, text1, title2, text2); }
      (title1 + "\n" + text1) + "\n" + ("" + "\n" + (title2 + "\n" + text2));
      { JoinPrepend(title2, lines2); }
      (title1 + "\n" + text1) + "\n" + ("" + "\n" + JoinLines(titled2));
      { JoinPrepend("", titled2); }
      (title1 + "\n" + text1) + "\n" + JoinLines(bottom);
      { JoinPrepend(title1, lines1); }
      JoinLines(top) + "\n" + JoinLines(bottom);
      { JoinConcat(top, bottom); }
      JoinLines(top + bottom);
      { assert top + bottom == [title1] + lines1 + ["", title2] + lines2; }
      JoinLines([title1] + lines1 + ["", title2] + lines2);
    }
  }

  lemma {:induction false} JoinTitledBlocksRegroup(title1: string, text1: string, title2: string, text2: string)
    ensures title1 + "\n" + text1 + "\n\n" + title2 + "\n" + text2
         == (title1 + "\n" + text1) + "\n" + ("" + "\n" + (title2 + "\n" + text2))
  {
    assert "\n\n" == "\n" + "\n";
  }

  /** A heading, an empty line, then the lines. */
  lemma {:induction false} JoinAfterHeading(heading: string, lines: seq<string>)
    requires |lines| >= 1
    ensures heading + "\n\n" + JoinLines(lines) == JoinLines([heading, ""] + lines)
  {
    JoinPrepend("", lines);
    JoinPrepend(heading, [""] + lines);
    assert [heading, ""] + lines == [heading] + ([""] + lines);
    assert heading + "\n\n" + JoinLines(lines) == heading + "\n" + ("" + "\n" + JoinLines(lines)) by {
      assert "\n\n" == "\n" + "\n";
    }
  }
}
