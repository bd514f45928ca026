/** Python's splitlines, strip and "\n".join on text files. */
module TextLines {
  import opened Prelude

  type Line = string

  /** The characters at which splitlines breaks. */
  predicate IsBreak(c: char) {
    var n := c as int;
    0x0A <= n <= 0x0D || 0x1C <= n <= 0x1E || n == 0x85 || n == 0x2028 || n == 0x2029
  }

  /** The characters that strip removes. */
  predicate IsSpace(c: char) {
    var n := c as int;
    || IsBreak(c) || n == 0x09 || n == 0x1F || n == 0x20 || n == 0xA0 || n == 0x1680 || 0x2000 <= n <= 0x200A
    || n == 0x202F || n == 0x205F || n == 0x3000
  }

  function FirstBreak(s: string): (i: nat)
    ensures i <= |s|
  {
    if s == "" || IsBreak(s[0]) then 0 else 1 + FirstBreak(s[1..])
  }

  /** A carriage return and the line feed after it are one break. */
  function AfterBreak(s: string, i: nat): (j: nat)
    requires i < |s|
    ensures i < j <= |s|
  {
    if s[i] == '\r' && i + 1 < |s| && s[i + 1] == '\n' then i + 2 else i + 1
  }

  function SplitLines(s: string): seq<Line>
    decreases |s|
  {
    if s == "" then []
    else
      var i := FirstBreak(s);
      if i == |s| then [s] else [s[..i]] + SplitLines(s[AfterBreak(s, i)..])
  }

  /** "\n".join(lines), with a final line break if there is any line. */
  function JoinLines(lines: seq<Line>): string {
    if lines == [] then "" else lines[0] + "\n" + JoinLines(lines[1..])
  }

  function StripLeft(s: string): string {
    if s != "" && IsSpace(s[0]) then StripLeft(s[1..]) else s
  }

  function StripRight(s: string): string {
    if s != "" && IsSpace(s[|s| - 1]) then StripRight(s[..|s| - 1]) else s
  }

  function Strip(s: string): string {
    StripRight(StripLeft(s))
  }

  function CleanOne(line: Line): seq<Line> {
    if Strip(line) == "" then [] else [Strip(line)]
  }

  /** The stripped lines, blank ones dropped. */
  function Clean(lines: seq<Line>): seq<Line> {
    if lines == [] then [] else CleanOne(lines[0]) + Clean(lines[1..])
  }

  // ----- breaks -----

  ghost predicate Unbroken(s: string) {
    forall i :: 0 <= i < |s| ==> !IsBreak(s[i])
  }

  ghost predicate AllUnbroken(lines: seq<Line>) {
    forall i :: 0 <= i < |lines| ==> Unbroken(lines[i])
  }

  lemma {:induction false} FirstBreakIsFirst(s: string)
    ensures Unbroken(s[..FirstBreak(s)])
    ensures FirstBreak(s) < |s| ==> IsBreak(s[FirstBreak(s)])
  {
    if s != "" && !IsBreak(s[0]) {
      FirstBreakIsFirst(s[1..]);
      var i := FirstBreak(s);
      forall k | 0 <= k < i ensures !IsBreak(s[..i][k]) {
        assert k > 0 ==> s[..i][k] == s[1..][..i - 1][k - 1];
      }
    }
  }

  lemma {:induction false} SplitIsUnbroken(s: string)
    ensures AllUnbroken(SplitLines(s))
    decreases |s|
  {
    if s != "" {
      var i := FirstBreak(s);
      FirstBreakIsFirst(s);
      if i < |s| {
        SplitIsUnbroken(s[AfterBreak(s, i)..]);
      } else {
        assert s[..i] == s;
      }
    }
  }

  lemma {:induction false} FirstBreakAfter(line: Line, rest: string)
    requires Unbroken(line)
    ensures FirstBreak(line + "\n" + rest) == |line|
  {
    var s := line + "\n" + rest;
    if line == "" {
      assert s[0] == '\n';
    } else {
      FirstBreakAfter(line[1..], rest);
      assert s[1..] == line[1..] + "\n" + rest;
      assert s[0] == line[0];
    }
  }

  /** Reading back what was written gives the same lines. */
  lemma {:induction false} SplitOfJoin(lines: seq<Line>)
    requires AllUnbroken(lines)
    ensures SplitLines(JoinLines(lines)) == lines
  {
    if lines != [] {
      var line, rest := lines[0], JoinLines(lines[1..]);
      var s := line + "\n" + rest;
      FirstBreakAfter(line, rest);
      SplitOfJoin(lines[1..]);
      assert s[|line|] == '\n' && s[..|line|] == line && s[|line| + 1..] == rest;
    }
  }

  // ----- strip -----

  lemma {:induction false} StripLeftEnds(s: string)
    ensures StripLeft(s) == "" || !IsSpace(StripLeft(s)[0])
    ensures Unbroken(s) ==> Unbroken(StripLeft(s))
  {
    if s != "" && IsSpace(s[0]) {
      StripLeftEnds(s[1..]);
    }
  }

  lemma {:induction false} StripRightEnds(s: string)
    ensures StripRight(s) == "" || !IsSpace(StripRight(s)[|StripRight(s)| - 1])
    ensures StripRight(s) <= s
    ensures Unbroken(s) ==> Unbroken(StripRight(s))
  {
    if s != "" && IsSpace(s[|s| - 1]) {
      StripRightEnds(s[..|s| - 1]);
    }
  }

  lemma StripTwice(s: string)
    ensures Strip(Strip(s)) == Strip(s)
    ensures Unbroken(s) ==> Unbroken(Strip(s))
  {
    StripLeftEnds(s);
    StripRightEnds(StripLeft(s));
    var t := Strip(s);
    assert t != "" ==> t[0] == StripLeft(s)[0];
    assert StripLeft(t) == t;
  }

  ghost predicate IsClean(lines: seq<Line>) {
    forall i :: 0 <= i < |lines| ==> lines[i] != "" && Strip(lines[i]) == lines[i]
  }

  lemma {:induction false} CleanIsClean(lines: seq<Line>)
    ensures IsClean(Clean(lines))
    ensures AllUnbroken(lines) ==> AllUnbroken(Clean(lines))
  {
    if lines != [] {
      CleanIsClean(lines[1..]);
      StripTwice(lines[0]);
    }
  }

  lemma {:induction false} CleanOfClean(lines: seq<Line>)
    requires IsClean(lines)
    ensures Clean(lines) == lines
  {
    if lines != [] {
      CleanOfClean(lines[1..]);
    }
  }

  // ----- the same in terms of the characters -----

  /** The code points that str.strip removes, and among them those at which str.splitlines breaks. */
  const SPACES: set<int> :=
    {0x09, 0x0A, 0x0B, 0x0C, 0x0D, 0x1C, 0x1D, 0x1E, 0x1F, 0x20, 0x85, 0xA0, 0x1680, 0x2000, 0x2001, 0x2002, 0x2003,
     0x2004, 0x2005, 0x2006, 0x2007, 0x2008, 0x2009, 0x200A, 0x2028, 0x2029, 0x202F, 0x205F, 0x3000}

  const BREAKS: set<int> := {0x0A, 0x0B, 0x0C, 0x0D, 0x1C, 0x1D, 0x1E, 0x85, 0x2028, 0x2029}

  lemma BlanksListed(c: char)
    ensures IsSpace(c) <==> c as int in SPACES
    ensures IsBreak(c) <==> c as int in BREAKS
  {
  }

  ghost predicate Blank(s: string) {
    forall k :: 0 <= k < |s| ==> IsSpace(s[k])
  }

  /** t is s without the blanks at both ends, and with no others removed. */
  ghost predicate Strips(s: string, t: string) {
    exists i, j :: StripsAt(s, t, i, j)
  }

  ghost predicate StripsAt(s: string, t: string, i: nat, j: nat) {
    && i <= j <= |s| && t == s[i..j] && Blank(s[..i]) && Blank(s[j..])
    && (t != "" ==> !IsSpace(t[0]) && !IsSpace(t[|t| - 1]))
  }

  lemma {:induction false} StripLeftExactly(s: string) returns (i: nat)
    ensures i <= |s| && StripLeft(s) == s[i..] && Blank(s[..i])
  {
    i := 0;
    if s != "" && IsSpace(s[0]) {
      i := StripLeftExactly(s[1..]);
      assert s[..i + 1] == [s[0]] + s[1..][..i];
      i := i + 1;
    }
  }

  lemma {:induction false} StripRightExactly(s: string) returns (j: nat)
    ensures j <= |s| && StripRight(s) == s[..j] && Blank(s[j..])
  {
    j := |s|;
    if s != "" && IsSpace(s[|s| - 1]) {
      j := StripRightExactly(s[..|s| - 1]);
      assert s[j..] == s[..|s| - 1][j..] + [s[|s| - 1]];
    }
  }

  lemma StripExactly(s: string)
    ensures Strips(s, Strip(s))
    ensures Strip(s) == "" <==> Blank(s)
  {
    var t := Strip(s);
    var i := StripLeftExactly(s);
    var n := StripRightExactly(s[i..]);
    StripLeftEnds(s);
    StripRightEnds(s[i..]);
    if t != "" {
      assert t[0] == s[i..][0] == s[i];
    }
    assert s[i..][n..] == s[i + n..];
    assert StripsAt(s, t, i, i + n);
    if t == "" {
      assert s == s[..i] + s[i + n..];
    }
  }

  /** kept holds the stripped lines that are not blank, in their order. */
  ghost predicate Cleaned(lines: seq<Line>, kept: seq<Line>) {
    exists at :: CleanedAt(lines, kept, at)
  }

  ghost predicate CleanedAt(lines: seq<Line>, kept: seq<Line>, at: seq<nat>) {
    NotBlankAt(lines, at) && StrippedAt(lines, kept, at)
  }

  ghost predicate NotBlankAt(lines: seq<Line>, at: seq<nat>) {
    Positions(at, |lines|) && forall i: nat :: i < |lines| ==> (i in at <==> !Blank(lines[i]))
  }

  ghost predicate StrippedAt(lines: seq<Line>, kept: seq<Line>, at: seq<nat>)
    requires Positions(at, |lines|)
  {
    |at| == |kept| && forall j :: 0 <= j < |kept| ==> Strips(lines[at[j]], kept[j])
  }

  lemma NotBlankNext(lines: seq<Line>, rest: seq<nat>)
    requires lines != [] && NotBlankAt(lines[1..], rest)
    ensures NotBlankAt(lines, if Blank(lines[0]) then Shifted(rest) else [0] + Shifted(rest))
  {
    ShiftedPositions(rest, |lines| - 1);
    forall i: nat | i < |lines|
      ensures i in Shifted(rest) <==> i > 0 && !Blank(lines[i])
      ensures i in [0] + Shifted(rest) <==> i == 0 || !Blank(lines[i])
    {
      ShiftedIn(rest, i);
      assert i > 0 ==> lines[i] == lines[1..][i - 1];
    }
  }

  lemma StrippedNext(lines: seq<Line>, kept: seq<Line>, rest: seq<nat>, t: Line)
    requires lines != [] && Positions(rest, |lines| - 1) && StrippedAt(lines[1..], kept, rest) && Strips(lines[0], t)
    ensures Positions(Shifted(rest), |lines|) && StrippedAt(lines, kept, Shifted(rest))
    ensures Positions([0] + Shifted(rest), |lines|) && StrippedAt(lines, [t] + kept, [0] + Shifted(rest))
  {
    ShiftedPositions(rest, |lines| - 1);
    forall j | 0 <= j < |kept| ensures lines[Shifted(rest)[j]] == lines[1..][rest[j]] {
    }
  }

  lemma CleanedNext(lines: seq<Line>, kept: seq<Line>, rest: seq<nat>, t: Line)
    requires lines != [] && CleanedAt(lines[1..], kept, rest) && Strips(lines[0], t)
    ensures Blank(lines[0]) ==> CleanedAt(lines, kept, Shifted(rest))
    ensures !Blank(lines[0]) ==> CleanedAt(lines, [t] + kept, [0] + Shifted(rest))
  {
    NotBlankNext(lines, rest);
    StrippedNext(lines, kept, rest, t);
  }

  lemma {:induction false} CleanedPositions(lines: seq<Line>) returns (at: seq<nat>)
    ensures CleanedAt(lines, Clean(lines), at)
  {
    if lines == [] {
      at := [];
    } else {
      at := CleanedPositions(lines[1..]);
      StripExactly(lines[0]);
      CleanedNext(lines, Clean(lines[1..]), at, Strip(lines[0]));
      at := if Blank(lines[0]) then Shifted(at) else [0] + Shifted(at);
    }
  }

  lemma CleanExactly(lines: seq<Line>)
    ensures Cleaned(lines, Clean(lines))
  {
    var at := CleanedPositions(lines);
  }

  /** A single break, or a carriage return with the line feed that follows it. */
  ghost predicate IsSeparator(sep: string, rest: string) {
    || sep == "\r\n"
    || (|sep| == 1 && IsBreak(sep[0]) && !(sep == "\r" && rest != "" && rest[0] == '\n'))
  }

  /** The text is these lines, each with a separator behind it, which the last one may lack unless it is empty. */
  ghost predicate Splits(s: string, lines: seq<Line>)
    decreases |lines|
  {
    if lines == [] then s == ""
    else
      && Unbroken(lines[0])
      && ((|lines| == 1 && s == lines[0] != "") || exists sep, rest :: SplitsAt(s, lines, sep, rest))
  }

  ghost predicate SplitsAt(s: string, lines: seq<Line>, sep: string, rest: string)
    requires lines != []
    decreases |lines|, 0
  {
    s == lines[0] + sep + rest && IsSeparator(sep, rest) && Splits(rest, lines[1..])
  }

  lemma {:induction false} SplitExactly(s: string)
    ensures Splits(s, SplitLines(s))
    decreases |s|
  {
    if s != "" {
      var i := FirstBreak(s);
      FirstBreakIsFirst(s);
      if i == |s| {
        assert s[..i] == s;
      } else {
        var j := AfterBreak(s, i);
        SplitExactly(s[j..]);
        var lines := SplitLines(s);
        assert lines[0] == s[..i] && lines[1..] == SplitLines(s[j..]);
        assert s == s[..i] + s[i..j] + s[j..];
        SeparatorBehind(s, i, j);
        assert SplitsAt(s, lines, s[i..j], s[j..]);
      }
    }
  }

  lemma SeparatorBehind(s: string, i: nat, j: nat)
    requires i < |s| && IsBreak(s[i]) && j == AfterBreak(s, i)
    ensures IsSeparator(s[i..j], s[j..])
  {
    if s[i] == '\r' && i + 1 < |s| && s[i + 1] == '\n' {
      assert s[i..j] == "\r\n";
    }
  }

  /** Writing puts a line feed behind every line. */
  lemma {:induction false} JoinOfAppend(a: seq<Line>, line: Line)
    ensures JoinLines(a + [line]) == JoinLines(a) + line + "\n"
    ensures JoinLines([]) == ""
  {
    if a == [] {
      assert a + [line] == [line];
    } else {
      JoinOfAppend(a[1..], line);
      assert (a + [line])[1..] == a[1..] + [line];
      assert a[0] + "\n" + (JoinLines(a[1..]) + line + "\n") == JoinLines(a) + line + "\n";
    }
  }
}
