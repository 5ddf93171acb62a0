/**
 * String helpers with the semantics of the ECMAScript built-ins the
 * source uses: `String.prototype.trim`, `split` on one character, the
 * line split `split(/\r?\n/)`, and decimal digits.
 */
module Text {

  /**
   * ECMAScript WhiteSpace and LineTerminator code points: the characters
   * `trim` removes and the regular-expression class `\s` matches.
   */
  predicate IsSpace(c: char) {
    c in SpaceChars || '\U{2000}' <= c <= '\U{200A}'
  }

  const SpaceChars: set<char> := {
    '\t', '\n', '\U{000B}', '\U{000C}', '\r', ' ', '\U{00A0}', '\U{1680}',
    '\U{2028}', '\U{2029}', '\U{202F}', '\U{205F}', '\U{3000}', '\U{FEFF}'
  }

  predicate AllSpace(s: string) {
    forall i :: 0 <= i < |s| ==> IsSpace(s[i])
  }

  /** How many whitespace characters `s` starts with. */
  function LeadingSpace(s: string): (n: nat)
    ensures n <= |s|
    ensures forall i :: 0 <= i < n ==> IsSpace(s[i])
    ensures n == |s| || !IsSpace(s[n])
  {
    if s != [] && IsSpace(s[0]) then 1 + LeadingSpace(s[1..]) else 0
  }

  /** The length of `s` without its trailing whitespace. */
  function ContentEnd(s: string): (n: nat)
    ensures n <= |s|
    ensures forall i :: n <= i < |s| ==> IsSpace(s[i])
    ensures n == 0 || !IsSpace(s[n - 1])
  {
    if s != [] && IsSpace(s[|s| - 1]) then ContentEnd(s[..|s| - 1]) else |s|
  }

  /** Drops leading whitespace. */
  function TrimStart(s: string): string {
    s[LeadingSpace(s)..]
  }

  /** `s.trim()`: the text between the leading and the trailing whitespace. */
  function Trim(s: string): (r: string)
    ensures var a := LeadingSpace(s);
      && a + |r| <= |s| && r == s[a..a + |r|]
      && AllSpace(s[..a]) && AllSpace(s[a + |r|..])
    ensures r == [] || (!IsSpace(r[0]) && !IsSpace(r[|r| - 1]))
  {
    var t := TrimStart(s);
    t[..ContentEnd(t)]
  }

  /** Trimming twice is trimming once. */
  lemma TrimIdempotent(s: string)
    ensures Trim(Trim(s)) == Trim(s)
  {
  }

  /** A string trims to nothing exactly when it is all whitespace. */
  lemma TrimEmptyIffBlank(s: string)
    ensures Trim(s) == [] <==> AllSpace(s)
  {
    var a := LeadingSpace(s);
    if Trim(s) == [] {
      assert forall i :: 0 <= i < a ==> s[i] == s[..a][i];
    }
  }

  /** Position of the first `c` in `s`. */
  function IndexOf(s: string, c: char): (i: nat)
    requires c in s
    ensures i < |s| && s[i] == c && c !in s[..i]
  {
    if s[0] == c then 0
    else
      assert s == [s[0]] + s[1..];
      var j := IndexOf(s[1..], c);
      assert s[..j + 1] == [s[0]] + s[1..][..j];
      j + 1
  }

  /** The inverse of Split: the parts with `sep` between neighbours. */
  function Join(parts: seq<string>, sep: char): string
    requires |parts| >= 1
  {
    if |parts| == 1 then parts[0] else parts[0] + [sep] + Join(parts[1..], sep)
  }

  /** `s.split(sep)` for a one-character separator: cut at every `sep`. */
  function Split(s: string, sep: char): (r: seq<string>)
    ensures |r| >= 1
    ensures forall i :: 0 <= i < |r| ==> sep !in r[i]
    ensures Join(r, sep) == s
    decreases |s|
  {
    if sep !in s then [s]
    else
      var i := IndexOf(s, sep);
      var rest := Split(s[i + 1..], sep);
      var r := [s[..i]] + rest;
      assert r[1..] == rest;
      assert s == s[..i] + [sep] + s[i + 1..];
      r
  }

  /** The first occurrence is the only one before which `c` is absent. */
  lemma {:induction false} IndexOfUnique(s: string, c: char, i: nat)
    requires i < |s| && s[i] == c && c !in s[..i]
    ensures IndexOf(s, c) == i
  {
    if i > 0 {
      assert s[0] == s[..i][0];
      assert s[1..][..i - 1] == s[1..i];
      assert forall k :: 0 <= k < i - 1 ==> s[1..i][k] == s[..i][k + 1];
      IndexOfUnique(s[1..], c, i - 1);
    }
  }

  /** Split undoes Join: cutting at every separator recovers the parts. */
  lemma {:induction false} SplitJoin(parts: seq<string>, sep: char)
    requires |parts| >= 1
    requires forall i :: 0 <= i < |parts| ==> sep !in parts[i]
    ensures Split(Join(parts, sep), sep) == parts
    decreases |parts|
  {
    if |parts| > 1 {
      var s := Join(parts, sep);
      var head := parts[0];
      var tail := Join(parts[1..], sep);
      assert s == head + [sep] + tail;
      var i := |head|;
      assert s[..i] == head;
      assert s[i] == sep;
      assert s[i + 1..] == tail;
      IndexOfUnique(s, sep, i);
      SplitJoin(parts[1..], sep);
      assert Split(s, sep) == [head] + Split(tail, sep);
      assert parts == [head] + parts[1..];
    }
  }

  predicate EndsWithCR(line: string) {
    line != [] && line[|line| - 1] == '\r'
  }

  /** Drops one trailing carriage return, if there is one. */
  function DropCR(line: string): (r: string)
    ensures EndsWithCR(line) ==> line == r + "\r"
    ensures !EndsWithCR(line) ==> r == line
    ensures r == line[..|r|]
  {
    if EndsWithCR(line) then line[..|line| - 1] else line
  }

  /**
   * `s.split(/\r?\n/)`: cut at every line feed, and drop the carriage
   * return that immediately precedes a line feed. Only the pieces that a
   * line feed ends lose a carriage return; the last piece keeps its own.
   */
  function SplitLines(s: string): (r: seq<string>)
    ensures |r| == |Split(s, '\n')|
    ensures forall i :: 0 <= i < |r| ==> '\n' !in r[i]
    ensures forall i :: 0 <= i < |r| - 1 ==> r[i] == DropCR(Split(s, '\n')[i])
    ensures r[|r| - 1] == Split(s, '\n')[|r| - 1]
  {
    LinesOf(Split(s, '\n'))
  }

  /** The line-feed pieces with the carriage returns before each line feed dropped. */
  function LinesOf(pieces: seq<string>): (r: seq<string>)
    requires |pieces| >= 1
    requires forall i :: 0 <= i < |pieces| ==> '\n' !in pieces[i]
    ensures |r| == |pieces|
    ensures forall i :: 0 <= i < |r| ==> r[i] == LinePiece(pieces, i) && '\n' !in r[i]
    ensures forall i :: 0 <= i < |r| - 1 ==> r[i] == DropCR(pieces[i])
    ensures r[|r| - 1] == pieces[|r| - 1]
  {
    seq(|pieces|, i requires 0 <= i < |pieces| => LinePiece(pieces, i))
  }

  /** Piece `i` of the line split: the last piece whole, the others without a final '\r'. */
  function LinePiece(pieces: seq<string>, i: nat): (r: string)
    requires i < |pieces|
    ensures '\n' !in pieces[i] ==> '\n' !in r
    ensures i < |pieces| - 1 ==> r == DropCR(pieces[i])
    ensures i == |pieces| - 1 ==> r == pieces[i]
  {
    var r := if i < |pieces| - 1 then DropCR(pieces[i]) else pieces[i];
    assert r == pieces[i][..|r|];
    r
  }

  /** `lines[0]`, then each further line after "\r\n" (where `crlf` says so) or "\n". */
  function JoinLines(lines: seq<string>, crlf: seq<bool>): string
    requires |lines| >= 1 && |crlf| == |lines| - 1
  {
    if |lines| == 1 then lines[0]
    else lines[0] + (if crlf[0] then "\r\n" else "\n") + JoinLines(lines[1..], crlf[1..])
  }

  /** The text between line feeds: each line with the carriage return its separator carries. */
  function Terminated(lines: seq<string>, crlf: seq<bool>): (p: seq<string>)
    requires |lines| >= 1 && |crlf| == |lines| - 1
    ensures |p| == |lines|
    ensures forall i :: 0 <= i < |lines| - 1 ==> p[i] == lines[i] + (if crlf[i] then "\r" else "")
    ensures p[|lines| - 1] == lines[|lines| - 1]
  {
    seq(|lines|, i requires 0 <= i < |lines| =>
      if i < |lines| - 1 then lines[i] + (if crlf[i] then "\r" else "") else lines[i])
  }

  /** A line text is Join over line feeds of the terminated lines. */
  lemma {:induction false} JoinLinesIsJoin(lines: seq<string>, crlf: seq<bool>)
    requires |lines| >= 1 && |crlf| == |lines| - 1
    ensures JoinLines(lines, crlf) == Join(Terminated(lines, crlf), '\n')
    decreases |lines|
  {
    if |lines| > 1 {
      var p := Terminated(lines, crlf);
      var q := Terminated(lines[1..], crlf[1..]);
      JoinLinesIsJoin(lines[1..], crlf[1..]);
      assert p[1..] == q;
      assert p[0] + ['\n'] == lines[0] + (if crlf[0] then "\r\n" else "\n");
    }
  }

  /**
   * `split(/\r?\n/)` undoes joining lines with "\n" or "\r\n" separators,
   * when no line holds a line feed and no line before a bare "\n" ends in
   * a carriage return.
   */
  lemma SplitLinesJoinLines(lines: seq<string>, crlf: seq<bool>)
    requires |lines| >= 1 && |crlf| == |lines| - 1
    requires forall i :: 0 <= i < |lines| ==> '\n' !in lines[i]
    requires forall i :: 0 <= i < |lines| - 1 && !crlf[i] ==> !EndsWithCR(lines[i])
    ensures SplitLines(JoinLines(lines, crlf)) == lines
  {
    var p := Terminated(lines, crlf);
    JoinLinesIsJoin(lines, crlf);
    TerminatedHasNoLF(lines, crlf);
    SplitJoin(p, '\n');
    TerminatedDropCR(lines, crlf);
  }

  lemma TerminatedHasNoLF(lines: seq<string>, crlf: seq<bool>)
    requires |lines| >= 1 && |crlf| == |lines| - 1
    requires forall i :: 0 <= i < |lines| ==> '\n' !in lines[i]
    ensures forall i :: 0 <= i < |lines| ==> '\n' !in Terminated(lines, crlf)[i]
  {
    var p := Terminated(lines, crlf);
    forall i | 0 <= i < |p|
      ensures '\n' !in p[i]
    {
      if i < |lines| - 1 && crlf[i] {
        assert p[i] == lines[i] + "\r";
      }
    }
  }

  /** Dropping the carriage return a separator added gives each line back. */
  lemma TerminatedDropCR(lines: seq<string>, crlf: seq<bool>)
    requires |lines| >= 1 && |crlf| == |lines| - 1
    requires forall i :: 0 <= i < |lines| - 1 && !crlf[i] ==> !EndsWithCR(lines[i])
    ensures forall i :: 0 <= i < |lines| - 1 ==> DropCR(Terminated(lines, crlf)[i]) == lines[i]
  {
    var p := Terminated(lines, crlf);
    forall i | 0 <= i < |lines| - 1
      ensures DropCR(p[i]) == lines[i]
    {
      if crlf[i] {
        assert EndsWithCR(p[i]) && p[i] == lines[i] + "\r";
      }
    }
  }

  predicate IsDigit(c: char) {
    '0' <= c <= '9'
  }

  predicate AllDigits(s: string) {
    forall i :: 0 <= i < |s| ==> IsDigit(s[i])
  }

  /** The longest prefix of `s` made of decimal digits. */
  function DigitPrefix(s: string): (r: string)
    ensures |r| <= |s| && r == s[..|r|]
    ensures AllDigits(r)
    ensures |r| == |s| || !IsDigit(s[|r|])
  {
    if s != [] && IsDigit(s[0]) then
      var r := [s[0]] + DigitPrefix(s[1..]);
      assert s == [s[0]] + s[1..];
      r
    else []
  }

  function DigitValue(c: char): nat
    requires IsDigit(c)
  {
    (c - '0') as nat
  }

  /** The number a string of decimal digits denotes (leading zeros allowed). */
  function DecimalValue(ds: string): nat
    requires AllDigits(ds)
  {
    if ds == [] then 0
    else DecimalValue(ds[..|ds| - 1]) * 10 + DigitValue(ds[|ds| - 1])
  }

  function DigitChar(d: nat): (c: char)
    requires d < 10
    ensures IsDigit(c) && DigitValue(c) == d
  {
    (d as int + '0' as int) as char
  }

  /** `String(n)` for a non-negative integer: digits, no leading zero. */
  function ShowNat(n: nat): (s: string)
    ensures |s| >= 1 && AllDigits(s)
    ensures DecimalValue(s) == n
    ensures s[0] != '0' || n == 0
  {
    if n < 10 then [DigitChar(n)]
    else
      var s := ShowNat(n / 10) + [DigitChar(n % 10)];
      assert s[..|s| - 1] == ShowNat(n / 10);
      s
  }

  /** `String(n)` for an integer. */
  function ShowInt(n: int): (s: string)
    ensures |s| >= 1
    ensures n < 0 ==> s[0] == '-' && s[1..] == ShowNat(-n)
    ensures n >= 0 ==> s == ShowNat(n)
  {
    if n < 0 then "-" + ShowNat(-n) else ShowNat(n)
  }

  /** Digits without a leading zero are what `String` prints for their value. */
  lemma {:induction false} ShowNatOfCanonical(s: string)
    requires s != [] && AllDigits(s) && (s == "0" || s[0] != '0')
    ensures ShowNat(DecimalValue(s)) == s
    decreases |s|
  {
    var n := DecimalValue(s);
    var init := s[..|s| - 1];
    if |s| == 1 {
    } else {
      assert init[0] == s[0];
      ShowNatOfCanonical(init);
      assert DecimalValue(init) >= 1 by {
        LeadingDigitPositive(init);
      }
      assert n / 10 == DecimalValue(init) && n % 10 == DigitValue(s[|s| - 1]);
      assert s == init + [s[|s| - 1]];
    }
  }

  lemma {:induction false} LeadingDigitPositive(s: string)
    requires s != [] && AllDigits(s) && s[0] != '0'
    ensures DecimalValue(s) >= 1
    decreases |s|
  {
    if |s| > 1 {
      var init := s[..|s| - 1];
      assert init[0] == s[0];
      LeadingDigitPositive(init);
    }
  }
}
