/** The three pieces of Python's text handling that the range lookup of
    password_checker.py relies on: `str.splitlines()`, `str.split(':')` and
    `int(...)` applied to a string.  Each is a total function here; the
    failure of `int(...)` is a `None` result instead of a `ValueError`. */
module PythonText {

  datatype Option<+T> = None | Some(value: T)

  // ---------------------------------------------------------------------
  // str.splitlines()
  // ---------------------------------------------------------------------

  /** The characters `str.splitlines()` treats as line boundaries. */
  predicate IsLineBoundary(c: char)
  {
    c == '\n' || c == '\r' || c == '\U{0B}' || c == '\U{0C}' ||
    c == '\U{1C}' || c == '\U{1D}' || c == '\U{1E}' ||
    c == '\U{85}' || c == '\U{2028}' || c == '\U{2029}'
  }

  predicate NoLineBoundary(s: string)
  {
    forall i | 0 <= i < |s| :: !IsLineBoundary(s[i])
  }

  /** Index of the first line boundary in `s`, or `|s|` when there is none. */
  function LineEnd(s: string): (i: nat)
    ensures i <= |s|
    ensures NoLineBoundary(s[..i])
    ensures i < |s| ==> IsLineBoundary(s[i])
  {
    if s == [] || IsLineBoundary(s[0]) then 0
    else
      var j := LineEnd(s[1..]);
      assert s[..1 + j] == [s[0]] + s[1..][..j];
      1 + j
  }

  /** `s.splitlines()`: the lines of `s` without their terminators; "\r\n"
      ends one line, and a final terminator does not start an empty line. */
  function SplitLines(s: string): (lines: seq<string>)
    ensures forall k | 0 <= k < |lines| :: NoLineBoundary(lines[k])
    decreases |s|
  {
    if s == [] then []
    else
      var i := LineEnd(s);
      if i == |s| then [s]
      else
        var next := if s[i] == '\r' && i + 1 < |s| && s[i + 1] == '\n' then i + 2 else i + 1;
        [s[..i]] + SplitLines(s[next..])
  }

  /** The two line terminators a range response is laid out with. */
  predicate IsLineTerminator(eol: string)
  {
    eol == "\n" || eol == "\r\n"
  }

  /** The lines of `lines`, each followed by `eol`. */
  function JoinLines(lines: seq<string>, eol: string): string
  {
    if lines == [] then "" else lines[0] + eol + JoinLines(lines[1..], eol)
  }

  /** The lines of `lines` separated by `eol`, with no terminator after the
      last one. */
  function JoinLinesOpen(lines: seq<string>, eol: string): string
  {
    if lines == [] then ""
    else if |lines| == 1 then lines[0]
    else lines[0] + eol + JoinLinesOpen(lines[1..], eol)
  }

  /** The first line boundary of `line + rest` is where `rest` starts when
      `line` has none and `rest` starts with one. */
  lemma LineEndAt(line: string, rest: string)
    requires NoLineBoundary(line)
    requires rest != [] && IsLineBoundary(rest[0])
    ensures LineEnd(line + rest) == |line|
  {
    var s := line + rest;
    var i := LineEnd(s);
    assert s[|line|] == rest[0];
    if i < |line| {
      assert false;
    } else if i > |line| {
      assert false;
    }
  }

  /** A line without boundaries, a terminator, then more text: the line
      comes first and the splitting carries on after the terminator. */
  lemma SplitLinesStep(line: string, eol: string, rest: string)
    requires IsLineTerminator(eol)
    requires NoLineBoundary(line)
    ensures SplitLines(line + eol + rest) == [line] + SplitLines(rest)
  {
    var s := line + eol + rest;
    assert s == line + (eol + rest);
    LineEndAt(line, eol + rest);
    assert s[..|line|] == line;
    if eol == "\n" {
      assert s[|line|] == '\n';
      assert s[|line| + 1..] == rest;
    } else {
      assert s[|line|] == '\r' && s[|line| + 1] == '\n';
      assert s[|line| + 2..] == rest;
    }
  }

  /** Splitting a body laid out by `JoinLines` gives back its lines. */
  lemma {:induction false} SplitLinesJoinLines(lines: seq<string>, eol: string)
    requires IsLineTerminator(eol)
    requires forall k | 0 <= k < |lines| :: NoLineBoundary(lines[k])
    ensures SplitLines(JoinLines(lines, eol)) == lines
  {
    if lines != [] {
      SplitLinesStep(lines[0], eol, JoinLines(lines[1..], eol));
      SplitLinesJoinLines(lines[1..], eol);
    }
  }

  /** Splitting a body laid out by `JoinLinesOpen` gives back its lines,
      provided the last one is not empty (an empty last line leaves no trace
      once its terminator is gone). */
  lemma {:induction false} SplitLinesJoinLinesOpen(lines: seq<string>, eol: string)
    requires IsLineTerminator(eol)
    requires forall k | 0 <= k < |lines| :: NoLineBoundary(lines[k])
    requires lines != [] ==> lines[|lines| - 1] != []
    ensures SplitLines(JoinLinesOpen(lines, eol)) == lines
  {
    if |lines| == 1 {
      assert LineEnd(lines[0]) == |lines[0]|;
    } else if |lines| > 1 {
      SplitLinesStep(lines[0], eol, JoinLinesOpen(lines[1..], eol));
      SplitLinesJoinLinesOpen(lines[1..], eol);
    }
  }

  // ---------------------------------------------------------------------
  // str.split(sep) with a one-character separator
  // ---------------------------------------------------------------------

  /** Index of the first `c` in `s`, or `|s|` when there is none. */
  function IndexOf(s: string, c: char): (i: nat)
    ensures i <= |s|
    ensures c !in s[..i]
    ensures i < |s| ==> s[i] == c
  {
    if s == [] || s[0] == c then 0
    else
      var j := IndexOf(s[1..], c);
      assert s[..1 + j] == [s[0]] + s[1..][..j];
      1 + j
  }

  /** `s.split(sep)`: the fields between separators, never an empty list
      ("".split(':') is ['']). */
  function Split(s: string, sep: char): (fields: seq<string>)
    ensures |fields| >= 1
    ensures forall k | 0 <= k < |fields| :: sep !in fields[k]
    decreases |s|
  {
    var i := IndexOf(s, sep);
    if i == |s| then
      assert s[..i] == s;
      [s]
    else [s[..i]] + Split(s[i + 1..], sep)
  }

  /** `sep.join(fields)`. */
  function Join(fields: seq<string>, sep: char): string
  {
    if fields == [] then ""
    else if |fields| == 1 then fields[0]
    else fields[0] + [sep] + Join(fields[1..], sep)
  }

  /** Joining the fields of a split with the same separator restores the string. */
  lemma {:induction false} JoinSplit(s: string, sep: char)
    ensures Join(Split(s, sep), sep) == s
    decreases |s|
  {
    var i := IndexOf(s, sep);
    if i < |s| {
      var rest := Split(s[i + 1..], sep);
      var fields := [s[..i]] + rest;
      assert Split(s, sep) == fields;
      assert Join(fields, sep) == s[..i] + [sep] + Join(rest, sep) by {
        assert fields[1..] == rest;
      }
      assert Join(rest, sep) == s[i + 1..] by {
        JoinSplit(s[i + 1..], sep);
      }
      assert s == s[..i] + [sep] + s[i + 1..];
    } else {
      assert Split(s, sep) == [s];
    }
  }

  /** Splitting a join of separator-free fields gives back the fields. */
  lemma {:induction false} SplitJoin(fields: seq<string>, sep: char)
    requires |fields| >= 1
    requires forall k | 0 <= k < |fields| :: sep !in fields[k]
    ensures Split(Join(fields, sep), sep) == fields
  {
    var f := fields[0];
    if |fields| == 1 {
    } else {
      var rest := Join(fields[1..], sep);
      var s := Join(fields, sep);
      assert s == f + ([sep] + rest);
      var i := IndexOf(s, sep);
      assert s[|f|] == sep;
      if i < |f| {
        assert false;
      } else if i > |f| {
        assert false;
      }
      assert s[..i] == f;
      assert s[i + 1..] == rest;
      SplitJoin(fields[1..], sep);
    }
  }

  // ---------------------------------------------------------------------
  // int(s) for a string s, base 10
  // ---------------------------------------------------------------------

  predicate IsDigit(c: char)
  {
    '0' <= c <= '9'
  }

  /** The ASCII whitespace `int()` strips around its argument: the space
      and `\t` through `\r`.  The separators U+001C to U+001F count as
      whitespace for `str.isspace()` but are not stripped by `int()`. */
  predicate IsIntWhitespace(c: char)
  {
    c == ' ' || '\t' <= c <= '\r'
  }

  function TrimStart(s: string): (t: string)
    ensures |t| <= |s|
    ensures t != [] ==> !IsIntWhitespace(t[0])
    ensures forall c | c in t :: c in s
  {
    if s != [] && IsIntWhitespace(s[0]) then TrimStart(s[1..]) else s
  }

  function TrimEnd(s: string): (t: string)
    ensures |t| <= |s|
    ensures t != [] ==> !IsIntWhitespace(t[|t| - 1])
    ensures forall c | c in t :: c in s
  {
    if s != [] && IsIntWhitespace(s[|s| - 1]) then TrimEnd(s[..|s| - 1]) else s
  }

  function Strip(s: string): (t: string)
    ensures forall c | c in t :: c in s
  {
    TrimEnd(TrimStart(s))
  }

  /** No two underscores in a row. */
  predicate NoDoubleUnderscore(s: string)
  {
    |s| < 2 || (!(s[0] == '_' && s[1] == '_') && NoDoubleUnderscore(s[1..]))
  }

  /** The digit part `int()` accepts: digits, with single underscores
      allowed only between two digits. */
  predicate WellFormedDigits(s: string)
  {
    s != [] && IsDigit(s[0]) && IsDigit(s[|s| - 1]) &&
    (forall i | 0 <= i < |s| :: IsDigit(s[i]) || s[i] == '_') &&
    NoDoubleUnderscore(s)
  }

  function WithoutUnderscores(s: string): (t: string)
    ensures (forall i | 0 <= i < |s| :: IsDigit(s[i]) || s[i] == '_') ==>
              forall i | 0 <= i < |t| :: IsDigit(t[i])
  {
    if s == [] then ""
    else if s[|s| - 1] == '_' then WithoutUnderscores(s[..|s| - 1])
    else WithoutUnderscores(s[..|s| - 1]) + [s[|s| - 1]]
  }

  function DigitValue(c: char): nat
    requires IsDigit(c)
  {
    (c as int - '0' as int) as nat
  }

  function DigitChar(d: nat): (c: char)
    requires d < 10
    ensures IsDigit(c) && DigitValue(c) == d
  {
    ('0' as int + d) as char
  }

  /** The value of a string of decimal digits, most significant first. */
  function DecimalValue(ds: string): nat
    requires forall i | 0 <= i < |ds| :: IsDigit(ds[i])
  {
    if ds == [] then 0
    else DecimalValue(ds[..|ds| - 1]) * 10 + DigitValue(ds[|ds| - 1])
  }

  /** The unsigned part of `int(s)`: digits with underscores between them. */
  function ParseUnsigned(body: string): Option<nat>
  {
    if WellFormedDigits(body) then Some(DecimalValue(WithoutUnderscores(body))) else None
  }

  /** `int(s)`: `None` where Python raises `ValueError`. */
  function ParseInt(s: string): (r: Option<int>)
    ensures r.Some? ==> exists c | c in s :: IsDigit(c)
    ensures r.Some? && r.value < 0 ==> '-' in s
  {
    var t := Strip(s);
    if t != [] && (t[0] == '+' || t[0] == '-') then
      match ParseUnsigned(t[1..])
      case None => None
      case Some(v) => Some(if t[0] == '-' then -(v as int) else v)
    else
      match ParseUnsigned(t)
      case None => None
      case Some(v) => Some(v)
  }

  /** `str(n)` for a natural number. */
  function NatToString(n: nat): (s: string)
    ensures s != [] && forall i | 0 <= i < |s| :: IsDigit(s[i])
  {
    if n < 10 then [DigitChar(n)] else NatToString(n / 10) + [DigitChar(n % 10)]
  }

  /** `str(x)` for an integer. */
  function IntToString(x: int): string
  {
    if x < 0 then "-" + NatToString(-x) else NatToString(x)
  }

  lemma {:induction false} DecimalValueNatToString(n: nat)
    ensures DecimalValue(NatToString(n)) == n
  {
    if n >= 10 {
      var s := NatToString(n);
      assert s[..|s| - 1] == NatToString(n / 10);
      DecimalValueNatToString(n / 10);
    }
  }

  lemma {:induction false} WithoutUnderscoresOfDigits(s: string)
    requires forall i | 0 <= i < |s| :: IsDigit(s[i])
    ensures WithoutUnderscores(s) == s
  {
    if s != [] {
      WithoutUnderscoresOfDigits(s[..|s| - 1]);
      assert s == s[..|s| - 1] + [s[|s| - 1]];
    }
  }

  /** A string with no whitespace at either end is its own strip. */
  lemma StripUnchanged(s: string)
    requires s != [] && !IsIntWhitespace(s[0]) && !IsIntWhitespace(s[|s| - 1])
    ensures Strip(s) == s
  {
    assert TrimStart(s) == s;
  }

  lemma {:induction false} DigitsWellFormed(ds: string)
    requires ds != [] && forall i | 0 <= i < |ds| :: IsDigit(ds[i])
    ensures WellFormedDigits(ds)
  {
    if |ds| >= 2 {
      DigitsWellFormed(ds[1..]);
    }
  }

  lemma ParseUnsignedOfDigits(ds: string)
    requires ds != [] && forall i | 0 <= i < |ds| :: IsDigit(ds[i])
    ensures ParseUnsigned(ds) == Some(DecimalValue(ds))
  {
    DigitsWellFormed(ds);
    WithoutUnderscoresOfDigits(ds);
  }

  /** `int()` reads a plain run of digits as its decimal value. */
  lemma ParseIntOfDigits(ds: string)
    requires ds != [] && forall i | 0 <= i < |ds| :: IsDigit(ds[i])
    ensures ParseInt(ds) == Some(DecimalValue(ds))
  {
    StripUnchanged(ds);
    ParseUnsignedOfDigits(ds);
  }

  /** `int()` of a stripped string that starts with a sign reads the rest unsigned. */
  lemma ParseIntSigned(s: string)
    requires s != [] && s[0] == '-' && Strip(s) == s
    requires ParseUnsigned(s[1..]).Some?
    ensures ParseInt(s) == Some(-(ParseUnsigned(s[1..]).value as int))
  {
  }

  /** ... and a minus sign followed by digits as the negated value. */
  lemma ParseIntOfNegatedDigits(s: string)
    requires |s| >= 2 && s[0] == '-'
    requires forall i | 1 <= i < |s| :: IsDigit(s[i])
    ensures ParseInt(s) == Some(-(DecimalValue(s[1..]) as int))
  {
    var ds := s[1..];
    assert IsDigit(s[|s| - 1]);
    StripUnchanged(s);
    ParseUnsignedOfDigits(ds);
    ParseIntSigned(s);
  }

  /** `int(str(x)) == x`. */
  lemma ParseIntToString(x: int)
    ensures ParseInt(IntToString(x)) == Some(x)
  {
    var n: nat := if x < 0 then -x else x;
    if x < 0 {
      var s := IntToString(x);
      assert s[1..] == NatToString(n);
      ParseIntOfNegatedDigits(s);
    } else {
      ParseIntOfDigits(NatToString(n));
    }
    DecimalValueNatToString(n);
  }

  /** The unit separator U+001F is not stripped, so a count that starts
      with it is rejected. */
  lemma UnitSeparatorNotStripped()
    ensures ParseInt("\U{1F}5") == None
  {
    assert Strip("\U{1F}5") == "\U{1F}5";
  }
}
