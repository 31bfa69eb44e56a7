/**
  Models of the C++ standard-library text facilities that the mail server and
  client are built on: std::getline over a std::istringstream, whitespace
  tokenising with `>>`, std::to_string, std::stoi and the C-string view of a
  receive buffer.  A stream is modelled by the text it has not read yet.
 */
module CppText {

  datatype Option<T> = None | Some(value: T)

  /** Index of the first '\n' at or after `from`, or |s| when there is none. */
  function NextNewline(s: string, from: nat): (k: nat)
    requires from <= |s|
    ensures from <= k <= |s|
    ensures forall i :: from <= i < k ==> s[i] != '\n'
    ensures k < |s| ==> s[k] == '\n'
    decreases |s| - from
  {
    if from == |s| || s[from] == '\n' then from else NextNewline(s, from + 1)
  }

  /** std::string::find("\n") != npos: the search finds a newline exactly when there is one. */
  lemma NextNewlineFinds(s: string)
    ensures NextNewline(s, 0) < |s| <==> '\n' in s
  {
    var k := NextNewline(s, 0);
    if '\n' in s {
      var j :| 0 <= j < |s| && s[j] == '\n';
      assert k <= j;
    }
  }

  /** What one std::getline call yields: whether it succeeded, the line, and the unread rest. */
  datatype Got = Got(ok: bool, line: string, rest: string)

  /**
    std::getline(stream, line) on a stream whose unread text is `t`.  It fails
    exactly when nothing is left (a fresh string then stays empty); otherwise it
    takes the text up to the next newline, consuming the newline, or all of the
    remaining text when no newline is left.
   */
  function GetLine(t: string): (g: Got)
    ensures g.ok <==> t != []
    ensures !g.ok ==> g.line == [] && g.rest == []
    ensures g.ok ==> '\n' !in g.line && |g.rest| < |t|
    ensures g.ok ==> t == g.line + "\n" + g.rest || (t == g.line && g.rest == [])
  {
    if t == [] then Got(false, [], [])
    else
      var k := NextNewline(t, 0);
      if k < |t| then
        assert t == t[..k] + "\n" + t[k + 1..];
        Got(true, t[..k], t[k + 1..])
      else
        Got(true, t, [])
  }

  /** Every line successive std::getline calls return before the first failure. */
  function Lines(t: string): (ls: seq<string>)
    decreases |t|
  {
    var g := GetLine(t);
    if g.ok then [g.line] + Lines(g.rest) else []
  }

  /** The i-th line, or the empty string a failed std::getline leaves in a fresh string. */
  function LineAt(ls: seq<string>, i: nat): string
  {
    if i < |ls| then ls[i] else ""
  }

  predicate NoNewlines(ls: seq<string>)
  {
    forall i :: 0 <= i < |ls| ==> '\n' !in ls[i]
  }

  /** Each line followed by a newline: the inverse of Lines. */
  function JoinLines(ls: seq<string>): string
  {
    if ls == [] then "" else ls[0] + "\n" + JoinLines(ls[1..])
  }

  lemma {:induction false} LinesHaveNoNewlines(t: string)
    ensures NoNewlines(Lines(t))
    decreases |t|
  {
    var g := GetLine(t);
    if g.ok {
      LinesHaveNoNewlines(g.rest);
      assert Lines(t) == [g.line] + Lines(g.rest);
    }
  }

  lemma {:induction false} JoinLinesAppend(a: seq<string>, b: seq<string>)
    ensures JoinLines(a + b) == JoinLines(a) + JoinLines(b)
  {
    if a == [] {
      assert a + b == b;
    } else {
      assert (a + b)[1..] == a[1..] + b;
      JoinLinesAppend(a[1..], b);
    }
  }

  lemma GetLineOfLine(l: string, rest: string)
    requires '\n' !in l
    ensures GetLine(l + "\n" + rest) == Got(true, l, rest)
  {
    var t := l + "\n" + rest;
    var k := NextNewline(t, 0);
    assert t[|l|] == '\n';
    assert t[..k] == l && t[k + 1..] == rest;
  }

  /** One line, then the rest: the first std::getline call yields the line. */
  lemma LinesOfLine(a: string, rest: string)
    requires '\n' !in a
    ensures Lines(a + "\n" + rest) == [a] + Lines(rest)
  {
    GetLineOfLine(a, rest);
  }

  lemma NoNewlinesTail(ls: seq<string>)
    requires ls != [] && NoNewlines(ls)
    ensures '\n' !in ls[0] && NoNewlines(ls[1..])
  {
    var tail := ls[1..];
    forall i | 0 <= i < |tail| ensures '\n' !in tail[i] {
      assert tail[i] == ls[i + 1];
    }
  }

  /** Lines undoes JoinLines when no line holds a newline. */
  lemma {:induction false} LinesOfJoin(ls: seq<string>)
    requires NoNewlines(ls)
    ensures Lines(JoinLines(ls)) == ls
  {
    if ls != [] {
      var tail := ls[1..];
      NoNewlinesTail(ls);
      assert JoinLines(ls) == ls[0] + "\n" + JoinLines(tail);
      LinesOfLine(ls[0], JoinLines(tail));
      LinesOfJoin(tail);
      assert ls == [ls[0]] + tail;
    }
  }

  lemma JoinOfLinesStep(l: string, ls: seq<string>)
    ensures JoinLines([l] + ls) == l + "\n" + JoinLines(ls)
  {
    assert ([l] + ls)[1..] == ls;
  }

  /** Two leading lines joined in front of the rest. */
  lemma JoinTwo(a: string, b: string, tail: seq<string>)
    ensures JoinLines([a, b] + tail) == a + "\n" + b + "\n" + JoinLines(tail)
  {
    JoinOfLinesStep(b, tail);
    JoinOfLinesStep(a, [b] + tail);
    assert [a, b] + tail == [a] + ([b] + tail);
  }

  /** Four leading lines joined in front of the rest. */
  lemma JoinFour(a: string, b: string, c: string, d: string, tail: seq<string>)
    ensures JoinLines([a, b, c, d] + tail) == a + "\n" + b + "\n" + c + "\n" + d + "\n" + JoinLines(tail)
  {
    var u := [c, d] + tail;
    JoinTwo(c, d, tail);
    JoinTwo(a, b, u);
    assert [a, b, c, d] + tail == [a, b] + u;
  }

  /** The newline JoinLines(Lines(t)) adds after a final line that lacks one. */
  function MissingNewline(t: string): string
  {
    if t == [] || t[|t| - 1] == '\n' then "" else "\n"
  }

  /** JoinLines undoes Lines, up to the newline that a final unterminated line lacks. */
  lemma {:induction false} JoinOfLines(t: string)
    ensures JoinLines(Lines(t)) == t + MissingNewline(t)
    decreases |t|
  {
    if t != [] {
      var g := GetLine(t);
      JoinOfLines(g.rest);
      assert Lines(t) == [g.line] + Lines(g.rest);
      JoinOfLinesStep(g.line, Lines(g.rest));
      if g.rest == [] {
        LastLineNewline(t, g.line);
      } else {
        MissingNewlineOfSuffix(t, g.line, g.rest);
      }
    }
  }

  lemma LastLineNewline(t: string, l: string)
    requires '\n' !in l
    requires t == l + "\n" || (t == l && t != [])
    ensures l + "\n" == t + MissingNewline(t)
  {
    if t == l {
      assert t[|t| - 1] in l;
    }
  }

  lemma MissingNewlineOfSuffix(t: string, l: string, r: string)
    requires t == l + "\n" + r && r != []
    ensures l + "\n" + (r + MissingNewline(r)) == t + MissingNewline(t)
  {
    assert t[|t| - 1] == r[|r| - 1];
  }

  predicate StartsWith(s: string, prefix: string)
  {
    |prefix| <= |s| && s[..|prefix|] == prefix
  }

  // ---------------------------------------------------------------------------
  // White space and `stream >> word`

  /** isspace in the C locale: blank, tab, newline, vertical tab, form feed, carriage return. */
  predicate IsSpace(c: char)
  {
    c == ' ' || '\t' <= c <= '\r'
  }

  predicate AllSpace(s: string)
  {
    forall i :: 0 <= i < |s| ==> IsSpace(s[i])
  }

  /** Length of the longest prefix of `s` that holds no white space. */
  function WordLength(s: string): (n: nat)
    ensures n <= |s|
    ensures forall i :: 0 <= i < n ==> !IsSpace(s[i])
    ensures n < |s| ==> IsSpace(s[n])
  {
    if s == [] || IsSpace(s[0]) then 0 else 1 + WordLength(s[1..])
  }

  /** The words repeated `stream >> part` extracts: maximal runs of non-space characters. */
  function Tokens(s: string): seq<string>
    decreases |s|
  {
    if s == [] then []
    else if IsSpace(s[0]) then Tokens(s[1..])
    else
      var n := WordLength(s);
      [s[..n]] + Tokens(s[n..])
  }

  /** `s` without its leading white space. */
  function DropLeadingSpace(s: string): (r: string)
    ensures |r| <= |s| && r == s[|s| - |r|..]
    ensures AllSpace(s[..|s| - |r|])
    ensures r == [] || !IsSpace(r[0])
  {
    if s == [] || !IsSpace(s[0]) then s else DropLeadingSpace(s[1..])
  }

  /** `s` without its trailing white space. */
  function DropTrailingSpace(s: string): (r: string)
    ensures |r| <= |s| && r == s[..|r|]
    ensures AllSpace(s[|r|..])
    ensures r == [] || !IsSpace(r[|r| - 1])
  {
    if s == [] || !IsSpace(s[|s| - 1]) then s else DropTrailingSpace(s[..|s| - 1])
  }

  /** `s` without white space at either end. */
  function Strip(s: string): string
  {
    DropTrailingSpace(DropLeadingSpace(s))
  }

  lemma {:induction false} TokensOfSpace(s: string)
    requires AllSpace(s)
    ensures Tokens(s) == []
    decreases |s|
  {
    if s != [] {
      TokensOfSpace(s[1..]);
    }
  }

  lemma {:induction false} TokensNoneOnlyIfSpace(s: string)
    requires Tokens(s) == []
    ensures AllSpace(s)
    decreases |s|
  {
    if s != [] {
      TokensNoneOnlyIfSpace(s[1..]);
    }
  }

  lemma {:induction false} TokensDropLeading(s: string)
    ensures Tokens(s) == Tokens(DropLeadingSpace(s))
    decreases |s|
  {
    if s != [] && IsSpace(s[0]) {
      TokensDropLeading(s[1..]);
    }
  }

  lemma {:induction false} TokensAppendSpace(x: string, sp: string)
    requires AllSpace(sp)
    ensures Tokens(x + sp) == Tokens(x)
    decreases |x|
  {
    if x == [] {
      assert x + sp == sp;
      TokensOfSpace(sp);
    } else if IsSpace(x[0]) {
      assert (x + sp)[1..] == x[1..] + sp;
      TokensAppendSpace(x[1..], sp);
    } else {
      var n := WordLength(x);
      WordLengthAppendSpace(x, sp);
      assert (x + sp)[..n] == x[..n];
      assert (x + sp)[n..] == x[n..] + sp;
      TokensAppendSpace(x[n..], sp);
    }
  }

  lemma {:induction false} WordLengthAppendSpace(x: string, sp: string)
    requires AllSpace(sp)
    ensures WordLength(x + sp) == WordLength(x)
    decreases |x|
  {
    if x == [] {
      assert x + sp == sp;
    } else if !IsSpace(x[0]) {
      assert (x + sp)[1..] == x[1..] + sp;
      WordLengthAppendSpace(x[1..], sp);
    }
  }

  /** White space at either end contributes no word. */
  lemma TokensDropTrailing(d: string)
    ensures Tokens(d) == Tokens(DropTrailingSpace(d))
  {
    var w := DropTrailingSpace(d);
    var sp := d[|w|..];
    assert d == w + sp by {
      assert d[..|w|] == w;
      assert d == d[..|w|] + d[|w|..];
    }
    TokensAppendSpace(w, sp);
  }

  lemma TokensOfStripped(s: string)
    ensures Tokens(s) == Tokens(Strip(s))
  {
    TokensDropLeading(s);
    TokensDropTrailing(DropLeadingSpace(s));
  }

  /** A string with no white space at its ends is a single word exactly when it holds no white space. */
  lemma SingleTokenOfTrimmed(w: string)
    requires w == [] || (!IsSpace(w[0]) && !IsSpace(w[|w| - 1]))
    ensures |Tokens(w)| == 1 <==> w != [] && forall i :: 0 <= i < |w| ==> !IsSpace(w[i])
    ensures |Tokens(w)| == 1 ==> Tokens(w)[0] == w
  {
    if w != [] {
      var n := WordLength(w);
      assert Tokens(w) == [w[..n]] + Tokens(w[n..]);
      if n < |w| {
        assert IsSpace(w[n]);
        if Tokens(w[n..]) == [] {
          TokensNoneOnlyIfSpace(w[n..]);
        }
      } else {
        assert w[..n] == w;
      }
    }
  }

  /** A string whose only word is `w` is `w` padded with white space, and conversely. */
  lemma SingleTokenIsStripped(s: string)
    ensures |Tokens(s)| == 1 <==> Strip(s) != [] && forall i :: 0 <= i < |Strip(s)| ==> !IsSpace(Strip(s)[i])
    ensures |Tokens(s)| == 1 ==> Tokens(s)[0] == Strip(s)
  {
    TokensOfStripped(s);
    SingleTokenOfTrimmed(Strip(s));
  }

  // ---------------------------------------------------------------------------
  // Decimal numbers: std::to_string and std::stoi

  predicate IsDigit(c: char)
  {
    '0' <= c <= '9'
  }

  predicate AllDigits(s: string)
  {
    forall i :: 0 <= i < |s| ==> IsDigit(s[i])
  }

  function DigitChar(d: nat): (c: char)
    requires d < 10
    ensures IsDigit(c) && c as int - '0' as int == d
  {
    ('0' as int + d) as char
  }

  /** std::to_string for a value that is never negative: its decimal digits, most significant first. */
  function NatToString(n: nat): (s: string)
    ensures s != [] && AllDigits(s)
    ensures |s| > 1 ==> s[0] != '0'
    decreases n
  {
    if n < 10 then [DigitChar(n)] else NatToString(n / 10) + [DigitChar(n % 10)]
  }

  /** The number a string of decimal digits denotes. */
  function DigitsValue(ds: string): nat
    requires AllDigits(ds)
  {
    if ds == [] then 0 else 10 * DigitsValue(ds[..|ds| - 1]) + (ds[|ds| - 1] as int - '0' as int)
  }

  lemma {:induction false} DigitsValueOfNatToString(n: nat)
    ensures DigitsValue(NatToString(n)) == n
    decreases n
  {
    if n >= 10 {
      var s := NatToString(n);
      assert s[..|s| - 1] == NatToString(n / 10);
      DigitsValueOfNatToString(n / 10);
    }
  }

  /** Distinct numbers have distinct decimal renderings. */
  lemma NatToStringInjective(a: nat, b: nat)
    requires NatToString(a) == NatToString(b)
    ensures a == b
  {
    DigitsValueOfNatToString(a);
    DigitsValueOfNatToString(b);
  }

  /** Length of the longest prefix of `s` made of decimal digits. */
  function DigitRun(s: string): (n: nat)
    ensures n <= |s| && AllDigits(s[..n])
    ensures n < |s| ==> !IsDigit(s[n])
  {
    if s == [] || !IsDigit(s[0]) then 0
    else
      var m := DigitRun(s[1..]);
      assert s[..1 + m] == [s[0]] + s[1..][..m];
      1 + m
  }

  const IntMin: int := -0x8000_0000
  const IntMax: int := 0x7fff_ffff

  /**
    std::stoi with base 10: skip leading white space, take an optional sign and
    the longest run of digits after it, ignore whatever follows.  None stands
    for the exceptions it throws: no digits (invalid_argument) or a value
    outside the range of a 32-bit int (out_of_range).
   */
  function Stoi(s: string): (r: Option<int>)
    ensures r.Some? ==> IntMin <= r.value <= IntMax
  {
    var t := DropLeadingSpace(s);
    var signed := t != [] && (t[0] == '-' || t[0] == '+');
    var u := if signed then t[1..] else t;
    var n := DigitRun(u);
    if n == 0 then None
    else
      var magnitude: int := DigitsValue(u[..n]);
      var v: int := if signed && t[0] == '-' then -magnitude else magnitude;
      if IntMin <= v <= IntMax then Some(v) else None
  }

  /** std::stoi reads back what std::to_string wrote. */
  lemma StoiOfNatToString(n: nat)
    requires n <= IntMax
    ensures Stoi(NatToString(n)) == Some(n)
  {
    var s := NatToString(n);
    DigitsValueOfNatToString(n);
    StoiOfDigits(s);
  }

  /** A run of digits alone, unsigned, is read as the number it denotes. */
  lemma StoiOfDigits(u: string)
    requires u != [] && AllDigits(u) && DigitsValue(u) <= IntMax
    ensures Stoi(u) == Some(DigitsValue(u))
  {
    assert IsDigit(u[0]);
    assert DropLeadingSpace(u) == u;
    assert DigitRun(u) == |u|;
    assert u[..|u|] == u;
  }

  // ---------------------------------------------------------------------------
  // C strings

  /** Position of the first NUL in a char buffer, or its length when there is none (strlen). */
  function NulIndex(s: string): (k: nat)
    ensures k <= |s|
    ensures forall i :: 0 <= i < k ==> s[i] != '\0'
    ensures k < |s| ==> s[k] == '\0'
  {
    if s == [] || s[0] == '\0' then 0 else 1 + NulIndex(s[1..])
  }

  /** The std::string built from a NUL-terminated char buffer: the bytes up to the first NUL. */
  function CStr(s: string): string
  {
    s[..NulIndex(s)]
  }

}
