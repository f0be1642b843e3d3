/**
 Text utilities shared by both applications: Java's `String.trim`, the
 line-oriented text areas (every line appended with a trailing "\n"), and
 the decimal rendering of a positive `int` used by the numbered job listing.
 */
module Text {

  /** `String.trim` removes every leading and trailing character whose code
      point is at most U+0020 (space and all control characters). */
  predicate IsTrimmable(c: char) {
    c <= ' '
  }

  /** A string that `String.trim` would leave as it is. */
  predicate IsTrimmed(s: string) {
    s == [] || (!IsTrimmable(s[0]) && !IsTrimmable(s[|s| - 1]))
  }

  predicate AllTrimmable(s: string) {
    forall i :: 0 <= i < |s| ==> IsTrimmable(s[i])
  }

  /** Drops the removable characters at the front: the result is a suffix of
      `s`, everything dropped is removable, and the result starts with a kept
      character (or is empty). */
  function TrimStart(s: string): (r: string)
    ensures |r| <= |s| && r == s[|s| - |r|..]
    ensures forall i :: 0 <= i < |s| - |r| ==> IsTrimmable(s[i])
    ensures r == [] || !IsTrimmable(r[0])
  {
    if |s| > 0 && IsTrimmable(s[0]) then TrimStart(s[1..]) else s
  }

  /** Drops the removable characters at the back: the result is a prefix of
      `s`, everything dropped is removable, and the result ends with a kept
      character (or is empty). */
  function TrimEnd(s: string): (r: string)
    ensures |r| <= |s| && r == s[..|r|]
    ensures forall i :: |r| <= i < |s| ==> IsTrimmable(s[i])
    ensures r == [] || !IsTrimmable(r[|r| - 1])
  {
    if |s| > 0 && IsTrimmable(s[|s| - 1]) then TrimEnd(s[..|s| - 1]) else s
  }

  /** Java's `String.trim`. The result is trimmed, and it is empty exactly
      when every character of `s` is removable. */
  function Trim(s: string): (r: string)
    ensures |r| <= |s|
    ensures IsTrimmed(r)
    ensures r == [] <==> AllTrimmable(s)
  {
    var front := TrimStart(s);
    TrimEnd(front)
  }

  /** Trimming a trimmed string changes nothing; in particular trimming is
      idempotent. */
  lemma TrimOfTrimmed(s: string)
    requires IsTrimmed(s)
    ensures Trim(s) == s
  {
    assert TrimStart(s) == s;
  }

  lemma TrimIdempotent(s: string)
    ensures Trim(Trim(s)) == Trim(s)
  {
    TrimOfTrimmed(Trim(s));
  }

  /** Padding a non-empty trimmed string with removable characters on either
      side is undone exactly by `Trim`. */
  lemma {:induction false} TrimPadded(pre: string, s: string, post: string)
    requires AllTrimmable(pre) && AllTrimmable(post)
    requires s != [] && IsTrimmed(s)
    ensures Trim(pre + s + post) == s
  {
    var w := pre + s + post;
    assert (s + post)[0] == s[0];
    assert w == pre + (s + post);
    TrimStartPadded(pre, s + post);
    TrimEndPadded(s, post);
    assert Trim(w) == TrimEnd(TrimStart(w));
  }

  lemma {:induction false} TrimStartPadded(pre: string, t: string)
    requires AllTrimmable(pre)
    requires t != [] && !IsTrimmable(t[0])
    ensures TrimStart(pre + t) == t
  {
    if pre != [] {
      assert (pre + t)[1..] == pre[1..] + t;
      TrimStartPadded(pre[1..], t);
    }
  }

  lemma {:induction false} TrimEndPadded(t: string, post: string)
    requires AllTrimmable(post)
    requires t != [] && !IsTrimmable(t[|t| - 1])
    ensures TrimEnd(t + post) == t
  {
    if post != [] {
      var w := t + post;
      assert w[..|w| - 1] == t + post[..|post| - 1];
      TrimEndPadded(t, post[..|post| - 1]);
    }
  }

  // ---------------------------------------------------------------------
  // Line-oriented text

  predicate HasNoNewline(s: string) {
    forall i :: 0 <= i < |s| ==> s[i] != '\n'
  }

  /** The text a `StringBuilder` or a `TextArea` holds after appending each
      line followed by "\n", in order. */
  function Terminated(lines: seq<string>): (r: string)
    ensures r == [] <==> lines == []
    ensures lines != [] ==> r[|r| - 1] == '\n'
  {
    if lines == [] then [] else lines[0] + "\n" + Terminated(lines[1..])
  }

  /** Appending lines one block after another is the same as appending the
      concatenated block. */
  lemma {:induction false} TerminatedAppend(a: seq<string>, b: seq<string>)
    ensures Terminated(a + b) == Terminated(a) + Terminated(b)
  {
    if a != [] {
      assert (a + b)[0] == a[0];
      assert (a + b)[1..] == a[1..] + b;
      TerminatedAppend(a[1..], b);
      calc {
        Terminated(a + b);
        a[0] + "\n" + Terminated(a[1..] + b);
        a[0] + "\n" + (Terminated(a[1..]) + Terminated(b));
        (a[0] + "\n" + Terminated(a[1..])) + Terminated(b);
        Terminated(a) + Terminated(b);
      }
    } else {
      assert a + b == b;
    }
  }

  lemma TerminatedSingle(line: string)
    ensures Terminated([line]) == line + "\n"
  {
    assert [line][1..] == [];
  }

  /** A `StringBuilder` loop that appends each line and then "\n". */
  method AppendLines(lines: seq<string>) returns (text: string)
    ensures text == Terminated(lines)
  {
    text := "";
    var i := 0;
    while i < |lines|
      invariant 0 <= i <= |lines|
      invariant text == Terminated(lines[..i])
    {
      TerminatedAppend(lines[..i], [lines[i]]);
      TerminatedSingle(lines[i]);
      assert lines[..i + 1] == lines[..i] + [lines[i]];
      text := text + lines[i] + "\n";
      i := i + 1;
    }
    assert lines[..i] == lines;
  }

  /** Position of the first "\n" in `s`, or `|s|` when there is none. */
  function FirstNewline(s: string): (k: nat)
    ensures k <= |s|
    ensures forall i :: 0 <= i < k ==> s[i] != '\n'
    ensures k < |s| ==> s[k] == '\n'
  {
    if s == [] || s[0] == '\n' then 0 else 1 + FirstNewline(s[1..])
  }

  /** Splits a text into its lines. A final "\n" ends the last line; text
      after the last "\n" forms one more line. */
  function SplitLines(s: string): (lines: seq<string>)
    ensures forall j :: 0 <= j < |lines| ==> HasNoNewline(lines[j])
    decreases |s|
  {
    if s == [] then []
    else
      var k := FirstNewline(s);
      if k < |s| then [s[..k]] + SplitLines(s[k + 1..]) else [s]
  }

  lemma SplitLinesCons(line: string, rest: string)
    requires HasNoNewline(line)
    ensures SplitLines(line + "\n" + rest) == [line] + SplitLines(rest)
  {
    var s := line + "\n" + rest;
    var k := FirstNewline(s);
    assert s[|line|] == '\n';
    assert forall i :: 0 <= i < |line| ==> s[i] == line[i];
    assert k == |line|;
    assert s[..k] == line;
    assert s[k + 1..] == rest;
  }

  lemma SplitLinesSingle(line: string)
    requires line != [] && HasNoNewline(line)
    ensures SplitLines(line) == [line]
  {
    assert FirstNewline(line) == |line|;
  }

  /** Splitting the text of a block of newline-free lines gives back exactly
      those lines. */
  lemma {:induction false} SplitTerminated(lines: seq<string>)
    requires forall j :: 0 <= j < |lines| ==> HasNoNewline(lines[j])
    ensures SplitLines(Terminated(lines)) == lines
  {
    if lines != [] {
      SplitLinesCons(lines[0], Terminated(lines[1..]));
      SplitTerminated(lines[1..]);
    }
  }

  /** Conversely, a text that is empty or ends with "\n" is rebuilt exactly by
      terminating its lines. */
  lemma TerminatedCons(line: string, tail: seq<string>)
    ensures Terminated([line] + tail) == line + "\n" + Terminated(tail)
  {
    assert ([line] + tail)[1..] == tail;
  }

  lemma SplitAround(s: string, k: nat)
    requires k < |s| && s[k] == '\n'
    ensures s == s[..k] + "\n" + s[k + 1..]
  {
  }

  lemma {:induction false} TerminatedSplit(s: string)
    requires s == [] || s[|s| - 1] == '\n'
    ensures Terminated(SplitLines(s)) == s
    decreases |s|
  {
    if s != [] {
      var k := FirstNewline(s);
      assert s[|s| - 1] == '\n';
      var rest := s[k + 1..];
      TerminatedSplit(rest);
      TerminatedCons(s[..k], SplitLines(rest));
      SplitAround(s, k);
    }
  }

  // ---------------------------------------------------------------------
  // Decimal numerals

  function DigitChar(d: nat): (c: char)
    requires d < 10
    ensures '0' <= c <= '9'
  {
    "0123456789"[d]
  }

  function DigitValue(c: char): (d: nat)
    requires '0' <= c <= '9'
    ensures d < 10
  {
    (c as int - '0' as int)
  }

  predicate IsDigits(s: string) {
    forall i :: 0 <= i < |s| ==> '0' <= s[i] <= '9'
  }

  /** `Integer.toString` of a non-negative `int`: a non-empty string of
      digits without a leading zero (unless the number is 0). */
  function NatToDecimal(n: nat): (r: string)
    ensures |r| >= 1 && IsDigits(r)
    ensures |r| > 1 ==> r[0] != '0'
    decreases n
  {
    if n < 10 then [DigitChar(n)] else NatToDecimal(n / 10) + [DigitChar(n % 10)]
  }

  /** The number a string of decimal digits denotes. */
  function DecimalValue(s: string): nat
    requires IsDigits(s)
    decreases |s|
  {
    if s == [] then 0 else 10 * DecimalValue(s[..|s| - 1]) + DigitValue(s[|s| - 1])
  }

  lemma DigitRoundTrip(d: nat)
    requires d < 10
    ensures DigitValue(DigitChar(d)) == d
  {
  }

  /** Reading back the numeral gives the number it was made from. */
  lemma {:induction false} DecimalRoundTrip(n: nat)
    ensures DecimalValue(NatToDecimal(n)) == n
    decreases n
  {
    var r := NatToDecimal(n);
    DigitRoundTrip(n % 10);
    if n >= 10 {
      DecimalRoundTrip(n / 10);
      assert r[..|r| - 1] == NatToDecimal(n / 10);
    }
  }

  /** Different numbers get different numerals. */
  lemma NatToDecimalInjective(m: nat, n: nat)
    requires NatToDecimal(m) == NatToDecimal(n)
    ensures m == n
  {
    DecimalRoundTrip(m);
    DecimalRoundTrip(n);
  }
}
