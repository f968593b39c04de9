/**
 * ASCII character classes and the string helpers the file-name code relies
 * on: `Trim`, `ToLower`, `int.Parse` over a digit run and decimal formatting
 * of a version number. Whitespace is the ASCII part of .NET's `\s` and
 * `Char.IsWhiteSpace`: space, tab, line feed, vertical tab, form feed and
 * carriage return.
 */
module Text {

  datatype Option<+T> = None | Some(value: T)

  predicate IsWhite(c: char) {
    c == ' ' || c == '\t' || c == '\n' || c == '\U{000B}' || c == '\U{000C}' || c == '\r'
  }

  predicate IsDigit(c: char) {
    '0' <= c <= '9'
  }

  predicate AllWhite(s: string) {
    forall i :: 0 <= i < |s| ==> IsWhite(s[i])
  }

  predicate AllDigits(s: string) {
    forall i :: 0 <= i < |s| ==> IsDigit(s[i])
  }

  /** Neither the first nor the last character is whitespace. */
  predicate NoOuterWhite(s: string) {
    s == [] || (!IsWhite(s[0]) && !IsWhite(s[|s| - 1]))
  }

  // ---------------------------------------------------------------------
  // Lowercasing (ASCII model of `ToLower` and of OrdinalIgnoreCase)
  // ---------------------------------------------------------------------

  function LowerChar(c: char): char {
    if 'A' <= c <= 'Z' then (c as int + 32) as char else c
  }

  /** Lowercasing keeps every character class the version pattern looks at. */
  lemma LowerCharClasses(c: char)
    ensures IsWhite(LowerChar(c)) == IsWhite(c)
    ensures IsDigit(LowerChar(c)) == IsDigit(c)
    ensures (LowerChar(c) == '(') == (c == '(') && (LowerChar(c) == ')') == (c == ')')
    ensures (LowerChar(c) == '\n') == (c == '\n')
    ensures (LowerChar(c) == 'v') == (c == 'v' || c == 'V')
    ensures LowerChar(c) != 'V'
  {
  }

  function Lower(s: string): string {
    seq(|s|, i requires 0 <= i < |s| => LowerChar(s[i]))
  }

  /** Two strings are equal when case is ignored. */
  predicate EqualsIgnoreCase(a: string, b: string) {
    Lower(a) == Lower(b)
  }

  lemma LowerAppend(a: string, b: string)
    ensures Lower(a + b) == Lower(a) + Lower(b)
  {
    assert |Lower(a + b)| == |Lower(a) + Lower(b)|;
    forall i | 0 <= i < |a + b|
      ensures Lower(a + b)[i] == (Lower(a) + Lower(b))[i]
    {
      if i < |a| {
        assert (a + b)[i] == a[i];
      } else {
        assert (a + b)[i] == b[i - |a|];
      }
    }
  }

  lemma LowerSlice(s: string, i: nat, j: nat)
    requires i <= j <= |s|
    ensures Lower(s)[i..j] == Lower(s[i..j])
  {
  }

  lemma LowerIdempotent(s: string)
    ensures Lower(Lower(s)) == Lower(s)
  {
  }

  /** Lowercasing leaves digits alone. */
  lemma LowerDigits(s: string)
    requires AllDigits(s)
    ensures Lower(s) == s
  {
  }

  // ---------------------------------------------------------------------
  // Trimming (`String.Trim`, and the `\s*` runs of the version pattern)
  // ---------------------------------------------------------------------

  /** Removes trailing whitespace. */
  function TrimEnd(s: string): (r: string)
    ensures |r| <= |s| && r == s[..|r|]
    ensures AllWhite(s[|r|..])
    ensures r == [] || !IsWhite(r[|r| - 1])
  {
    if |s| > 0 && IsWhite(s[|s| - 1]) then
      var t := s[..|s| - 1];
      var r := TrimEnd(t);
      assert s[..|r|] == t[..|r|];
      assert s[|r|..] == t[|r|..] + [s[|s| - 1]];
      r
    else
      assert s[|s|..] == [];
      s
  }

  /** Removes leading whitespace. */
  function TrimStart(s: string): (r: string)
    ensures |r| <= |s| && r == s[|s| - |r|..]
    ensures AllWhite(s[..|s| - |r|])
    ensures r == [] || !IsWhite(r[0])
  {
    if |s| > 0 && IsWhite(s[0]) then
      var r := TrimStart(s[1..]);
      WhiteBefore(s, s[1..], r);
      r
    else
      assert s[..0] == [];
      s
  }

  /** A whitespace character in front of what `TrimStart` cut from `s[1..]`. */
  lemma WhiteBefore(s: string, t: string, r: string)
    requires |s| > 0 && IsWhite(s[0]) && t == s[1..]
    requires |r| <= |t| && r == t[|t| - |r|..] && AllWhite(t[..|t| - |r|])
    ensures r == s[|s| - |r|..] && AllWhite(s[..|s| - |r|])
  {
    assert s[..|s| - |r|] == [s[0]] + t[..|t| - |r|];
  }

  /** `String.Trim`: `s` without its leading and trailing whitespace. */
  function Trim(s: string): (r: string)
    ensures NoOuterWhite(r)
  {
    var e := TrimEnd(s);
    var r := TrimStart(e);
    assert r != [] ==> r[|r| - 1] == e[|e| - 1];
    r
  }

  /**
   * What `Trim` keeps is a contiguous middle of `s`, starting at `i`, and
   * only whitespace is cut on either side.
   */
  lemma TrimMiddle(s: string) returns (i: nat)
    ensures var r := Trim(s);
            && i + |r| <= |s| && s[i..i + |r|] == r
            && AllWhite(s[..i]) && AllWhite(s[i + |r|..])
  {
    var e := TrimEnd(s);
    var r := TrimStart(e);
    i := |e| - |r|;
    MiddleOf(s, e, r);
  }

  lemma MiddleOf(s: string, e: string, r: string)
    requires |e| <= |s| && e == s[..|e|] && AllWhite(s[|e|..])
    requires |r| <= |e| && r == e[|e| - |r|..] && AllWhite(e[..|e| - |r|])
    ensures var i := |e| - |r|;
            s[i..i + |r|] == r && AllWhite(s[..i]) && AllWhite(s[i + |r|..])
  {
    SliceOfPrefix(s, e, r);
  }

  lemma SliceOfPrefix(s: string, e: string, r: string)
    requires |e| <= |s| && e == s[..|e|]
    requires |r| <= |e| && r == e[|e| - |r|..]
    ensures s[|e| - |r|..|e|] == r
    ensures s[..|e| - |r|] == e[..|e| - |r|]
  {
  }

  lemma PrefixSplit(x: string, p: string)
    requires |p| <= |x| && p == x[..|p|]
    ensures x == p + x[|p|..]
  {
  }

  /** Appending whitespace does not change what `TrimEnd` keeps. */
  lemma {:induction false} TrimEndAppendWhite(x: string, w: string)
    requires AllWhite(w)
    ensures TrimEnd(x + w) == TrimEnd(x)
    decreases |w|
  {
    if w != [] {
      var xw := x + w;
      assert IsWhite(xw[|xw| - 1]);
      assert xw[..|xw| - 1] == x + w[..|w| - 1];
      TrimEndAppendWhite(x, w[..|w| - 1]);
    } else {
      assert x + w == x;
    }
  }

  /** A string without trailing whitespace is its own `TrimEnd`. */
  lemma TrimEndKeeps(x: string)
    requires x == [] || !IsWhite(x[|x| - 1])
    ensures TrimEnd(x) == x
  {
  }

  lemma TrimOfTrimmed(s: string)
    requires NoOuterWhite(s)
    ensures TrimEnd(s) == s && Trim(s) == s
  {
    assert TrimEnd(s) == s;
  }

  lemma TrimEndIdempotent(x: string)
    ensures TrimEnd(TrimEnd(x)) == TrimEnd(x)
  {
    TrimEndKeeps(TrimEnd(x));
  }

  /** Trimming the end first does not change what `Trim` keeps. */
  lemma TrimAfterTrimEnd(x: string)
    ensures Trim(TrimEnd(x)) == Trim(x)
  {
    TrimEndIdempotent(x);
  }

  /** A leading space in front of an already trimmed non-empty string is all `Trim` removes. */
  lemma TrimLeadingSpace(x: string)
    requires x != [] && NoOuterWhite(x)
    ensures Trim([' '] + x) == x
  {
    var sx := [' '] + x;
    assert sx[|sx| - 1] == x[|x| - 1];
    TrimEndKeeps(sx);
    assert sx[1..] == x;
    assert TrimStart(sx) == TrimStart(x);
  }

  lemma {:induction false} TrimEndLower(s: string)
    ensures TrimEnd(Lower(s)) == Lower(TrimEnd(s))
    decreases |s|
  {
    if |s| > 0 {
      LowerCharClasses(s[|s| - 1]);
      if IsWhite(s[|s| - 1]) {
        LowerSlice(s, 0, |s| - 1);
        TrimEndLower(s[..|s| - 1]);
      }
    }
  }

  lemma {:induction false} TrimStartLower(s: string)
    ensures TrimStart(Lower(s)) == Lower(TrimStart(s))
    decreases |s|
  {
    var ls := Lower(s);
    if |s| > 0 {
      LowerCharClasses(s[0]);
      assert ls[0] == LowerChar(s[0]);
      if IsWhite(s[0]) {
        assert ls[1..] == Lower(s[1..]);
        TrimStartLower(s[1..]);
        TrimStartBothWhite(s, ls);
      } else {
        TrimStartKeep(ls);
        TrimStartKeep(s);
      }
    }
  }

  /** Two strings that both start with whitespace trim to what their tails trim to. */
  lemma TrimStartBothWhite(s: string, t: string)
    requires |s| > 0 && IsWhite(s[0]) && |t| > 0 && IsWhite(t[0])
    ensures TrimStart(s) == TrimStart(s[1..]) && TrimStart(t) == TrimStart(t[1..])
  {
  }

  lemma TrimStartKeep(t: string)
    requires t == [] || !IsWhite(t[0])
    ensures TrimStart(t) == t
  {
  }

  lemma TrimLower(s: string)
    ensures Trim(Lower(s)) == Lower(Trim(s))
  {
    TrimEndLower(s);
    TrimStartLower(TrimEnd(s));
  }

  // ---------------------------------------------------------------------
  // Decimal digits (`int.Parse` on a digit run, and `{n}` formatting)
  // ---------------------------------------------------------------------

  function DigitValue(c: char): nat
    requires IsDigit(c)
  {
    c as int - '0' as int
  }

  function DigitChar(d: nat): char
    requires d < 10
  {
    ('0' as int + d) as char
  }

  /** The value of a run of decimal digits, leading zeros allowed. */
  function ParseDigits(s: string): nat
    requires AllDigits(s)
  {
    if s == [] then 0 else ParseDigits(s[..|s| - 1]) * 10 + DigitValue(s[|s| - 1])
  }

  /** Leading zeros do not change the value read, as `int.Parse("007")` is 7. */
  lemma {:induction false} ParseDigitsLeadingZero(s: string)
    requires AllDigits(s)
    ensures AllDigits("0" + s) && ParseDigits("0" + s) == ParseDigits(s)
    decreases |s|
  {
    var zs := "0" + s;
    if s != [] {
      var init := s[..|s| - 1];
      assert zs[..|zs| - 1] == "0" + init;
      ParseDigitsLeadingZero(init);
    } else {
      assert zs[..0] == [];
    }
  }

  /** Decimal text of `n`: a non-empty digit run without leading zeros that reads back as `n`. */
  function ShowNat(n: nat): (r: string)
    ensures |r| > 0 && AllDigits(r)
    ensures ParseDigits(r) == n
    ensures r[0] == '0' ==> n == 0
  {
    if n < 10 then [DigitChar(n)]
    else
      var r := ShowNat(n / 10) + [DigitChar(n % 10)];
      assert r[..|r| - 1] == ShowNat(n / 10);
      r
  }

  /** Distinct versions are written differently. */
  lemma ShowNatInjective(m: nat, n: nat)
    requires ShowNat(m) == ShowNat(n)
    ensures m == n
  {
  }
}
