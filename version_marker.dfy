/**
 * The trailing version marker of a file name, ` (vN)`, as recognised by the
 * case-insensitive pattern `^(.*?)\s*\(\s*v\s*(\d+)\s*\)\s*$`.
 *
 * `Match` reads the name from right to left: optional whitespace, `)`,
 * optional whitespace, a digit run, optional whitespace, `v` or `V`,
 * optional whitespace, `(`. Because every piece after the prefix is drawn
 * from its own character class, the pattern can match in only one way, and
 * the lazy prefix (group 1) is the text before that `(` without its trailing
 * whitespace. The pattern's `.` does not match a line feed, so a prefix that
 * contains one makes the whole match fail.
 *
 * `Marker`, `Render` and `WellFormed` state the same grammar left to right as
 * a concatenation of pieces; `MatchComplete` and `MatchSound` prove that the
 * matcher accepts exactly the strings of that grammar.
 */
module VersionMarker {
  import opened Text

  /** The two capture groups of a successful match. */
  datatype Groups = Groups(prefix: string, digits: string)

  /** Removes a trailing run of digits. */
  function DropDigitsEnd(s: string): (r: string)
    ensures |r| <= |s| && r == s[..|r|]
    ensures AllDigits(s[|r|..])
    ensures r == [] || !IsDigit(r[|r| - 1])
  {
    if |s| > 0 && IsDigit(s[|s| - 1]) then
      var t := s[..|s| - 1];
      var r := DropDigitsEnd(t);
      assert s[..|r|] == t[..|r|];
      assert s[|r|..] == t[|r|..] + [s[|s| - 1]];
      r
    else
      assert s[|s|..] == [];
      s
  }

  /**
   * One literal character of the pattern followed by `\s*`, read from the
   * right: skips trailing whitespace, then expects `c1` or `c2` (the two
   * cases of a letter under case-insensitive matching) and returns what
   * precedes it.
   */
  function StripChar(s: string, c1: char, c2: char): (r: Option<string>)
    ensures r.Some? ==> |r.value| < |s|
  {
    var t := TrimEnd(s);
    if |t| > 0 && (t[|t| - 1] == c1 || t[|t| - 1] == c2) then Some(t[..|t| - 1]) else None
  }

  /** `(\d+)\s*` read from the right: the text before the digit run, and the run. */
  function DigitRun(s: string): (r: Option<(string, string)>)
    ensures r.Some? ==> |r.value.1| > 0 && AllDigits(r.value.1)
  {
    var t := TrimEnd(s);
    var u := DropDigitsEnd(t);
    if |u| < |t| then Some((u, t[|u|..])) else None
  }

  /** The version pattern applied to `s`: the capture groups, or None when it does not match. */
  function Match(s: string): (m: Option<Groups>)
    ensures m.Some? ==> |m.value.digits| > 0 && AllDigits(m.value.digits)
    ensures m.Some? ==> '\n' !in m.value.prefix
    ensures m.Some? ==> m.value.prefix == [] || !IsWhite(m.value.prefix[|m.value.prefix| - 1])
  {
    match StripChar(s, ')', ')')
    case None => None
    case Some(a) => MatchDigits(a)
  }

  /** The rest of the pattern once `\)\s*$` has been read. */
  function MatchDigits(a: string): Option<Groups> {
    match DigitRun(a)
    case None => None
    case Some((b, ds)) => MatchLetter(b, ds)
  }

  /** The rest of the pattern once `(\d+)\s*\)\s*$` has been read. */
  function MatchLetter(b: string, ds: string): Option<Groups> {
    match StripChar(b, 'v', 'V')
    case None => None
    case Some(c) => MatchOpen(c, ds)
  }

  /** The rest of the pattern once `v\s*(\d+)\s*\)\s*$` has been read: `\(\s*` and the prefix. */
  function MatchOpen(c: string, ds: string): Option<Groups> {
    match StripChar(c, '(', '(')
    case None => None
    case Some(d) =>
      var g := TrimEnd(d);
      if '\n' in g then None else Some(Groups(g, ds))
  }

  // ---------------------------------------------------------------------
  // The steps of the matcher, piece by piece
  // ---------------------------------------------------------------------

  lemma StripCharAppend(x: string, c: char, w: string, c1: char, c2: char)
    requires c == c1 || c == c2
    requires !IsWhite(c) && AllWhite(w)
    ensures StripChar(x + [c] + w, c1, c2) == Some(x)
  {
    var xc := x + [c];
    TrimEndAppendWhite(xc, w);
    TrimEndKeeps(xc);
    assert xc[..|xc| - 1] == x;
  }

  lemma StripCharSplit(s: string, c1: char, c2: char)
    requires StripChar(s, c1, c2).Some?
    ensures var x := StripChar(s, c1, c2).value;
            && (s[|x|] == c1 || s[|x|] == c2)
            && s == x + [s[|x|]] + s[|x| + 1..]
            && AllWhite(s[|x| + 1..])
  {
    var t := TrimEnd(s);
    PrefixSplit(s, t);
    assert t == t[..|t| - 1] + [t[|t| - 1]];
  }

  lemma DigitRunAppend(x: string, ds: string, w: string)
    requires x == [] || !IsDigit(x[|x| - 1])
    requires |ds| > 0 && AllDigits(ds) && AllWhite(w)
    ensures DigitRun(x + ds + w) == Some((x, ds))
  {
    var xd := x + ds;
    TrimEndAppendWhite(xd, w);
    assert !IsWhite(xd[|xd| - 1]);
    TrimEndKeeps(xd);
    DropDigitsAppend(x, ds);
    assert xd[|x|..] == ds;
  }

  lemma DigitRunSplit(s: string)
    requires DigitRun(s).Some?
    ensures var (x, ds) := DigitRun(s).value;
            && (x == [] || !IsDigit(x[|x| - 1]))
            && s == x + ds + s[|x| + |ds|..]
            && AllWhite(s[|x| + |ds|..])
  {
    var t := TrimEnd(s);
    var u := DropDigitsEnd(t);
    PrefixSplit(s, t);
    PrefixSplit(t, u);
  }

  lemma {:induction false} DropDigitsAppend(x: string, ds: string)
    requires AllDigits(ds)
    requires x == [] || !IsDigit(x[|x| - 1])
    ensures DropDigitsEnd(x + ds) == x
    decreases |ds|
  {
    var xd := x + ds;
    if ds != [] {
      assert IsDigit(xd[|xd| - 1]);
      assert xd[..|xd| - 1] == x + ds[..|ds| - 1];
      DropDigitsAppend(x, ds[..|ds| - 1]);
    } else {
      assert xd == x;
    }
  }

  // ---------------------------------------------------------------------
  // The grammar, left to right
  // ---------------------------------------------------------------------

  /**
   * A name split into the pieces of the pattern: the prefix, whitespace,
   * `(`, whitespace, the letter `v`, whitespace, the digits, whitespace,
   * `)`, whitespace.
   */
  datatype Marker = Marker(pre: string, w1: string, w2: string, v: char, w3: string,
                           ds: string, w4: string, w5: string)

  predicate WellFormed(m: Marker) {
    && '\n' !in m.pre
    && AllWhite(m.w1) && AllWhite(m.w2) && AllWhite(m.w3) && AllWhite(m.w4) && AllWhite(m.w5)
    && (m.v == 'v' || m.v == 'V')
    && |m.ds| > 0 && AllDigits(m.ds)
  }

  function Render(m: Marker): string {
    m.pre + m.w1 + "(" + m.w2 + [m.v] + m.w3 + m.ds + m.w4 + ")" + m.w5
  }

  /** `Match` in terms of its four steps. */
  lemma MatchSteps(s: string, a: string, b: string, ds: string, c: string, d: string)
    requires StripChar(s, ')', ')') == Some(a)
    requires DigitRun(a) == Some((b, ds))
    requires StripChar(b, 'v', 'V') == Some(c)
    requires StripChar(c, '(', '(') == Some(d)
    requires '\n' !in TrimEnd(d)
    ensures Match(s) == Some(Groups(TrimEnd(d), ds))
  {
    assert MatchOpen(c, ds) == Some(Groups(TrimEnd(d), ds));
  }

  /** Every string of the grammar is matched, with the groups the grammar assigns. */
  lemma MatchComplete(m: Marker)
    requires WellFormed(m)
    ensures Match(Render(m)) == Some(Groups(TrimEnd(m.pre), m.ds))
  {
    var d := m.pre + m.w1;
    var c := d + "(" + m.w2;
    var b := c + [m.v] + m.w3;
    var a := b + m.ds + m.w4;
    assert Render(m) == a + [')'] + m.w5;
    StripCharAppend(a, ')', m.w5, ')', ')');
    EndsInLetterOrWhite(c, m.v, m.w3);
    DigitRunAppend(b, m.ds, m.w4);
    StripCharAppend(c, m.v, m.w3, 'v', 'V');
    assert c == d + ['('] + m.w2;
    StripCharAppend(d, '(', m.w2, '(', '(');
    TrimEndAppendWhite(m.pre, m.w1);
    TrimEndOneLine(m.pre);
    MatchSteps(Render(m), a, b, m.ds, c, d);
  }

  lemma EndsInLetterOrWhite(c: string, v: char, w: string)
    requires (v == 'v' || v == 'V') && AllWhite(w)
    ensures var b := c + [v] + w; !IsDigit(b[|b| - 1])
  {
    var b := c + [v] + w;
    if w != [] {
      assert b[|b| - 1] == w[|w| - 1];
    }
  }

  lemma TrimEndOneLine(s: string)
    requires '\n' !in s
    ensures '\n' !in TrimEnd(s)
  {
    var p := TrimEnd(s);
    forall k | 0 <= k < |p| ensures p[k] != '\n' {
      assert p[k] == s[k];
    }
  }

  /** Every matched string is a string of the grammar, split as the groups say. */
  lemma MatchSound(s: string)
    requires Match(s).Some?
    ensures exists m :: WellFormed(m) && Render(m) == s
                        && m.pre == Match(s).value.prefix && m.ds == Match(s).value.digits
  {
    var a := StripChar(s, ')', ')').value;
    StripCharSplit(s, ')', ')');
    assert MatchDigits(a).Some?;
    var (b, ds) := DigitRun(a).value;
    DigitRunSplit(a);
    assert MatchLetter(b, ds).Some?;
    var c := StripChar(b, 'v', 'V').value;
    StripCharSplit(b, 'v', 'V');
    assert MatchOpen(c, ds) == Match(s);
    var d := StripChar(c, '(', '(').value;
    StripCharSplit(c, '(', '(');
    var g := TrimEnd(d);
    PrefixSplit(d, g);
    var m := Reassemble(s, a, b, ds, c, d, g);
  }

  /** Puts the pieces found by the four steps back together as a grammar split. */
  lemma Reassemble(s: string, a: string, b: string, ds: string, c: string, d: string, g: string)
    returns (m: Marker)
    requires |a| < |s| && s[|a|] == ')' && s == a + [s[|a|]] + s[|a| + 1..] && AllWhite(s[|a| + 1..])
    requires (b == [] || !IsDigit(b[|b| - 1])) && |ds| > 0 && AllDigits(ds)
    requires |b| + |ds| <= |a| && a == b + ds + a[|b| + |ds|..] && AllWhite(a[|b| + |ds|..])
    requires |c| < |b| && (b[|c|] == 'v' || b[|c|] == 'V')
    requires b == c + [b[|c|]] + b[|c| + 1..] && AllWhite(b[|c| + 1..])
    requires |d| < |c| && c[|d|] == '(' && c == d + [c[|d|]] + c[|d| + 1..] && AllWhite(c[|d| + 1..])
    requires |g| <= |d| && d == g + d[|g|..] && AllWhite(d[|g|..]) && '\n' !in g
    ensures WellFormed(m) && Render(m) == s && m.pre == g && m.ds == ds
  {
    m := Marker(g, d[|g|..], c[|d| + 1..], b[|c|], b[|c| + 1..], ds, a[|b| + |ds|..], s[|a| + 1..]);
  }

  // ---------------------------------------------------------------------
  // Matching a lowercased name
  // ---------------------------------------------------------------------

  lemma {:induction false} DropDigitsEndLower(s: string)
    ensures DropDigitsEnd(Lower(s)) == Lower(DropDigitsEnd(s))
    decreases |s|
  {
    var ls := Lower(s);
    if |s| > 0 {
      LowerCharClasses(s[|s| - 1]);
      assert ls[|s| - 1] == LowerChar(s[|s| - 1]);
      if IsDigit(s[|s| - 1]) {
        assert DropDigitsEnd(ls) == DropDigitsEnd(ls[..|s| - 1]);
        assert DropDigitsEnd(s) == DropDigitsEnd(s[..|s| - 1]);
        assert ls[..|s| - 1] == Lower(s[..|s| - 1]);
        DropDigitsEndLower(s[..|s| - 1]);
      } else {
        assert DropDigitsEnd(ls) == ls;
      }
    }
  }

  lemma StripCharLower(s: string, c1: char, c2: char)
    requires (c1 == ')' && c2 == ')') || (c1 == 'v' && c2 == 'V') || (c1 == '(' && c2 == '(')
    ensures StripChar(Lower(s), c1, c2).Some? == StripChar(s, c1, c2).Some?
    ensures StripChar(s, c1, c2).Some? ==>
              StripChar(Lower(s), c1, c2) == Some(Lower(StripChar(s, c1, c2).value))
  {
    var t := TrimEnd(s);
    TrimEndLower(s);
    if |t| > 0 {
      LowerCharClasses(t[|t| - 1]);
      assert Lower(t)[|t| - 1] == LowerChar(t[|t| - 1]);
      LowerSlice(t, 0, |t| - 1);
    }
  }

  lemma DigitRunLower(s: string)
    ensures DigitRun(Lower(s)).Some? == DigitRun(s).Some?
    ensures DigitRun(s).Some? ==>
              DigitRun(Lower(s)) == Some((Lower(DigitRun(s).value.0), DigitRun(s).value.1))
  {
    var t := TrimEnd(s);
    TrimEndLower(s);
    var u := DropDigitsEnd(t);
    DropDigitsEndLower(t);
    LowerKeepsDigitTail(t, |u|);
  }

  lemma LowerKeepsDigitTail(t: string, n: nat)
    requires n <= |t| && AllDigits(t[n..])
    ensures Lower(t)[n..] == t[n..]
  {
    LowerSlice(t, n, |t|);
    LowerDigits(t[n..]);
  }

  lemma LowerNewline(g: string)
    ensures ('\n' in Lower(g)) == ('\n' in g)
  {
    if '\n' in g {
      var k :| 0 <= k < |g| && g[k] == '\n';
      assert Lower(g)[k] == '\n';
    }
    if '\n' in Lower(g) {
      var k :| 0 <= k < |g| && Lower(g)[k] == '\n';
      LowerCharClasses(g[k]);
    }
  }

  lemma MatchOpenLower(c: string, ds: string)
    ensures MatchOpen(Lower(c), ds).Some? == MatchOpen(c, ds).Some?
    ensures MatchOpen(c, ds).Some? ==>
              MatchOpen(Lower(c), ds) == Some(Groups(Lower(MatchOpen(c, ds).value.prefix), ds))
  {
    StripCharLower(c, '(', '(');
    if StripChar(c, '(', '(').Some? {
      var d := StripChar(c, '(', '(').value;
      TrimEndLower(d);
      LowerNewline(TrimEnd(d));
    }
  }

  lemma MatchLetterLower(b: string, ds: string)
    ensures MatchLetter(Lower(b), ds) == MapLower(MatchLetter(b, ds))
  {
    StripCharLower(b, 'v', 'V');
    if StripChar(b, 'v', 'V').Some? {
      MatchOpenLower(StripChar(b, 'v', 'V').value, ds);
    }
  }

  lemma MatchDigitsLower(a: string)
    ensures MatchDigits(Lower(a)) == MapLower(MatchDigits(a))
  {
    DigitRunLower(a);
    if DigitRun(a).Some? {
      var (b, ds) := DigitRun(a).value;
      MatchLetterLower(b, ds);
    }
  }

  /** The groups of a match with group 1 lowercased. */
  function MapLower(m: Option<Groups>): Option<Groups> {
    match m
    case None => None
    case Some(g) => Some(Groups(Lower(g.prefix), g.digits))
  }

  /**
   * Lowercasing a name before matching changes only the case of group 1:
   * the same names match, with the same digits.
   */
  lemma MatchLower(s: string)
    ensures Match(Lower(s)) == MapLower(Match(s))
  {
    StripCharLower(s, ')', ')');
    if StripChar(s, ')', ')').Some? {
      MatchDigitsLower(StripChar(s, ')', ')').value);
    }
  }
}
