/**
 * Whole runs of `ProcessNames`: the same unversioned name resolved over and
 * over, and worked cases for `"Report"`, `"Draft"` and `"Notes"`.
 */
module Scenarios {
  import opened Text
  import opened VersionMarker
  import opened FileNames
  import opened FileNameProcessor

  /** A trimmed name on one line without a version marker. */
  predicate Unversioned(x: string) {
    NoOuterWhite(x) && '\n' !in x && Match(x) == None
  }

  /** `k` copies of `x`. */
  function Repeat(x: string, k: nat): seq<string> {
    seq(k, j requires 0 <= j < k => x)
  }

  /** `x`, then `"{x} (v1)"` up to `"{x} (v{k-1})"`. */
  function Versioned(x: string, k: nat): seq<string> {
    seq(k, j requires 0 <= j < k => if j == 0 then x else Candidate(x, j))
  }

  lemma ParseUnversioned(x: string)
    requires Unversioned(x)
    ensures Parse(x) == ParsedName(x, x, None)
  {
    TrimOfTrimmed(x);
  }

  /** Which version each entry of `Versioned(x, k)` contributes for base `x`. */
  lemma VersionsOfVersioned(x: string, k: nat)
    requires Unversioned(x)
    ensures forall j :: 0 <= j < k ==>
              Versions(Versioned(x, k), x)[j] == if j == 0 then None else Some(j)
  {
    forall j | 1 <= j < k
      ensures VersionFor(Candidate(x, j), x) == Some(j)
    {
      VersionForCandidate(x, j);
    }
  }

  /** The highest version among `Versioned(x, k)` is `k - 1`. */
  lemma HighestOfVersioned(x: string, k: nat)
    requires Unversioned(x) && k >= 1
    ensures HighestVersion(LowerAll(Versioned(x, k)), x) == k - 1
  {
    var v := Versioned(x, k);
    HighestVersionLowered(v, x);
    VersionsOfVersioned(x, k);
    MaxOfCountUp(Versions(v, x), k);
  }

  /** The highest of none, then 1 up to `k - 1`, is `k - 1`. */
  lemma MaxOfCountUp(vs: seq<Option<nat>>, k: nat)
    requires |vs| == k >= 1
    requires forall j :: 0 <= j < k ==> vs[j] == if j == 0 then None else Some(j)
    ensures MaxVersion(vs) == k - 1
  {
    if k >= 2 {
      assert vs[k - 1] == Some(k - 1);
    }
  }

  /** No name of `Versioned(x, k)` equals the candidate for `k`, ignoring case. */
  lemma NextCandidateFree(x: string, k: nat)
    requires Unversioned(x) && k >= 1
    ensures Lower(Candidate(x, k)) !in Taken(Versioned(x, k))
  {
    var v := Versioned(x, k);
    forall j | 0 <= j < k
      ensures Lower(v[j]) != Lower(Candidate(x, k))
    {
      if j == 0 {
        UnversionedNotCandidate(x, k);
      } else {
        CandidatesDistinct(x, j, k);
      }
    }
  }

  /** An unversioned name is not any of its own candidates, even ignoring case. */
  lemma UnversionedNotCandidate(x: string, k: nat)
    requires Unversioned(x)
    ensures Lower(x) != Lower(Candidate(x, k))
  {
    var c := Candidate(x, k);
    MatchLower(x);
    MatchCandidate(x, k);
    MatchLower(c);
    assert Match(Lower(x)) == None && Match(Lower(c)).Some?;
  }

  /**
   * An unversioned name resolved against itself and its first `k - 1`
   * versions gets version `k`; against nothing it is kept.
   */
  lemma ResolveAgainstVersioned(x: string, k: nat)
    requires Unversioned(x)
    ensures NextName(Parse(x), Versioned(x, k)) == if k == 0 then x else Candidate(x, k)
  {
    ParseUnversioned(x);
    ResolveParsed(Parse(x), x, k);
  }

  lemma ResolveParsed(p: ParsedName, x: string, k: nat)
    requires Unversioned(x) && p == ParsedName(x, x, None)
    ensures NextName(p, Versioned(x, k)) == if k == 0 then x else Candidate(x, k)
  {
    var v := Versioned(x, k);
    if k >= 1 {
      assert Lower(x) in Taken(v) by {
        assert v[0] == x;
      }
      HighestOfVersioned(x, k);
      assert StartVersion(p, v) == k - 1;
      NextCandidateFree(x, k);
    } else {
      assert Taken(v) == {};
    }
  }

  /**
   * Processing `k` copies of an unversioned name with no original names
   * gives the name itself, then its versions 1 to `k - 1` in order.
   */
  lemma {:induction false} RepeatUnversioned(x: string, k: nat)
    requires Unversioned(x)
    ensures ProcessAll([], Repeat(x, k)) == Versioned(x, k)
  {
    if k > 0 {
      RepeatUnversioned(x, k - 1);
      RepeatStep(x, k - 1);
    }
  }

  /** One more copy of `x` adds the next version to the results. */
  lemma RepeatStep(x: string, k: nat)
    requires Unversioned(x)
    requires ProcessAll([], Repeat(x, k)) == Versioned(x, k)
    ensures ProcessAll([], Repeat(x, k + 1)) == Versioned(x, k + 1)
  {
    var r := if k == 0 then x else Candidate(x, k);
    ResolveAgainstVersioned(x, k);
    VersionedSnoc(x, k);
    ProcessAllSnocAt([], Repeat(x, k), x, Versioned(x, k), r);
    RepeatSnoc(x, k);
  }

  lemma RepeatSnoc(x: string, k: nat)
    ensures Repeat(x, k + 1) == Repeat(x, k) + [x]
  {
  }

  lemma VersionedSnoc(x: string, k: nat)
    ensures [] + Versioned(x, k) == Versioned(x, k)
    ensures Versioned(x, k + 1) == Versioned(x, k) + [if k == 0 then x else Candidate(x, k)]
  {
  }

  // ---------------------------------------------------------------------
  // Worked cases
  // ---------------------------------------------------------------------

  /** A batch of one name is resolved against the original names alone. */
  lemma ProcessOne(originals: seq<string>, name: string)
    ensures ProcessAll(originals, [name]) == [NextName(Parse(name), originals)]
  {
    ProcessAllSnoc(originals, [], name);
    assert [] + [name] == [name] && originals + [] == originals;
  }

  lemma PlainNames()
    ensures Unversioned("Draft") && Unversioned("Report")
  {
  }

  /** No original names and `"Draft"` three times: the name, then versions 1 and 2. */
  lemma DraftThreeTimes()
    ensures ProcessAll([], Repeat("Draft", 3)) == Versioned("Draft", 3)
  {
    PlainNames();
    RepeatUnversioned("Draft", 3);
  }

  lemma DraftLists()
    ensures Repeat("Draft", 3) == ["Draft", "Draft", "Draft"]
    ensures Versioned("Draft", 3) == ["Draft", "Draft (v1)", "Draft (v2)"]
  {
    assert ShowNat(1) == "1" && ShowNat(2) == "2";
    var v := Versioned("Draft", 3);
    assert v[1] == Candidate("Draft", 1) == "Draft (v1)";
    assert v[2] == Candidate("Draft", 2) == "Draft (v2)";
  }

  /** `"Report"` against `["Report"]` becomes `"Report (v1)"`. */
  lemma ReportTakenOnce()
    ensures NextName(Parse("Report"), Versioned("Report", 1)) == Candidate("Report", 1)
  {
    PlainNames();
    ResolveAgainstVersioned("Report", 1);
  }

  /** `"Report"` against `["Report", "Report (v1)"]` becomes `"Report (v2)"`. */
  lemma ReportTakenTwice()
    ensures NextName(Parse("Report"), Versioned("Report", 2)) == Candidate("Report", 2)
  {
    PlainNames();
    ResolveAgainstVersioned("Report", 2);
  }

  /** `"Report"` against `["REPORT"]` also becomes `"Report (v1)"`: case is ignored. */
  lemma ReportTakenUpperCase()
    ensures NextName(Parse("Report"), ["REPORT"]) == Candidate("Report", 1)
  {
    ReportTakenOnce();
    UpperReportLowered();
    CaseOfTakenIrrelevant(Parse("Report"), ["REPORT"], Versioned("Report", 1));
  }

  lemma UpperReportLowered()
    ensures LowerAll(["REPORT"]) == LowerAll(Versioned("Report", 1))
  {
    assert Versioned("Report", 1) == ["Report"];
    assert Lower("REPORT") == "report" == Lower("Report");
  }

  lemma ReportLists()
    ensures Versioned("Report", 1) == ["Report"]
    ensures Versioned("Report", 2) == ["Report", "Report (v1)"]
    ensures Candidate("Report", 1) == "Report (v1)" && Candidate("Report", 2) == "Report (v2)"
  {
    assert ShowNat(1) == "1" && ShowNat(2) == "2";
    assert Versioned("Report", 2)[1] == Candidate("Report", 1) == "Report (v1)";
  }

  /** A trimmed, non-empty base on one line: its candidates are already trimmed. */
  predicate PlainBase(b: string) {
    b != [] && NoOuterWhite(b) && '\n' !in b
  }

  lemma ParseOwnCandidate(b: string, n: nat)
    requires PlainBase(b)
    ensures Parse(Candidate(b, n)) == ParsedName(Candidate(b, n), b, Some(n))
  {
    var c := Candidate(b, n);
    assert c[0] == b[0] && c[|c| - 1] == ')';
    TrimOfTrimmed(c);
    ParseCandidate(b, n);
  }

  /**
   * A versioned name is kept when only another version of its base is
   * taken: a clash is an equal name, not an equal base.
   */
  lemma OtherVersionKept(b: string, n: nat, m: nat)
    requires PlainBase(b) && n != m
    ensures NextName(Parse(Candidate(b, n)), [Candidate(b, m)]) == Candidate(b, n)
  {
    ParseOwnCandidate(b, n);
    KeptAgainstOther(Parse(Candidate(b, n)), b, n, m);
  }

  lemma KeptAgainstOther(p: ParsedName, b: string, n: nat, m: nat)
    requires PlainBase(b) && n != m && p == ParsedName(Candidate(b, n), b, Some(n))
    ensures NextName(p, [Candidate(b, m)]) == Candidate(b, n)
  {
    CandidatesDistinct(b, n, m);
    assert Lower(Candidate(b, n)) !in Taken([Candidate(b, m)]);
  }

  /**
   * A versioned name that is taken, next to a higher version of its base,
   * gets the version just above the higher one.
   */
  lemma HigherVersionWins(b: string, n: nat, m: nat)
    requires PlainBase(b) && n < m
    ensures NextName(Parse(Candidate(b, n)), [Candidate(b, m), Candidate(b, n)]) == Candidate(b, m + 1)
  {
    ParseOwnCandidate(b, n);
    AboveHigherVersion(Parse(Candidate(b, n)), b, n, m);
  }

  lemma AboveHigherVersion(p: ParsedName, b: string, n: nat, m: nat)
    requires PlainBase(b) && n < m && p == ParsedName(Candidate(b, n), b, Some(n))
    ensures NextName(p, [Candidate(b, m), Candidate(b, n)]) == Candidate(b, m + 1)
  {
    var existing := [Candidate(b, m), Candidate(b, n)];
    assert Lower(p.original) in Taken(existing) by {
      assert existing[1] == Candidate(b, n);
    }
    HighestOfTwo(b, n, m);
    assert StartVersion(p, existing) == m;
    NextFreeAboveTwo(b, n, m);
    assert ChosenVersion(p, existing) == m + 1;
  }

  lemma NextFreeAboveTwo(b: string, n: nat, m: nat)
    requires n < m
    ensures Lower(Candidate(b, m + 1)) !in Taken([Candidate(b, m), Candidate(b, n)])
  {
    var existing := [Candidate(b, m), Candidate(b, n)];
    forall j | 0 <= j < 2
      ensures Lower(existing[j]) != Lower(Candidate(b, m + 1))
    {
      CandidatesDistinct(b, if j == 0 then m else n, m + 1);
    }
  }

  lemma HighestOfTwo(b: string, n: nat, m: nat)
    requires PlainBase(b) && n < m
    ensures HighestVersion(LowerAll([Candidate(b, m), Candidate(b, n)]), b) == m
  {
    var existing := [Candidate(b, m), Candidate(b, n)];
    HighestVersionLowered(existing, b);
    VersionForCandidate(b, m);
    VersionForCandidate(b, n);
    var vs := Versions(existing, b);
    assert |vs| == 2 && vs[0] == Some(m) && vs[1] == Some(n);
  }

  /** `"Notes (v2)"` against `["Notes (v5)"]` is kept. */
  lemma NotesFree()
    ensures NextName(Parse(Candidate("Notes", 2)), [Candidate("Notes", 5)]) == Candidate("Notes", 2)
  {
    OtherVersionKept("Notes", 2, 5);
  }

  /** `"Notes (v2)"` against `["Notes (v5)", "Notes (v2)"]` becomes `"Notes (v6)"`. */
  lemma NotesTaken()
    ensures NextName(Parse(Candidate("Notes", 2)), [Candidate("Notes", 5), Candidate("Notes", 2)])
            == Candidate("Notes", 6)
  {
    HigherVersionWins("Notes", 2, 5);
  }

  lemma NotesLists()
    ensures Candidate("Notes", 2) == "Notes (v2)"
    ensures Candidate("Notes", 5) == "Notes (v5)"
    ensures Candidate("Notes", 6) == "Notes (v6)"
  {
    assert ShowNat(2) == "2" && ShowNat(5) == "5" && ShowNat(6) == "6";
  }
}
