/**
 * `FileName`: a name split into its base and optional `(vN)` version, and
 * the choice of a final name that does not collide, ignoring case, with the
 * names already taken.
 *
 * Taken names are compared in lowercase, as a set. When the trimmed name is
 * free it is kept as it is. Otherwise the search starts from the larger of
 * the name's own version and the highest version already used by a taken
 * name with the same base (ignoring case), and moves up one version at a
 * time until `"{base} (v{n})"` is free.
 */
module FileNames {
  import opened Text
  import opened VersionMarker

  /** The three fields the `FileName` constructor computes from its argument. */
  datatype ParsedName = ParsedName(original: string, baseName: string, version: Option<nat>)

  /**
   * The `FileName` constructor as a function: trim the name, then split off
   * a trailing version marker if the pattern matches.
   */
  function Parse(raw: string): (p: ParsedName)
    ensures NoOuterWhite(p.original) && NoOuterWhite(p.baseName)
    ensures p.version.None? ==> p.baseName == p.original
    ensures p.version.Some? ==> |p.baseName| < |p.original|
  {
    var original := Trim(raw);
    match Match(original)
    case Some(g) => ParsedName(original, Trim(g.prefix), Some(ParseDigits(g.digits)))
    case None => ParsedName(original, original, None)
  }

  /** The name proposed for version `n`: `"{baseName} (v{n})"`. */
  function Candidate(baseName: string, n: nat): string {
    baseName + " (v" + ShowNat(n) + ")"
  }

  /** The lowercased set of taken names (the `HashSet` built from `existingNames`). */
  function Taken(names: seq<string>): set<string> {
    set n | n in names :: Lower(n)
  }

  /** The elements of that set as a sequence, in the order of `names`. */
  function LowerAll(names: seq<string>): seq<string> {
    seq(|names|, i requires 0 <= i < |names| => Lower(names[i]))
  }

  /**
   * The version a taken name contributes to the search for `baseName`: its
   * marker's number when it has one and its base equals `baseName` ignoring
   * case.
   */
  function VersionFor(name: string, baseName: string): Option<nat> {
    GroupsVersion(Match(name), baseName)
  }

  /** The version a match result contributes for `baseName`. */
  function GroupsVersion(m: Option<Groups>, baseName: string): Option<nat>
    requires m.Some? ==> AllDigits(m.value.digits)
  {
    match m
    case Some(g) =>
      if EqualsIgnoreCase(Trim(g.prefix), baseName) then Some(ParseDigits(g.digits)) else None
    case None => None
  }

  /** The version each of `names` contributes for `baseName`, in order. */
  function Versions(names: seq<string>, baseName: string): seq<Option<nat>> {
    seq(|names|, i requires 0 <= i < |names| => VersionFor(names[i], baseName))
  }

  /** The largest of the versions present, or 0 when none is (`DefaultIfEmpty(0).Max()`). */
  function MaxVersion(vs: seq<Option<nat>>): (r: nat)
    ensures forall i :: 0 <= i < |vs| && vs[i].Some? ==> vs[i].value <= r
    ensures r == 0 || exists i :: 0 <= i < |vs| && vs[i] == Some(r)
  {
    if vs == [] then 0
    else
      var rest := MaxVersion(vs[1..]);
      assert forall i :: 1 <= i < |vs| ==> vs[i] == vs[1..][i - 1];
      match vs[0]
      case Some(v) => if v > rest then v else rest
      case None => rest
  }

  /** The highest version any of `names` contributes for `baseName`, or 0 if none does. */
  function HighestVersion(names: seq<string>, baseName: string): nat {
    MaxVersion(Versions(names, baseName))
  }

  /**
   * The highest version is at least every version a name contributes for
   * `baseName`, and is one of them, or 0 when none contributes.
   */
  lemma HighestVersionIsMax(names: seq<string>, baseName: string)
    ensures var r := HighestVersion(names, baseName);
            && (forall i :: 0 <= i < |names| && VersionFor(names[i], baseName).Some? ==>
                  VersionFor(names[i], baseName).value <= r)
            && (r == 0 || exists i :: 0 <= i < |names| && VersionFor(names[i], baseName) == Some(r))
  {
    var vs := Versions(names, baseName);
    forall i | 0 <= i < |names| ensures vs[i] == VersionFor(names[i], baseName) {}
  }

  /**
   * The first version from `k` on whose candidate is not taken. Each taken
   * candidate is dropped from `taken` before moving on, which bounds the
   * search by the size of the set.
   */
  function FirstFree(taken: set<string>, baseName: string, k: nat): (r: nat)
    ensures k <= r <= k + |taken|
    ensures Lower(Candidate(baseName, r)) !in taken
    ensures forall j :: k <= j < r ==> Lower(Candidate(baseName, j)) in taken
    decreases taken
  {
    var c := Lower(Candidate(baseName, k));
    if c !in taken then k
    else
      var r := FirstFree(taken - {c}, baseName, k + 1);
      CandidatesDistinct(baseName, k, r);
      r
  }

  function Max(a: nat, b: nat): nat {
    if a < b then b else a
  }

  /** `max(Version ?? 0, highestVersion)`: the search starts just above this. */
  function StartVersion(p: ParsedName, existing: seq<string>): nat {
    Max(if p.version.Some? then p.version.value else 0, HighestVersion(LowerAll(existing), p.baseName))
  }

  /** The version chosen when the name collides. */
  function ChosenVersion(p: ParsedName, existing: seq<string>): nat {
    FirstFree(Taken(existing), p.baseName, StartVersion(p, existing) + 1)
  }

  /** The final name `AssignNextVersion` gives `p` against the names `existing`. */
  function NextName(p: ParsedName, existing: seq<string>): (r: string)
    ensures Lower(r) !in Taken(existing)
    ensures r == p.original <==> Lower(p.original) !in Taken(existing)
  {
    if Lower(p.original) !in Taken(existing) then p.original
    else Candidate(p.baseName, ChosenVersion(p, existing))
  }

  /** A file name: its parsed parts, fixed at construction, and the final name chosen for it. */
  class FileName {
    const OriginalName: string
    const BaseName: string
    const Version: Option<nat>
    var FinalName: string

    function Parsed(): ParsedName {
      ParsedName(OriginalName, BaseName, Version)
    }

    constructor (name: string)
      ensures Parsed() == Parse(name)
      ensures FinalName == OriginalName
    {
      var original := Trim(name);
      OriginalName := original;
      var m := Match(original);
      if m.Some? {
        BaseName := Trim(m.value.prefix);
        Version := Some(ParseDigits(m.value.digits));
      } else {
        BaseName := original;
        Version := None;
      }
      new;
      FinalName := OriginalName;
    }

    /** Sets `FinalName` to a name that no entry of `existingNames` equals, ignoring case. */
    method AssignNextVersion(existingNames: seq<string>)
      modifies this
      ensures FinalName == NextName(Parsed(), existingNames)
    {
      var existing := Taken(existingNames);
      var currentVersion: nat := if Version.Some? then Version.value else 0;
      var candidate := OriginalName;

      if Lower(candidate) !in existing {
        FinalName := candidate;
        return;
      }

      var highestVersion := HighestVersion(LowerAll(existingNames), BaseName);
      currentVersion := Max(currentVersion, highestVersion);

      ghost var start := currentVersion;
      // The do-while loop: its body runs once before the first test.
      currentVersion := currentVersion + 1;
      candidate := Candidate(BaseName, currentVersion);
      // `rest` is `existing` less the candidates already found taken.
      ghost var rest := existing;
      while Lower(candidate) in existing
        invariant candidate == Candidate(BaseName, currentVersion)
        invariant AgreeFrom(rest, existing, BaseName, currentVersion)
        invariant FirstFree(rest, BaseName, currentVersion) == FirstFree(existing, BaseName, start + 1)
        decreases rest
      {
        FirstFreeSkip(rest, existing, BaseName, currentVersion);
        rest := rest - {Lower(candidate)};
        currentVersion := currentVersion + 1;
        candidate := Candidate(BaseName, currentVersion);
      }
      FirstFreeStop(rest, existing, BaseName, currentVersion);
      FinalName := candidate;
    }
  }

  /** From version `k` on, a candidate is in `rest` exactly when it is in `existing`. */
  ghost predicate AgreeFrom(rest: set<string>, existing: set<string>, baseName: string, k: nat) {
    forall j: nat :: j >= k ==>
      (Lower(Candidate(baseName, j)) in rest <==> Lower(Candidate(baseName, j)) in existing)
  }

  /** One turn of the search loop: a taken candidate is skipped. */
  lemma FirstFreeSkip(rest: set<string>, existing: set<string>, baseName: string, k: nat)
    requires AgreeFrom(rest, existing, baseName, k)
    requires Lower(Candidate(baseName, k)) in existing
    ensures Lower(Candidate(baseName, k)) in rest
    ensures var c := Lower(Candidate(baseName, k));
            && AgreeFrom(rest - {c}, existing, baseName, k + 1)
            && FirstFree(rest - {c}, baseName, k + 1) == FirstFree(rest, baseName, k)
  {
    var c := Lower(Candidate(baseName, k));
    forall j: nat | j >= k + 1
      ensures Lower(Candidate(baseName, j)) != c
    {
      CandidatesDistinct(baseName, j, k);
    }
  }

  /** The loop stops at the first free candidate. */
  lemma FirstFreeStop(rest: set<string>, existing: set<string>, baseName: string, k: nat)
    requires AgreeFrom(rest, existing, baseName, k)
    requires Lower(Candidate(baseName, k)) !in existing
    ensures FirstFree(rest, baseName, k) == k
  {
  }

  // ---------------------------------------------------------------------
  // Candidates
  // ---------------------------------------------------------------------

  lemma CandidateLower(baseName: string, n: nat)
    ensures Lower(Candidate(baseName, n)) == Candidate(Lower(baseName), n)
  {
    var ds := ShowNat(n);
    LowerDigits(ds);
    LowerAppend(baseName, " (v");
    LowerAppend(baseName + " (v", ds);
    LowerAppend(baseName + " (v" + ds, ")");
  }

  /** Candidates for distinct versions differ even after lowercasing. */
  lemma CandidatesDistinct(baseName: string, j: nat, k: nat)
    requires j != k
    ensures Lower(Candidate(baseName, j)) != Lower(Candidate(baseName, k))
  {
    CandidateLower(baseName, j);
    CandidateLower(baseName, k);
    var p := Lower(baseName) + " (v";
    var x, y := Candidate(Lower(baseName), j), Candidate(Lower(baseName), k);
    assert x == p + ShowNat(j) + ")" && y == p + ShowNat(k) + ")";
    assert x[|p|..|x| - 1] == ShowNat(j) && y[|p|..|y| - 1] == ShowNat(k);
  }

  /** A candidate is matched by the version pattern, with its base and number as the groups. */
  lemma MatchCandidate(baseName: string, n: nat)
    requires '\n' !in baseName
    ensures Match(Candidate(baseName, n)) == Some(Groups(TrimEnd(baseName), ShowNat(n)))
  {
    var m := Marker(baseName, " ", "", 'v', "", ShowNat(n), "", "");
    assert Render(m) == Candidate(baseName, n);
    MatchComplete(m);
  }

  /** A candidate contributes its own version for its base. */
  lemma VersionForCandidate(baseName: string, n: nat)
    requires NoOuterWhite(baseName) && '\n' !in baseName
    ensures VersionFor(Candidate(baseName, n), baseName) == Some(n)
  {
    TrimOfTrimmed(baseName);
    MatchCandidate(baseName, n);
  }

  /** A candidate built from a trimmed base parses back to that base and version. */
  lemma ParseCandidate(baseName: string, n: nat)
    requires NoOuterWhite(baseName) && '\n' !in baseName
    ensures Parse(Candidate(baseName, n)).baseName == baseName
    ensures Parse(Candidate(baseName, n)).version == Some(n)
  {
    TrimOfTrimmed(baseName);
    if baseName == [] {
      TrimEmptyCandidate(n);
      MatchBareMarker(ShowNat(n));
      ParseMatched(Candidate(baseName, n), Groups([], ShowNat(n)));
    } else {
      TrimOfTrimmed(Candidate(baseName, n));
      MatchCandidate(baseName, n);
      ParseMatched(Candidate(baseName, n), Groups(baseName, ShowNat(n)));
    }
  }

  /** With an empty base, trimming drops the separating space. */
  lemma TrimEmptyCandidate(n: nat)
    ensures Trim(Candidate([], n)) == "(v" + ShowNat(n) + ")"
  {
    var inner := "(v" + ShowNat(n) + ")";
    assert Candidate([], n) == [' '] + inner;
    TrimLeadingSpace(inner);
  }

  /** A bare marker matches with an empty group 1. */
  lemma MatchBareMarker(ds: string)
    requires ds != [] && AllDigits(ds)
    ensures Match("(v" + ds + ")") == Some(Groups([], ds))
  {
    var m := Marker([], [], [], 'v', [], ds, [], []);
    assert Render(m) == "(v" + ds + ")";
    MatchComplete(m);
  }

  /** `Parse` on a name whose trimmed form matches the pattern with groups `g`. */
  lemma ParseMatched(raw: string, g: Groups)
    requires Match(Trim(raw)) == Some(g)
    ensures Parse(raw) == ParsedName(Trim(raw), Trim(g.prefix), Some(ParseDigits(g.digits)))
  {
  }

  // ---------------------------------------------------------------------
  // Parsing follows the grammar of the version marker
  // ---------------------------------------------------------------------

  /**
   * When the trimmed name is a string of the marker grammar, the base is the
   * trimmed prefix and the version the digit run; when it is not, the base
   * is the whole trimmed name and there is no version.
   */
  lemma ParseGrammar(raw: string)
    ensures forall m :: WellFormed(m) && Render(m) == Trim(raw) ==>
              Parse(raw) == ParsedName(Trim(raw), Trim(m.pre), Some(ParseDigits(m.ds)))
    ensures (forall m :: WellFormed(m) ==> Render(m) != Trim(raw)) ==>
              Parse(raw) == ParsedName(Trim(raw), Trim(raw), None)
  {
    var o := Trim(raw);
    forall m | WellFormed(m) && Render(m) == o
      ensures Parse(raw) == ParsedName(o, Trim(m.pre), Some(ParseDigits(m.ds)))
    {
      MatchComplete(m);
      TrimAfterTrimEnd(m.pre);
    }
    if Match(o).Some? {
      MatchSound(o);
    }
  }

  // ---------------------------------------------------------------------
  // Highest existing version
  // ---------------------------------------------------------------------

  lemma VersionForLower(name: string, baseName: string)
    ensures VersionFor(Lower(name), baseName) == VersionFor(name, baseName)
  {
    MatchLower(name);
    GroupsVersionLower(Match(name), baseName);
  }

  /** Lowercasing group 1 does not change the version it contributes. */
  lemma GroupsVersionLower(m: Option<Groups>, baseName: string)
    requires m.Some? ==> AllDigits(m.value.digits)
    ensures GroupsVersion(MapLower(m), baseName) == GroupsVersion(m, baseName)
  {
    if m.Some? {
      TrimLower(m.value.prefix);
      LowerIdempotent(Trim(m.value.prefix));
    }
  }

  /**
   * Scanning the lowercased names gives the same highest version as scanning
   * the names as given: lowercasing changes only the case of the base, and
   * bases are compared ignoring case.
   */
  lemma HighestVersionLowered(names: seq<string>, baseName: string)
    ensures HighestVersion(LowerAll(names), baseName) == HighestVersion(names, baseName)
  {
    var lowered := LowerAll(names);
    forall i | 0 <= i < |names|
      ensures VersionFor(lowered[i], baseName) == VersionFor(names[i], baseName)
    {
      VersionForLower(names[i], baseName);
    }
    assert Versions(lowered, baseName) == Versions(names, baseName);
  }

  /**
   * Only the lowercased taken names matter: two lists that agree once
   * lowercased give every name the same final name.
   */
  lemma CaseOfTakenIrrelevant(p: ParsedName, e1: seq<string>, e2: seq<string>)
    requires LowerAll(e1) == LowerAll(e2)
    ensures NextName(p, e1) == NextName(p, e2)
  {
    TakenSub(e1, e2);
    TakenSub(e2, e1);
    assert Taken(e1) == Taken(e2);
    assert StartVersion(p, e1) == StartVersion(p, e2);
    assert ChosenVersion(p, e1) == ChosenVersion(p, e2);
  }

  lemma TakenSub(e1: seq<string>, e2: seq<string>)
    requires LowerAll(e1) == LowerAll(e2)
    ensures Taken(e1) <= Taken(e2)
  {
    forall x | x in Taken(e1) ensures x in Taken(e2) {
      var i :| 0 <= i < |e1| && Lower(e1[i]) == x;
      assert LowerAll(e2)[i] == x;
      assert e2[i] in e2;
    }
  }

  /** The lowercased set has no more elements than the names it was built from. */
  lemma {:induction false} TakenSize(names: seq<string>)
    ensures |Taken(names)| <= |names|
    decreases |names|
  {
    if names != [] {
      var init := names[..|names| - 1];
      assert Taken(names) == Taken(init) + {Lower(names[|names| - 1])} by {
        assert names == init + [names[|names| - 1]];
      }
      TakenSize(init);
    }
  }

  // ---------------------------------------------------------------------
  // What AssignNextVersion promises
  // ---------------------------------------------------------------------

  /** A name that is free, ignoring case, is kept exactly as trimmed. */
  lemma FirstUseKeepsName(p: ParsedName, existing: seq<string>)
    requires forall n :: n in existing ==> !EqualsIgnoreCase(n, p.original)
    ensures NextName(p, existing) == p.original
  {
    assert Lower(p.original) !in Taken(existing);
  }

  /** The final name differs, ignoring case, from every existing name. */
  lemma NoCollision(p: ParsedName, existing: seq<string>, i: nat)
    requires i < |existing|
    ensures !EqualsIgnoreCase(NextName(p, existing), existing[i])
  {
    assert Lower(existing[i]) in Taken(existing);
  }

  /**
   * On a collision the final name is `"{BaseName} (v{k})"`, where `k` is the
   * smallest number above `max(Version ?? 0, highest existing version of the
   * base)` whose candidate is free, and at most `|existing| + 1` numbers are
   * tried.
   */
  lemma CollisionChoosesSmallestFree(p: ParsedName, existing: seq<string>)
    requires Lower(p.original) in Taken(existing)
    ensures var start := Max(if p.version.Some? then p.version.value else 0,
                             HighestVersion(existing, p.baseName));
            var k := ChosenVersion(p, existing);
            && NextName(p, existing) == Candidate(p.baseName, k)
            && start < k <= start + 1 + |existing|
            && Lower(Candidate(p.baseName, k)) !in Taken(existing)
            && forall j :: start < j < k ==> Lower(Candidate(p.baseName, j)) in Taken(existing)
  {
    HighestVersionLowered(existing, p.baseName);
    TakenSize(existing);
  }

  /** Adding a name to the taken list never lowers the highest version found. */
  lemma HighestVersionGrows(names: seq<string>, name: string, baseName: string)
    ensures HighestVersion(names + [name], baseName) >= HighestVersion(names, baseName)
  {
    VersionsSnoc(names, name, baseName);
    MaxVersionGrows(Versions(names, baseName), VersionFor(name, baseName));
  }

  lemma VersionsSnoc(names: seq<string>, name: string, baseName: string)
    ensures Versions(names + [name], baseName) == Versions(names, baseName) + [VersionFor(name, baseName)]
  {
    var all := names + [name];
    forall i | 0 <= i < |names| ensures all[i] == names[i] {}
  }

  lemma MaxVersionGrows(vs: seq<Option<nat>>, v: Option<nat>)
    ensures MaxVersion(vs + [v]) >= MaxVersion(vs)
  {
    var r := MaxVersion(vs);
    if r != 0 {
      var i :| 0 <= i < |vs| && vs[i] == Some(r);
      assert (vs + [v])[i] == Some(r);
    }
  }

  /**
   * Resolving the same name again, once its first result has been added to
   * the taken names, picks a strictly higher version.
   */
  lemma RepeatGetsHigherVersion(p: ParsedName, existing: seq<string>)
    requires Lower(p.original) in Taken(existing)
    ensures var later := existing + [NextName(p, existing)];
            && Lower(p.original) in Taken(later)
            && NextName(p, later) == Candidate(p.baseName, ChosenVersion(p, later))
            && ChosenVersion(p, later) > ChosenVersion(p, existing)
  {
    var q := NextName(p, existing);
    var later := existing + [q];
    assert q == Candidate(p.baseName, ChosenVersion(p, existing));
    TakenGrows(existing, q);
    StartVersionGrows(p, existing, q);
    ChosenPassed(p, existing, later);
  }

  lemma ChosenPassed(p: ParsedName, existing: seq<string>, later: seq<string>)
    requires Taken(existing) <= Taken(later)
    requires StartVersion(p, existing) <= StartVersion(p, later)
    requires Lower(Candidate(p.baseName, ChosenVersion(p, existing))) in Taken(later)
    ensures ChosenVersion(p, later) > ChosenVersion(p, existing)
  {
    FirstFreePassed(Taken(existing), Taken(later), p.baseName,
                    StartVersion(p, existing), StartVersion(p, later));
  }

  lemma TakenGrows(names: seq<string>, name: string)
    ensures Taken(names) <= Taken(names + [name]) && Lower(name) in Taken(names + [name])
  {
    assert name == (names + [name])[|names|];
  }

  lemma StartVersionGrows(p: ParsedName, existing: seq<string>, name: string)
    ensures StartVersion(p, existing + [name]) >= StartVersion(p, existing)
  {
    LowerAllSnoc(existing, name);
    HighestVersionGrows(LowerAll(existing), Lower(name), p.baseName);
  }

  lemma LowerAllSnoc(names: seq<string>, name: string)
    ensures LowerAll(names + [name]) == LowerAll(names) + [Lower(name)]
  {
    var all := names + [name];
    forall i | 0 <= i < |names| ensures all[i] == names[i] {}
  }

  /**
   * Once the version found from `s1` is taken in a larger set, a search from
   * any `s2 >= s1` in that set ends beyond it.
   */
  lemma FirstFreePassed(t1: set<string>, t2: set<string>, baseName: string, s1: nat, s2: nat)
    requires t1 <= t2 && s1 <= s2
    requires Lower(Candidate(baseName, FirstFree(t1, baseName, s1 + 1))) in t2
    ensures FirstFree(t2, baseName, s2 + 1) > FirstFree(t1, baseName, s1 + 1)
  {
    var k1 := FirstFree(t1, baseName, s1 + 1);
    assert forall j :: s1 < j <= k1 ==> Lower(Candidate(baseName, j)) in t2;
  }
}
