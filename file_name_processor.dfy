/**
 * `FileNameProcessor.ProcessNames`: resolves a batch of incoming names one
 * after the other. Every resolved name is appended both to the result and
 * to the running list of taken names, so later names are checked against
 * the originals and against every earlier result.
 */
module FileNameProcessor {
  import opened Text
  import opened FileNames

  /**
   * The result of processing `incoming` against `originals`: the last name
   * is resolved against the originals followed by the results for the names
   * before it.
   */
  function ProcessAll(originals: seq<string>, incoming: seq<string>): (out: seq<string>)
    ensures |out| == |incoming|
    decreases |incoming|
  {
    if incoming == [] then []
    else
      var prev := ProcessAll(originals, incoming[..|incoming| - 1]);
      prev + [NextName(Parse(incoming[|incoming| - 1]), originals + prev)]
  }

  /** The list `ProcessNames` returns; `originalNames` is copied, never changed. */
  method ProcessNames(originalNames: seq<string>, newNames: seq<string>) returns (result: seq<string>)
    ensures result == ProcessAll(originalNames, newNames)
  {
    var allNames := originalNames;
    result := [];
    for i := 0 to |newNames|
      invariant result == ProcessAll(originalNames, newNames[..i])
      invariant allNames == originalNames + result
    {
      var fileName := new FileName(newNames[i]);
      fileName.AssignNextVersion(allNames);
      ProcessAllStep(originalNames, newNames, i, fileName.FinalName);
      AppendAssoc(originalNames, result, fileName.FinalName);
      result := result + [fileName.FinalName];
      allNames := allNames + [fileName.FinalName];
    }
    assert newNames[..|newNames|] == newNames;
  }

  /** One more incoming name adds one result, resolved against everything before it. */
  lemma ProcessAllSnoc(originals: seq<string>, incoming: seq<string>, name: string)
    ensures ProcessAll(originals, incoming + [name]) ==
            ProcessAll(originals, incoming) + [NextName(Parse(name), originals + ProcessAll(originals, incoming))]
  {
    assert (incoming + [name])[..|incoming|] == incoming;
  }

  /** `ProcessAllSnoc` with the earlier results and the new result named. */
  lemma ProcessAllSnocAt(originals: seq<string>, incoming: seq<string>, name: string,
                         prev: seq<string>, r: string)
    requires ProcessAll(originals, incoming) == prev
    requires NextName(Parse(name), originals + prev) == r
    ensures ProcessAll(originals, incoming + [name]) == prev + [r]
  {
    ProcessAllSnoc(originals, incoming, name);
  }

  /** The loop's step: the result for one more incoming name. */
  lemma ProcessAllStep(originals: seq<string>, incoming: seq<string>, i: nat, r: string)
    requires i < |incoming|
    requires r == NextName(Parse(incoming[i]), originals + ProcessAll(originals, incoming[..i]))
    ensures ProcessAll(originals, incoming[..i + 1]) == ProcessAll(originals, incoming[..i]) + [r]
  {
    TakeOneMore(incoming, i);
    ProcessAllSnoc(originals, incoming[..i], incoming[i]);
  }

  lemma TakeOneMore(s: seq<string>, i: nat)
    requires i < |s|
    ensures s[..i + 1] == s[..i] + [s[i]]
  {
  }

  lemma AppendAssoc(a: seq<string>, b: seq<string>, x: string)
    ensures a + b + [x] == a + (b + [x])
  {
  }

  // ---------------------------------------------------------------------
  // Properties of a processing run
  // ---------------------------------------------------------------------

  /** Processing a prefix of the batch gives the same prefix of the result. */
  lemma {:induction false} ProcessAllPrefix(originals: seq<string>, incoming: seq<string>, k: nat)
    requires k <= |incoming|
    ensures ProcessAll(originals, incoming[..k]) == ProcessAll(originals, incoming)[..k]
    decreases |incoming|
  {
    if k < |incoming| {
      var init := incoming[..|incoming| - 1];
      assert init[..k] == incoming[..k];
      ProcessAllPrefix(originals, init, k);
    } else {
      assert incoming[..k] == incoming;
    }
  }

  /**
   * Result `i` is what `AssignNextVersion` gives incoming name `i` against
   * the originals followed by the results before it.
   */
  lemma ProcessAllAt(originals: seq<string>, incoming: seq<string>, i: nat)
    requires i < |incoming|
    ensures var out := ProcessAll(originals, incoming);
            out[i] == NextName(Parse(incoming[i]), originals + out[..i])
  {
    var out := ProcessAll(originals, incoming);
    var upto := incoming[..i + 1];
    ProcessAllPrefix(originals, incoming, i + 1);
    ProcessAllPrefix(originals, incoming, i);
    assert upto[..i] == incoming[..i];
    assert out[..i + 1][i] == out[i] && out[..i + 1][..i] == out[..i];
  }

  /**
   * Every result differs, ignoring case, from every original name and from
   * every earlier result.
   */
  lemma ProcessedNoCollision(originals: seq<string>, incoming: seq<string>, i: nat)
    requires i < |incoming|
    ensures var out := ProcessAll(originals, incoming);
            forall n :: n in originals + out[..i] ==> !EqualsIgnoreCase(out[i], n)
  {
    var out := ProcessAll(originals, incoming);
    ProcessAllAt(originals, incoming, i);
    forall n | n in originals + out[..i]
      ensures !EqualsIgnoreCase(out[i], n)
    {
      assert Lower(n) in Taken(originals + out[..i]);
    }
  }

  /** No two results are equal ignoring case. */
  lemma ProcessedDistinct(originals: seq<string>, incoming: seq<string>, i: nat, j: nat)
    requires i < j < |incoming|
    ensures var out := ProcessAll(originals, incoming);
            !EqualsIgnoreCase(out[i], out[j])
  {
    var out := ProcessAll(originals, incoming);
    ProcessedNoCollision(originals, incoming, j);
    assert out[i] in originals + out[..j];
  }

  /** A name that is still free when its turn comes is kept, trimmed. */
  lemma ProcessedKeepsFreeName(originals: seq<string>, incoming: seq<string>, i: nat)
    requires i < |incoming|
    requires var out := ProcessAll(originals, incoming);
             forall n :: n in originals + out[..i] ==> !EqualsIgnoreCase(n, Trim(incoming[i]))
    ensures ProcessAll(originals, incoming)[i] == Trim(incoming[i])
  {
    var out := ProcessAll(originals, incoming);
    ProcessAllAt(originals, incoming, i);
    FirstUseKeepsName(Parse(incoming[i]), originals + out[..i]);
  }
}
