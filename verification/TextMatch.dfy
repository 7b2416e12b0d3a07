/** Substring search over captured bytes: the plain search, and the incremental matcher that refines it. */
module TextMatch {
  import opened Common

  predicate OccursAt(bytes: Bytes, needle: Bytes, at: int) {
    0 <= at <= |bytes| - |needle| && bytes[at..at + |needle|] == needle
  }

  predicate Contains(bytes: Bytes, needle: Bytes) {
    needle == [] || exists at | 0 <= at <= |bytes| - |needle| :: OccursAt(bytes, needle, at)
  }

  predicate ContainsAll(bytes: Bytes, needles: seq<Bytes>) {
    forall i | 0 <= i < |needles| :: Contains(bytes, needles[i])
  }

  predicate ContainsAny(bytes: Bytes, needles: seq<Bytes>) {
    exists i | 0 <= i < |needles| :: Contains(bytes, needles[i])
  }

  /** Index of the first needle, in command-line order, that does not occur. */
  function FirstMissing(bytes: Bytes, needles: seq<Bytes>, from: nat := 0): (r: Option<nat>)
    requires from <= |needles|
    ensures r.None? ==> forall i | from <= i < |needles| :: Contains(bytes, needles[i])
    ensures r.Some? ==> from <= r.value < |needles| && !Contains(bytes, needles[r.value])
                        && forall i | from <= i < r.value :: Contains(bytes, needles[i])
    decreases |needles| - from
  {
    if from == |needles| then None
    else if Contains(bytes, needles[from]) then FirstMissing(bytes, needles, from + 1)
    else Some(from)
  }

  /** Index of the first needle, in command-line order, that does occur. */
  function FirstPresent(bytes: Bytes, needles: seq<Bytes>, from: nat := 0): (r: Option<nat>)
    requires from <= |needles|
    ensures r.None? ==> forall i | from <= i < |needles| :: !Contains(bytes, needles[i])
    ensures r.Some? ==> from <= r.value < |needles| && Contains(bytes, needles[r.value])
                        && forall i | from <= i < r.value :: !Contains(bytes, needles[i])
    decreases |needles| - from
  {
    if from == |needles| then None
    else if Contains(bytes, needles[from]) then Some(from)
    else FirstPresent(bytes, needles, from + 1)
  }

  lemma ContainsExtends(bytes: Bytes, longer: Bytes, needle: Bytes)
    requires bytes <= longer
    ensures Contains(bytes, needle) ==> Contains(longer, needle)
  {
    if needle != [] && Contains(bytes, needle) {
      var at :| 0 <= at <= |bytes| - |needle| && OccursAt(bytes, needle, at);
      assert longer[at..at + |needle|] == bytes[at..at + |needle|];
      assert OccursAt(longer, needle, at);
    }
  }

  lemma ContainsAllExtends(bytes: Bytes, longer: Bytes, needles: seq<Bytes>)
    requires bytes <= longer
    ensures ContainsAll(bytes, needles) ==> ContainsAll(longer, needles)
    ensures ContainsAny(bytes, needles) ==> ContainsAny(longer, needles)
  {
    forall i | 0 <= i < |needles|
      ensures Contains(bytes, needles[i]) ==> Contains(longer, needles[i])
    {
      ContainsExtends(bytes, longer, needles[i]);
    }
  }

  lemma ContainsAppended(bytes: Bytes, needle: Bytes)
    ensures Contains(bytes + needle, needle)
  {
    assert OccursAt(bytes + needle, needle, |bytes|);
  }

  /** Where the matcher starts looking: `|needle| - 1` bytes before the newly appended ones. */
  function OverlapStart(previousLen: nat, needle: Bytes): (start: nat)
    ensures start <= previousLen
  {
    Max(0, previousLen - Max(0, |needle| - 1))
  }

  lemma OccursInSuffix(haystack: Bytes, start: nat, needle: Bytes, at: nat)
    requires start <= at <= |haystack| - |needle|
    ensures OccursAt(haystack[start..], needle, at - start) <==> OccursAt(haystack, needle, at)
  {
    assert haystack[start..][at - start..at - start + |needle|] == haystack[at..at + |needle|];
  }

  /** The overlap window loses nothing: a needle absent before the append occurs
      somewhere in the whole buffer exactly when it occurs in the window. */
  lemma OverlapIsEnough(haystack: Bytes, previousLen: nat, needle: Bytes)
    requires previousLen <= |haystack|
    requires !Contains(haystack[..previousLen], needle)
    ensures Contains(haystack[OverlapStart(previousLen, needle)..], needle) <==> Contains(haystack, needle)
  {
    var start := OverlapStart(previousLen, needle);
    var window := haystack[start..];
    if Contains(haystack, needle) {
      var at :| 0 <= at <= |haystack| - |needle| && OccursAt(haystack, needle, at);
      if at < start {
        assert haystack[..previousLen][at..at + |needle|] == haystack[at..at + |needle|];
        assert OccursAt(haystack[..previousLen], needle, at);
        assert false;
      }
      OccursInSuffix(haystack, start, needle, at);
    }
    if Contains(window, needle) {
      var at :| 0 <= at <= |window| - |needle| && OccursAt(window, needle, at);
      OccursInSuffix(haystack, start, needle, at + start);
    }
  }

  function CountTrue(flags: seq<bool>): (count: nat)
    ensures count <= |flags|
  {
    if flags == [] then 0 else CountTrue(flags[..|flags| - 1]) + if flags[|flags| - 1] then 1 else 0
  }

  lemma {:induction false} CountTrueExtremes(flags: seq<bool>)
    ensures CountTrue(flags) == |flags| <==> forall i | 0 <= i < |flags| :: flags[i]
    ensures CountTrue(flags) > 0 <==> exists i | 0 <= i < |flags| :: flags[i]
  {
    if flags != [] {
      var front := flags[..|flags| - 1];
      CountTrueExtremes(front);
      assert forall i | 0 <= i < |front| :: front[i] == flags[i];
    }
  }

  lemma {:induction false} CountTrueAfterSetting(flags: seq<bool>, k: nat)
    requires k < |flags| && !flags[k]
    ensures CountTrue(flags[k := true]) == CountTrue(flags) + 1
  {
    var updated := flags[k := true];
    var last := |flags| - 1;
    if k == last {
      assert updated[..last] == flags[..last];
    } else {
      assert updated[..last] == flags[..last][k := true];
      CountTrueAfterSetting(flags[..last], k);
    }
  }

  class TextMatcher {
    const needles: seq<Bytes>
    var matched: seq<bool>
    var matchedCount: nat

    /** The matcher's flags are the answers of a plain search of `buffer`. */
    ghost predicate Tracks(buffer: Bytes)
      reads this
    {
      && |matched| == |needles|
      && (forall i | 0 <= i < |needles| :: matched[i] <==> Contains(buffer, needles[i]))
      && matchedCount == CountTrue(matched)
    }

    constructor (needles: seq<Bytes>)
      ensures this.needles == needles
      ensures Tracks([])
    {
      this.needles := needles;
      this.matched := [];
      this.matchedCount := 0;
      new;
      var i := 0;
      while i < |needles|
        invariant 0 <= i <= |needles| && this.needles == needles
        invariant |matched| == i && matchedCount == CountTrue(matched)
        invariant forall j | 0 <= j < i :: matched[j] <==> Contains([], needles[j])
      {
        var isEmpty := needles[i] == [];
        assert (matched + [isEmpty])[..i] == matched;
        matched := matched + [isEmpty];
        matchedCount := matchedCount + if isEmpty then 1 else 0;
        i := i + 1;
      }
    }

    /** Looks only at an overlap window, yet ends with the answers of a search of the whole haystack. */
    method ObserveAppended(haystack: Bytes, previousLen: nat)
      requires Tracks(First(haystack, previousLen))
      modifies this
      ensures Tracks(haystack)
    {
      var bounded := Min(previousLen, |haystack|);
      ghost var seen := First(haystack, previousLen);
      assert seen == haystack[..bounded];
      var i := 0;
      while i < |needles|
        invariant 0 <= i <= |needles| == |matched|
        invariant forall j | 0 <= j < i :: matched[j] <==> Contains(haystack, needles[j])
        invariant forall j | i <= j < |needles| :: matched[j] <==> Contains(seen, needles[j])
        invariant matchedCount == CountTrue(matched)
      {
        var needle := needles[i];
        if matched[i] {
          ContainsExtends(seen, haystack, needle);
        } else {
          OverlapIsEnough(haystack, bounded, needle);
          if Contains(haystack[OverlapStart(bounded, needle)..], needle) {
            CountTrueAfterSetting(matched, i);
            matched := matched[i := true];
            matchedCount := matchedCount + 1;
          }
        }
        i := i + 1;
      }
    }

    method AllMatched(ghost buffer: Bytes) returns (all: bool)
      requires Tracks(buffer)
      ensures all <==> ContainsAll(buffer, needles)
    {
      CountTrueExtremes(matched);
      all := matchedCount == |needles|;
    }

    method AnyMatched(ghost buffer: Bytes) returns (any: bool)
      requires Tracks(buffer)
      ensures any <==> ContainsAny(buffer, needles)
    {
      CountTrueExtremes(matched);
      any := matchedCount > 0;
    }
  }
}
