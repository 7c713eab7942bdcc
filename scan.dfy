/** The two ways the scrapers pick one value out of candidates met in
    document order: a loop that overwrites on every match keeps the LAST
    match, a loop that stops at its first match keeps the FIRST. */
module Scan {
  import opened Wrappers

  /** The last element of xs that satisfies p. */
  function LastWith<T>(xs: seq<T>, p: T -> bool): Option<T> {
    if xs == [] then None
    else if p(xs[|xs| - 1]) then Some(xs[|xs| - 1])
    else LastWith(xs[..|xs| - 1], p)
  }

  /** The first element of xs that satisfies p. */
  function FirstWith<T>(xs: seq<T>, p: T -> bool): Option<T> {
    if xs == [] then None
    else if p(xs[0]) then Some(xs[0])
    else FirstWith(xs[1..], p)
  }

  /** LastWith finds nothing exactly when nothing matches; otherwise it finds
      a match that no later candidate matches after. */
  lemma {:induction false} LastWithMeaning<T>(xs: seq<T>, p: T -> bool)
    ensures LastWith(xs, p).None? <==> forall i :: 0 <= i < |xs| ==> !p(xs[i])
    ensures LastWith(xs, p).Some? ==>
      exists i :: 0 <= i < |xs| && xs[i] == LastWith(xs, p).value && p(xs[i]) && forall j :: i < j < |xs| ==> !p(xs[j])
    decreases |xs|
  {
    if xs != [] && !p(xs[|xs| - 1]) {
      var init := xs[..|xs| - 1];
      LastWithMeaning(init, p);
      if LastWith(init, p).Some? {
        var i :| 0 <= i < |init| && init[i] == LastWith(init, p).value && p(init[i]) && forall j :: i < j < |init| ==> !p(init[j]);
        assert xs[i] == init[i];
      }
    }
  }

  /** FirstWith finds nothing exactly when nothing matches; otherwise it finds
      a match that no earlier candidate matches before. */
  lemma {:induction false} FirstWithMeaning<T>(xs: seq<T>, p: T -> bool)
    ensures FirstWith(xs, p).None? <==> forall i :: 0 <= i < |xs| ==> !p(xs[i])
    ensures FirstWith(xs, p).Some? ==>
      exists i :: 0 <= i < |xs| && xs[i] == FirstWith(xs, p).value && p(xs[i]) && forall j :: 0 <= j < i ==> !p(xs[j])
    decreases |xs|
  {
    if xs != [] && !p(xs[0]) {
      var rest := xs[1..];
      FirstWithMeaning(rest, p);
      if FirstWith(rest, p).Some? {
        var i :| 0 <= i < |rest| && rest[i] == FirstWith(rest, p).value && p(rest[i]) && forall j :: 0 <= j < i ==> !p(rest[j]);
        assert xs[i + 1] == rest[i];
      }
    }
  }

  /** Where the match LastWith finds stands, given a match at i: at i or
      later, with no match after it. */
  lemma LastWithFrom<T>(xs: seq<T>, p: T -> bool, i: nat) returns (k: nat)
    requires i < |xs| && p(xs[i])
    ensures i <= k < |xs| && p(xs[k]) && LastWith(xs, p) == Some(xs[k])
    ensures forall j :: k < j < |xs| ==> !p(xs[j])
  {
    LastWithMeaning(xs, p);
    k :| 0 <= k < |xs| && xs[k] == LastWith(xs, p).value && p(xs[k]) && forall j :: k < j < |xs| ==> !p(xs[j]);
  }

  /** Where the match LastWith finds stands: no match after it. */
  lemma LastWithAt<T>(xs: seq<T>, p: T -> bool) returns (k: nat)
    requires LastWith(xs, p).Some?
    ensures k < |xs| && p(xs[k]) && LastWith(xs, p) == Some(xs[k])
    ensures forall j :: k < j < |xs| ==> !p(xs[j])
  {
    LastWithMeaning(xs, p);
    k :| 0 <= k < |xs| && xs[k] == LastWith(xs, p).value && p(xs[k]) && forall j :: k < j < |xs| ==> !p(xs[j]);
  }

  /** Where the match FirstWith finds stands: no match before it. */
  lemma FirstWithAt<T>(xs: seq<T>, p: T -> bool) returns (k: nat)
    requires FirstWith(xs, p).Some?
    ensures k < |xs| && p(xs[k]) && FirstWith(xs, p) == Some(xs[k])
    ensures forall j :: 0 <= j < k ==> !p(xs[j])
  {
    FirstWithMeaning(xs, p);
    k :| 0 <= k < |xs| && xs[k] == FirstWith(xs, p).value && p(xs[k]) && forall j :: 0 <= j < k ==> !p(xs[j]);
  }

  /** One more candidate: a match replaces the answer, anything else keeps it. */
  lemma LastWithSnoc<T>(xs: seq<T>, x: T, p: T -> bool)
    ensures LastWith(xs + [x], p) == if p(x) then Some(x) else LastWith(xs, p)
  {
    assert (xs + [x])[..|xs|] == xs;
  }

  /** The step of a loop over c that runs after the candidates a. */
  lemma LastWithStep<T>(a: seq<T>, c: seq<T>, j: nat, p: T -> bool)
    requires j < |c|
    ensures LastWith(a + c[..j + 1], p) == if p(c[j]) then Some(c[j]) else LastWith(a + c[..j], p)
  {
    assert a + c[..j + 1] == (a + c[..j]) + [c[j]];
    LastWithSnoc(a + c[..j], c[j], p);
  }

  /** The step of a loop over xs. */
  lemma LastWithPrefix<T>(xs: seq<T>, j: nat, p: T -> bool)
    requires j < |xs|
    ensures LastWith(xs[..j + 1], p) == if p(xs[j]) then Some(xs[j]) else LastWith(xs[..j], p)
  {
    assert xs[..j + 1] == xs[..j] + [xs[j]];
    LastWithSnoc(xs[..j], xs[j], p);
  }

  /** Candidates after the last match do not matter when none of them match. */
  lemma {:induction false} LastWithAppend<T>(a: seq<T>, b: seq<T>, p: T -> bool)
    ensures LastWith(a + b, p) == if LastWith(b, p).Some? then LastWith(b, p) else LastWith(a, p)
    decreases |b|
  {
    if b != [] {
      var b' := b[..|b| - 1];
      assert a + b == (a + b') + [b[|b| - 1]];
      assert b == b' + [b[|b| - 1]];
      LastWithSnoc(a + b', b[|b| - 1], p);
      LastWithSnoc(b', b[|b| - 1], p);
      LastWithAppend(a, b', p);
    } else {
      assert a + b == a;
    }
  }

  /** A scan that has skipped the first k candidates without a match. */
  lemma FirstWithSkip<T>(xs: seq<T>, k: nat, p: T -> bool)
    requires k < |xs| && !p(xs[k])
    ensures FirstWith(xs[k..], p) == FirstWith(xs[k + 1..], p)
  {
    assert xs[k..][1..] == xs[k + 1..];
  }

  /** A candidate that does not match can be dropped from anywhere. */
  lemma LastWithSkip<T>(before: seq<T>, x: T, after: seq<T>, p: T -> bool)
    requires !p(x)
    ensures LastWith(before + [x] + after, p) == LastWith(before + after, p)
  {
    LastWithAppend(before + [x], after, p);
    LastWithAppend(before, after, p);
    LastWithSnoc(before, x, p);
  }
}
