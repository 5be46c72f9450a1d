// Extensions/CommonExtension: the font-size scaling rule used when drawing,
// and the label filter applied to detection lists.

module CommonExtension {
  import opened Common

  /** ImageConfig.SCALING_DENOMINATOR: the image width one scale step covers. */
  const ScalingDenominator: nat := 1280

  /**
   * CalculateDynamicSize: the scale factor is Width / 1280 in integer
   * division, the size is scale times that factor, and the result is never
   * smaller than scale.
   */
  function CalculateDynamicSize(width: nat, scale: real): (r: real)
    ensures r >= scale
    ensures r == scale || r == scale * (width / ScalingDenominator) as real
  {
    MaxReal(scale * (width / ScalingDenominator) as real, scale)
  }

  lemma ScaleByFactor(scale: real, k: nat)
    requires scale >= 0.0 && k >= 1
    ensures scale * k as real >= scale
  {
    var extra := k - 1;
    assert scale * k as real == scale + scale * extra as real;
  }

  /** For a non-negative scale the size is scale times max(1, Width / 1280). */
  lemma DynamicSizeSteps(width: nat, scale: real)
    requires scale >= 0.0
    ensures CalculateDynamicSize(width, scale) == scale * Max(1, width / ScalingDenominator) as real
  {
    var k := width / ScalingDenominator;
    if k >= 1 {
      ScaleByFactor(scale, k);
    }
  }

  /** Images narrower than two scale steps (2560 px) leave a non-negative scale unchanged. */
  lemma NarrowImageKeepsScale(width: nat, scale: real)
    requires scale >= 0.0 && width < 2 * ScalingDenominator
    ensures CalculateDynamicSize(width, scale) == scale
  {
    DynamicSizeSteps(width, scale);
  }

  /** A negative scale on an image narrower than 1280 px collapses to 0, the larger of 0 and scale. */
  lemma NegativeScaleOnSmallImage(width: nat, scale: real)
    requires scale < 0.0 && width < ScalingDenominator
    ensures CalculateDynamicSize(width, scale) == 0.0
  {
  }

  // ---------------------------------------------------------------------------
  // FilterLabels

  /**
   * The detections of `s` whose label is in `classes`, in input order.
   * `nameOf(d)` is the text the source compares: Label.Name, or
   * Label.ToString() when the name is null.
   */
  function Keep<T>(s: seq<T>, classes: set<string>, nameOf: T -> string): (r: seq<T>)
    ensures |r| <= |s|
  {
    if |s| == 0 then []
    else Keep(s[..|s| - 1], classes, nameOf) + (if nameOf(s[|s| - 1]) in classes then [s[|s| - 1]] else [])
  }

  /** Keeping distributes over concatenation: the filter never reorders. */
  lemma {:induction false} KeepConcat<T>(a: seq<T>, b: seq<T>, classes: set<string>, nameOf: T -> string)
    ensures Keep(a + b, classes, nameOf) == Keep(a, classes, nameOf) + Keep(b, classes, nameOf)
    decreases |b|
  {
    if |b| == 0 {
      assert a + b == a;
    } else {
      var last := b[|b| - 1];
      assert (a + b)[..|a + b| - 1] == a + b[..|b| - 1];
      KeepConcat(a, b[..|b| - 1], classes, nameOf);
    }
  }

  /** A single detection is kept exactly when its label is in the set. */
  lemma KeepOne<T>(x: T, classes: set<string>, nameOf: T -> string)
    ensures Keep([x], classes, nameOf) == (if nameOf(x) in classes then [x] else [])
  {
    assert [x][..0] == [];
  }

  /** A detection occurs in the output iff it occurs in the input and its label is in the set. */
  lemma {:induction false} KeepMembers<T>(s: seq<T>, classes: set<string>, nameOf: T -> string, x: T)
    ensures x in Keep(s, classes, nameOf) <==> x in s && nameOf(x) in classes
  {
    if |s| > 0 {
      KeepMembers(s[..|s| - 1], classes, nameOf, x);
      assert s == s[..|s| - 1] + [s[|s| - 1]];
    }
  }

  /** Each kept detection keeps all its occurrences; every other detection has none. */
  lemma {:induction false} KeepCounts<T>(s: seq<T>, classes: set<string>, nameOf: T -> string, x: T)
    ensures multiset(Keep(s, classes, nameOf))[x] == if nameOf(x) in classes then multiset(s)[x] else 0
  {
    if |s| > 0 {
      KeepCounts(s[..|s| - 1], classes, nameOf, x);
      assert s == s[..|s| - 1] + [s[|s| - 1]];
    }
  }

  /** `t` is an order-preserving subsequence of `s` (matched greedily from the end). */
  predicate Subsequence<T(==)>(t: seq<T>, s: seq<T>)
    decreases |s|
  {
    if |t| == 0 then true
    else if |s| == 0 then false
    else if t[|t| - 1] == s[|s| - 1] then Subsequence(t[..|t| - 1], s[..|s| - 1])
    else Subsequence(t, s[..|s| - 1])
  }

  lemma {:induction false} KeepIsSubsequence<T>(s: seq<T>, classes: set<string>, nameOf: T -> string)
    ensures Subsequence(Keep(s, classes, nameOf), s)
  {
    if |s| > 0 {
      var init := s[..|s| - 1];
      KeepIsSubsequence(init, classes, nameOf);
      if nameOf(s[|s| - 1]) in classes {
        var k := Keep(s, classes, nameOf);
        assert k[..|k| - 1] == Keep(init, classes, nameOf);
      } else {
        var k := Keep(init, classes, nameOf);
        assert Keep(s, classes, nameOf) == k;
        SubsequenceOfInit(k, init, s[|s| - 1]);
        assert init + [s[|s| - 1]] == s;
      }
    }
  }

  /** Appending to the longer sequence keeps a subsequence one. */
  lemma {:induction false} SubsequenceOfInit<T>(t: seq<T>, s: seq<T>, x: T)
    requires Subsequence(t, s)
    ensures Subsequence(t, s + [x])
    decreases |s|, 1
  {
    var sx := s + [x];
    assert sx[..|sx| - 1] == s;
    if |t| > 0 && t[|t| - 1] == x {
      SubsequenceDropLast(t, s);
    }
  }

  /** Dropping the last element of a subsequence keeps it a subsequence. */
  lemma {:induction false} SubsequenceDropLast<T>(t: seq<T>, s: seq<T>)
    requires |t| > 0 && Subsequence(t, s)
    ensures Subsequence(t[..|t| - 1], s)
    decreases |s|, 0
  {
    assert |s| > 0;
    var s' := s[..|s| - 1];
    if t[|t| - 1] == s[|s| - 1] {
      SubsequenceOfInit(t[..|t| - 1], s', s[|s| - 1]);
      assert s' + [s[|s| - 1]] == s;
    } else {
      SubsequenceDropLast(t, s');
      SubsequenceOfInit(t[..|t| - 1], s', s[|s| - 1]);
      assert s' + [s[|s| - 1]] == s;
    }
  }

  /**
   * FilterLabels: a null detection list or a null filter set throws
   * ArgumentNullException; otherwise the detections whose label is in the
   * set, in input order.
   */
  method FilterLabels<T>(result: Option<seq<T>>, filterClasses: Option<set<string>>, nameOf: T -> string)
    returns (r: Result<seq<T>>)
    ensures result.None? || filterClasses.None? <==> r == Err(ArgumentNull)
    ensures result.Some? && filterClasses.Some? ==> r == Ok(Keep(result.value, filterClasses.value, nameOf))
  {
    if result.None? || filterClasses.None? {
      return Err(ArgumentNull);
    }
    var s := result.value;
    var classes := filterClasses.value;
    var filtered: seq<T> := [];
    for i := 0 to |s|
      invariant filtered == Keep(s[..i], classes, nameOf)
    {
      assert s[..i + 1][..i] == s[..i];
      if nameOf(s[i]) in classes {
        filtered := filtered + [s[i]];
      }
    }
    assert s[..|s|] == s;
    return Ok(filtered);
  }
}
