/** The SHAP block of the `/get_ai_analysis` handler: from the per-feature
    SHAP values the client sends back, keep the factors of non-negligible
    magnitude, order them by magnitude, and list the five strongest in the
    text that goes into the narrative request. */
module ShapSummary {

  /** One entry of the request's `shap_data` dict, in the dict's order. */
  datatype Factor = Factor(feature: string, value: real)

  /** A line of the summary text. `Fixed` lines are the handler's literal
      texts; a `Listed` line shows one factor's name and value (its decimal
      formatting is not modelled). */
  datatype SummaryLine = Fixed(text: string) | Listed(factor: Factor)

  /** Factors whose magnitude is not strictly above this are dropped. */
  const Threshold: real := 0.01
  /** How many factors the summary lists at most. */
  const TopCount: nat := 5

  const HeaderText: string := "\nHere are the top factors that influenced your specific prediction:\n"
  const FallbackText: string := "\nNo single factor strongly influenced this prediction.\n"

  function Abs(x: real): real {
    if x < 0.0 then -x else x
  }

  function Magnitude(f: Factor): real {
    Abs(f.value)
  }

  /** The factors of `fs` whose magnitude is exactly `m`, in their order in `fs`. */
  function AtMagnitude(fs: seq<Factor>, m: real): seq<Factor> {
    if fs == [] then []
    else (if Magnitude(fs[0]) == m then [fs[0]] else []) + AtMagnitude(fs[1..], m)
  }

  /** Non-increasing order of magnitude. */
  ghost predicate ByMagnitudeDescending(fs: seq<Factor>) {
    forall i, j :: 0 <= i < j < |fs| ==> Magnitude(fs[i]) >= Magnitude(fs[j])
  }

  /** The factors whose magnitude exceeds the threshold, in input order
      (the dict comprehension keeps insertion order). */
  function Significant(fs: seq<Factor>): (r: seq<Factor>)
    ensures forall f :: f in r ==> f in fs && Magnitude(f) > Threshold
    ensures forall f :: f in fs && Magnitude(f) > Threshold ==> f in r
    ensures |r| <= |fs|
  {
    if fs == [] then []
    else (if Magnitude(fs[0]) > Threshold then [fs[0]] else []) + Significant(fs[1..])
  }

  /** The filter keeps every factor of non-negligible magnitude the input
      holds, as often as it holds it, and no other. */
  lemma {:induction false} SignificantCounts(fs: seq<Factor>, f: Factor)
    ensures multiset(Significant(fs))[f] == if Magnitude(f) > Threshold then multiset(fs)[f] else 0
  {
    if fs != [] {
      SignificantCounts(fs[1..], f);
      assert fs == [fs[0]] + fs[1..];
    }
  }

  /** Among factors of one magnitude above the threshold, the filter keeps
      them all and keeps their order. */
  lemma {:induction false} SignificantKeepsTieOrder(fs: seq<Factor>, m: real)
    ensures AtMagnitude(Significant(fs), m) == if m > Threshold then AtMagnitude(fs, m) else []
  {
    if fs != [] {
      SignificantKeepsTieOrder(fs[1..], m);
      var head := if Magnitude(fs[0]) > Threshold then [fs[0]] else [];
      AtMagnitudeAppend(head, Significant(fs[1..]), m);
    }
  }

  lemma {:induction false} AtMagnitudeAppend(a: seq<Factor>, b: seq<Factor>, m: real)
    ensures AtMagnitude(a + b, m) == AtMagnitude(a, m) + AtMagnitude(b, m)
  {
    if a == [] {
      assert a + b == b;
    } else {
      assert (a + b)[0] == a[0];
      assert (a + b)[1..] == a[1..] + b;
      AtMagnitudeAppend(a[1..], b, m);
    }
  }

  /** Places `x` before the first factor of `sorted` whose magnitude is not
      larger, so that among equal magnitudes `x` comes first. */
  function Insert(x: Factor, sorted: seq<Factor>): (r: seq<Factor>)
    ensures multiset(r) == multiset(sorted) + multiset{x}
  {
    if sorted == [] then [x]
    else if Magnitude(x) >= Magnitude(sorted[0]) then [x] + sorted
    else
      assert sorted == [sorted[0]] + sorted[1..];
      [sorted[0]] + Insert(x, sorted[1..])
  }

  /** Python's `sorted(..., key=abs, reverse=True)`: a stable sort by
      descending magnitude, given as an insertion sort. */
  function SortByMagnitude(fs: seq<Factor>): (r: seq<Factor>)
    ensures multiset(r) == multiset(fs)
  {
    if fs == [] then []
    else
      assert fs == [fs[0]] + fs[1..];
      Insert(fs[0], SortByMagnitude(fs[1..]))
  }

  /** Inserting into a sequence in non-increasing magnitude order keeps it so. */
  lemma {:induction false} InsertKeepsOrder(x: Factor, sorted: seq<Factor>)
    requires ByMagnitudeDescending(sorted)
    ensures ByMagnitudeDescending(Insert(x, sorted))
  {
    if sorted != [] && Magnitude(x) < Magnitude(sorted[0]) {
      var tail := sorted[1..];
      var rest := Insert(x, tail);
      InsertKeepsOrder(x, tail);
      var r := Insert(x, sorted);
      assert r == [sorted[0]] + rest;
      forall j | 0 < j < |r| ensures Magnitude(r[0]) >= Magnitude(r[j]) {
        var g := rest[j - 1];
        assert r[j] == g;
        assert g in multiset(rest);
        if g != x {
          assert g in multiset(tail);
          var k :| 0 <= k < |tail| && tail[k] == g;
          assert sorted[k + 1] == g;
        }
      }
    }
  }

  /** The sort's output is in non-increasing order of magnitude. */
  lemma {:induction false} SortIsOrdered(fs: seq<Factor>)
    ensures ByMagnitudeDescending(SortByMagnitude(fs))
  {
    if fs != [] {
      SortIsOrdered(fs[1..]);
      InsertKeepsOrder(fs[0], SortByMagnitude(fs[1..]));
    }
  }

  lemma {:induction false} InsertKeepsTieOrder(x: Factor, sorted: seq<Factor>, m: real)
    ensures AtMagnitude(Insert(x, sorted), m) ==
      (if Magnitude(x) == m then [x] else []) + AtMagnitude(sorted, m)
  {
    if sorted != [] && Magnitude(x) < Magnitude(sorted[0]) {
      InsertKeepsTieOrder(x, sorted[1..], m);
      AtMagnitudeAppend([sorted[0]], Insert(x, sorted[1..]), m);
    } else if sorted != [] {
      AtMagnitudeAppend([x], sorted, m);
    }
  }

  /** The sort is stable: factors of equal magnitude keep their input order. */
  lemma {:induction false} SortKeepsTieOrder(fs: seq<Factor>, m: real)
    ensures AtMagnitude(SortByMagnitude(fs), m) == AtMagnitude(fs, m)
  {
    if fs != [] {
      SortKeepsTieOrder(fs[1..], m);
      InsertKeepsTieOrder(fs[0], SortByMagnitude(fs[1..]), m);
    }
  }

  function Min(a: nat, b: nat): nat {
    if a < b then a else b
  }

  /** The factors the summary lists: the first five of the sorted
      significant factors. */
  function TopFactors(fs: seq<Factor>): (top: seq<Factor>)
    ensures |top| == Min(TopCount, |Significant(fs)|)
    ensures forall f :: f in top ==> f in fs && Magnitude(f) > Threshold
    ensures ByMagnitudeDescending(top)
  {
    var sig := Significant(fs);
    var sorted := SortByMagnitude(sig);
    SortIsOrdered(sig);
    SortedFromSignificant(fs, sorted);
    assert |sorted| == |multiset(sorted)| == |sig|;
    var n := Min(TopCount, |sorted|);
    assert forall f :: f in sorted[..n] ==> f in sorted;
    sorted[..n]
  }

  lemma SortedFromSignificant(fs: seq<Factor>, sorted: seq<Factor>)
    requires multiset(sorted) == multiset(Significant(fs))
    ensures forall f :: f in sorted ==> f in fs && Magnitude(f) > Threshold
  {
    forall f | f in sorted ensures f in fs && Magnitude(f) > Threshold {
      assert f in multiset(sorted);
      assert f in Significant(fs);
    }
  }

  lemma {:induction false} AtMagnitudePrefix(fs: seq<Factor>, n: nat, m: real)
    requires n <= |fs|
    ensures AtMagnitude(fs[..n], m) <= AtMagnitude(fs, m)
  {
    if n > 0 {
      assert fs[..n][1..] == fs[1..][..n - 1];
      AtMagnitudePrefix(fs[1..], n - 1, m);
    }
  }

  /** Ties keep their input order: the listed factors of any one magnitude
      are the first ones of that magnitude in the request. */
  lemma TopFactorsKeepTieOrder(fs: seq<Factor>, m: real)
    ensures AtMagnitude(TopFactors(fs), m) <= AtMagnitude(fs, m)
  {
    var sig := Significant(fs);
    var sorted := SortByMagnitude(sig);
    AtMagnitudePrefix(sorted, Min(TopCount, |sorted|), m);
    SortKeepsTieOrder(sig, m);
    SignificantKeepsTieOrder(fs, m);
  }

  /** In a sequence ordered by non-increasing magnitude, no element past
      position `n` is larger than one before it. */
  lemma PrefixIsLargest(sorted: seq<Factor>, n: nat)
    requires ByMagnitudeDescending(sorted)
    requires n <= |sorted|
    ensures multiset(sorted) == multiset(sorted[..n]) + multiset(sorted[n..])
    ensures forall x, y :: x in sorted[..n] && y in multiset(sorted) - multiset(sorted[..n]) ==>
      Magnitude(y) <= Magnitude(x)
  {
    assert sorted == sorted[..n] + sorted[n..];
    var left, right := sorted[..n], sorted[n..];
    forall x, y | x in left && y in multiset(sorted) - multiset(left)
      ensures Magnitude(y) <= Magnitude(x)
    {
      assert y in multiset(right);
      var i :| 0 <= i < n && left[i] == x;
      var j :| 0 <= j < |right| && right[j] == y;
      assert sorted[i] == x && sorted[n + j] == y;
    }
  }

  /** The listed factors are the strongest: every significant factor left
      off the list is no larger in magnitude than any listed one. */
  lemma TopFactorsAreLargest(fs: seq<Factor>)
    ensures multiset(TopFactors(fs)) <= multiset(Significant(fs))
    ensures forall x, y :: x in TopFactors(fs) && y in multiset(Significant(fs)) - multiset(TopFactors(fs)) ==>
      Magnitude(y) <= Magnitude(x)
  {
    var sorted := SortByMagnitude(Significant(fs));
    SortIsOrdered(Significant(fs));
    PrefixIsLargest(sorted, Min(TopCount, |sorted|));
  }

  /** The summary text as the handler builds it: a header followed by one
      line per listed factor, replaced by the fixed fallback text when no
      factor passes the threshold. */
  method Summarize(shapData: seq<Factor>) returns (text: seq<SummaryLine>)
    ensures (forall f :: f in shapData ==> Magnitude(f) <= Threshold) ==> text == [Fixed(FallbackText)]
    ensures (exists f :: f in shapData && Magnitude(f) > Threshold) ==>
      var top := TopFactors(shapData);
      |text| == |top| + 1 && text[0] == Fixed(HeaderText) &&
      forall k :: 0 <= k < |top| ==> text[k + 1] == Listed(top[k])
  {
    var top := TopFactors(shapData);
    text := [Fixed(HeaderText)];
    for i := 0 to |top|
      invariant |text| == i + 1 && text[0] == Fixed(HeaderText)
      invariant forall k :: 0 <= k < i ==> text[k + 1] == Listed(top[k])
    {
      text := text + [Listed(top[i])];
    }
    // no sorted factor at all exactly when none is listed
    if |top| == 0 {
      text := [Fixed(FallbackText)];
    }
  }
}
