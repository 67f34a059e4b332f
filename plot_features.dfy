/** The feature loop of the `/plot_data` handler: which clinical features
    get a pair of population density curves. The curves themselves are not
    modelled; the result is the sequence of keys the handler adds to its
    reply, in the order it adds them. */
module PlotFeatures {

  /** The features the handler tries to plot, in the order it tries them. */
  const PlotCandidates: seq<string> := ["RestingBP", "Cholesterol", "RestingHR", "MaxHR", "Oldpeak"]

  /** Position of `x` in `s` (the length of `s` when it does not occur). */
  function IndexIn(s: seq<string>, x: string): (k: nat)
    ensures k <= |s|
    ensures k < |s| <==> x in s
    ensures k < |s| ==> s[k] == x && x !in s[..k]
  {
    if s == [] then 0
    else if s[0] == x then 0
    else
      var k := 1 + IndexIn(s[1..], x);
      assert k < |s| ==> s[..k] == [s[0]] + s[1..][..k - 1];
      k
  }

  lemma CandidatePositions(k: nat)
    requires k < |PlotCandidates|
    ensures IndexIn(PlotCandidates, PlotCandidates[k]) == k
  {
  }

  /** The handler's loop: every candidate that is a column of the population
      table gets an entry; a missing one is skipped with a warning. */
  method SelectPlotFeatures(tableColumns: seq<string>) returns (plotted: seq<string>)
    ensures forall f :: f in plotted <==> f in PlotCandidates && f in tableColumns
    ensures forall i, j :: 0 <= i < j < |plotted| ==> IndexIn(PlotCandidates, plotted[i]) < IndexIn(PlotCandidates, plotted[j])
  {
    plotted := [];
    for k := 0 to |PlotCandidates|
      invariant forall f :: f in plotted <==> f in PlotCandidates[..k] && f in tableColumns
      invariant forall i :: 0 <= i < |plotted| ==> IndexIn(PlotCandidates, plotted[i]) < k
      invariant forall i, j :: 0 <= i < j < |plotted| ==> IndexIn(PlotCandidates, plotted[i]) < IndexIn(PlotCandidates, plotted[j])
    {
      var feature := PlotCandidates[k];
      CandidatePositions(k);
      assert PlotCandidates[..k + 1] == PlotCandidates[..k] + [feature];
      if feature !in tableColumns {
        continue;
      }
      plotted := plotted + [feature];
    }
    assert PlotCandidates[..|PlotCandidates|] == PlotCandidates;
  }
}
