/** `opportunity_gain(df_rca, pci, cutoff, proximities)` of the pandas
    engine: the RCA frame is binarized with `ge(cutoff)` whether or not
    proximities are passed, and the relatedness of the inverse is taken with
    the pandas `relatedness` at its default cutoff 1. */
module PandasOppGain {
  import opened Numeric
  import opened Algebra
  import opened Advantage
  import opened Space
  import opened PandasProximity
  import opened PandasRelatedness
  import opened Gain

  function OpportunityGain(rca: Matrix, cols: nat, pci: seq<Num>, cutoff: real, proximities: Option<Matrix>): (g: Matrix)
    requires IsMatrix(rca, cols) && ProximitiesFit(proximities, cols) && |pci| == cols
    ensures |g| == |rca| && IsMatrix(g, cols)
  {
    var phi := ProximitiesOr(rca, cols, cutoff, proximities);
    var m := GeBinarize(rca, cols, cutoff);
    GainWith(m, phi, cols, pci, Relatedness(Flip(m, cols), cols, 1.0, Some(phi)))
  }

  // --------------------------------------------------------------- lemmas

  /** Re-binarizing the 0/1 inverse at cutoff 1 changes nothing, so the
      pandas relatedness of the inverse is its density. */
  lemma InverseRelatedness(m: Matrix, cols: nat, phi: Matrix)
    requires IsBinary(m, cols) && |phi| == cols && IsMatrix(phi, cols)
    ensures Relatedness(Flip(m, cols), cols, 1.0, Some(phi)) == InverseDensity(m, phi, cols)
  {
    FlipBinary(m, cols);
    GeBinarizeKeepsBinary(Flip(m, cols), cols);
  }

  /** The gain is the shared formula applied to the binarized frame. */
  lemma AsGain(rca: Matrix, cols: nat, pci: seq<Num>, cutoff: real, proximities: Option<Matrix>)
    requires IsMatrix(rca, cols) && ProximitiesFit(proximities, cols) && |pci| == cols
    ensures OpportunityGain(rca, cols, pci, cutoff, proximities) ==
            GainFrom(GeBinarize(rca, cols, cutoff), ProximitiesOr(rca, cols, cutoff, proximities), cols, pci)
  {
    InverseRelatedness(GeBinarize(rca, cols, cutoff), cols, ProximitiesOr(rca, cols, cutoff, proximities));
  }

  /** A location with an advantage in every activity gains `-pci[a]`. */
  lemma FullAdvantageGain(rca: Matrix, cols: nat, pci: seq<Num>, cutoff: real, proximities: Option<Matrix>, l: nat, a: nat)
    requires IsMatrix(rca, cols) && ProximitiesFit(proximities, cols) && |pci| == cols
    requires l < |rca| && a < cols && AllFin(pci)
    requires var w := Col(ProximitiesOr(rca, cols, cutoff, proximities), cols, a);
             AllFin(w) && Sum(Vals(w)) != 0.0
    requires forall b :: 0 <= b < cols ==> Holds(rca, cols, cutoff, l, b)
    ensures OpportunityGain(rca, cols, pci, cutoff, proximities)[l][a] == Fin(-pci[a].v)
  {
    var m := GeBinarize(rca, cols, cutoff);
    AsGain(rca, cols, pci, cutoff, proximities);
    forall b | 0 <= b < cols ensures AtLeast(rca[l][b], cutoff) {
      assert Holds(rca, cols, cutoff, l, b);
    }
    GeRowExtremes(rca, cols, cutoff, l);
    assert AllOnes(m[l]);
    HoldsEverything(m, ProximitiesOr(rca, cols, cutoff, proximities), cols, pci, l, a);
  }

  /** A location with no advantage gains the proximity-weighted average PCI. */
  lemma NoAdvantageGain(rca: Matrix, cols: nat, pci: seq<Num>, cutoff: real, proximities: Option<Matrix>, l: nat, a: nat)
    requires IsMatrix(rca, cols) && ProximitiesFit(proximities, cols) && |pci| == cols
    requires l < |rca| && a < cols && AllFin(pci)
    requires var w := Col(ProximitiesOr(rca, cols, cutoff, proximities), cols, a);
             AllFin(w) && Sum(Vals(w)) != 0.0
    requires forall b :: 0 <= b < cols ==> !Holds(rca, cols, cutoff, l, b)
    ensures var w := Col(ProximitiesOr(rca, cols, cutoff, proximities), cols, a);
            OpportunityGain(rca, cols, pci, cutoff, proximities)[l][a] == Fin(Dot(Vals(pci), Vals(w)) / Sum(Vals(w)))
  {
    var m := GeBinarize(rca, cols, cutoff);
    AsGain(rca, cols, pci, cutoff, proximities);
    forall b | 0 <= b < cols ensures !AtLeast(rca[l][b], cutoff) {
      assert !Holds(rca, cols, cutoff, l, b);
    }
    GeRowExtremes(rca, cols, cutoff, l);
    HoldsNothing(m, ProximitiesOr(rca, cols, cutoff, proximities), cols, pci, l, a);
  }

  /** The cutoff binarizes the RCA frame even when proximities are passed:
      with a single activity of PCI `p` and any defined non-zero proximity,
      a location gains `-p` when its RCA reaches the cutoff and `p` when it
      does not. */
  lemma CutoffStillUsed(rca: Matrix, pci: seq<Num>, phi: Matrix, cutoff: real, l: nat)
    requires IsMatrix(rca, 1) && l < |rca| && |pci| == 1 && pci[0].Fin?
    requires |phi| == 1 && IsMatrix(phi, 1) && phi[0][0].Fin? && phi[0][0].v != 0.0
    ensures OpportunityGain(rca, 1, pci, cutoff, Some(phi))[l][0] ==
            if AtLeast(rca[l][0], cutoff) then Fin(-pci[0].v) else pci[0]
  {
    var w := Col(phi, 1, 0);
    assert ProximitiesOr(rca, 1, cutoff, Some(phi)) == phi;
    assert w == [phi[0][0]] && Vals(w) == [phi[0][0].v];
    assert Sum(Vals(w)) == phi[0][0].v;
    assert AllFin(pci) && AllFin(w);
    if AtLeast(rca[l][0], cutoff) {
      forall b | 0 <= b < 1 ensures Holds(rca, 1, cutoff, l, b) {
        assert b == 0;
      }
      FullAdvantageGain(rca, 1, pci, cutoff, Some(phi), l, 0);
    } else {
      assert Vals(pci) == [pci[0].v];
      var q, f := pci[0].v, phi[0][0].v;
      assert Dot(Vals(pci), Vals(w)) == q * f;
      assert q * f / f == q;
      forall b | 0 <= b < 1 ensures !Holds(rca, 1, cutoff, l, b) {
        assert b == 0;
      }
      NoAdvantageGain(rca, 1, pci, cutoff, Some(phi), l, 0);
    }
  }
}
