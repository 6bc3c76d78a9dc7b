/** The surface classification rule of the sensor node's monitoring loop:
    a three-way decision over the MLX90614 object temperature (absent when
    the sensor read failed), the whiteness index and the NIR/green ratio.
    Readings are modelled as exact reals. */
module SurfaceClassifier {
  import opened Wrappers

  /** `W_THRESHOLD`: whiteness above which a frozen surface reads as ice. */
  const WhitenessThreshold: real := 1.2
  /** `R_THRESHOLD`: NIR/green ratio below which a frozen surface is suspect. */
  const RatioThreshold: real := 0.8

  datatype Surface = IceDetected | PossibleBlackIce | Normal

  /** The label printed for each condition. */
  function Label(s: Surface): (text: string)
    ensures text in {"ICE DETECTED", "POSSIBLE BLACK ICE", "NORMAL"}
  {
    match s
    case IceDetected => "ICE DETECTED"
    case PossibleBlackIce => "POSSIBLE BLACK ICE"
    case Normal => "NORMAL"
  }

  /** The temperature is known and at or below freezing. */
  predicate Freezing(surfaceTemp: Option<real>) {
    surfaceTemp.Some? && surfaceTemp.value <= 0.0
  }

  /** The `if`/`elif`/`else` chain: the first branch whose condition holds. */
  function Classify(surfaceTemp: Option<real>, whiteness: real, nirGreenRatio: real): (s: Surface)
    ensures s == IceDetected <==>
      Freezing(surfaceTemp) && whiteness > WhitenessThreshold && nirGreenRatio < RatioThreshold
    ensures s == PossibleBlackIce <==>
      Freezing(surfaceTemp) && whiteness <= WhitenessThreshold && nirGreenRatio < RatioThreshold
    ensures s == Normal <==>
      surfaceTemp.None? || surfaceTemp.value > 0.0 || nirGreenRatio >= RatioThreshold
  {
    if surfaceTemp.Some? && surfaceTemp.value <= 0.0
       && whiteness > WhitenessThreshold && nirGreenRatio < RatioThreshold then
      IceDetected
    else if surfaceTemp.Some? && surfaceTemp.value <= 0.0 && nirGreenRatio < RatioThreshold then
      PossibleBlackIce
    else
      Normal
  }

  /** The three labels are distinct, so the printed text determines the
      condition. */
  lemma LabelInjective(s: Surface, t: Surface)
    requires Label(s) == Label(t)
    ensures s == t
  {
    assert Label(IceDetected)[0] == 'I' && Label(PossibleBlackIce)[0] == 'P' && Label(Normal)[0] == 'N';
  }

  /** The printed label, condition by condition: each of the three texts
      appears exactly when its branch of the chain is taken. */
  lemma PrintedLabel(surfaceTemp: Option<real>, whiteness: real, nirGreenRatio: real)
    ensures Label(Classify(surfaceTemp, whiteness, nirGreenRatio)) == "ICE DETECTED" <==>
      Freezing(surfaceTemp) && whiteness > WhitenessThreshold && nirGreenRatio < RatioThreshold
    ensures Label(Classify(surfaceTemp, whiteness, nirGreenRatio)) == "POSSIBLE BLACK ICE" <==>
      Freezing(surfaceTemp) && whiteness <= WhitenessThreshold && nirGreenRatio < RatioThreshold
    ensures Label(Classify(surfaceTemp, whiteness, nirGreenRatio)) == "NORMAL" <==>
      surfaceTemp.None? || surfaceTemp.value > 0.0 || nirGreenRatio >= RatioThreshold
  {
    var s := Classify(surfaceTemp, whiteness, nirGreenRatio);
    if Label(s) == "ICE DETECTED" {
      LabelInjective(s, IceDetected);
    }
    if Label(s) == "POSSIBLE BLACK ICE" {
      LabelInjective(s, PossibleBlackIce);
    }
    if Label(s) == "NORMAL" {
      LabelInjective(s, Normal);
    }
  }

  /** Whether a warning (either ice label) is raised does not depend on the
      whiteness index; whiteness only chooses between the two ice labels. */
  lemma WarningIgnoresWhiteness(surfaceTemp: Option<real>, w1: real, w2: real, ratio: real)
    ensures (Classify(surfaceTemp, w1, ratio) == Normal) == (Classify(surfaceTemp, w2, ratio) == Normal)
  {
  }

  /** Raising the whiteness never downgrades a warning: a surface that is
      ice at some whiteness stays ice at any higher whiteness, and a possible
      black ice at some whiteness is possible black ice at any lower one. */
  lemma WhitenessMonotone(surfaceTemp: Option<real>, w1: real, w2: real, ratio: real)
    requires w1 <= w2
    ensures Classify(surfaceTemp, w1, ratio) == IceDetected ==> Classify(surfaceTemp, w2, ratio) == IceDetected
    ensures Classify(surfaceTemp, w2, ratio) == PossibleBlackIce ==> Classify(surfaceTemp, w1, ratio) == PossibleBlackIce
  {
  }
}
