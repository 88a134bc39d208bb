/** `step`: one channel up or down within an AM/FM band, in 64-bit unsigned arithmetic. */
module Stepping {
  import opened Bytes
  import opened Wrappers
  import opened Selectors

  datatype Band = Band(lower: uint32, upper: uint32, spacing: uint32) {
    predicate Contains(f: nat) { lower <= f <= upper }

    function Width(): int { upper - lower }

    /** The k-th channel of the grid. */
    function Channel(k: nat): nat { lower + k * spacing }

    /** The number of the last channel of the grid. */
    function Last(): nat
      requires spacing > 0 && lower <= upper
    {
      Width() / spacing
    }

    /** The width is a multiple of the spacing, and the spacing at most the lower bound. */
    predicate Regular() { 0 < spacing <= lower <= upper && Width() % spacing == 0 }

    function Step(f: uint64, up: bool): (r: uint64) {
      var moved := if up then (f + spacing) % LIMIT64 else (f + LIMIT64 - spacing) % LIMIT64;
      var wrapped := if moved > upper then lower else moved;
      if wrapped < lower then upper else wrapped
    }
  }

  /** The first band that contains the frequency. */
  function BandOf(bands: seq<Band>, f: nat): Option<Band> {
    if bands == [] then None
    else if bands[0].Contains(f) then Some(bands[0])
    else BandOf(bands[1..], f)
  }

  method FindBand(bands: seq<Band>, f: nat) returns (r: Option<Band>)
    ensures r == BandOf(bands, f)
  {
    for i := 0 to |bands|
      invariant BandOf(bands, f) == BandOf(bands[i..], f)
    {
      assert bands[i..][1..] == bands[i + 1..];
      if bands[i].Contains(f) {
        return Some(bands[i]);
      }
    }
    return None;
  }

  ghost predicate Disjoint(bands: seq<Band>) {
    forall i, j, f: nat :: 0 <= i < j < |bands| && bands[i].Contains(f) ==> !bands[j].Contains(f)
  }

  lemma {:induction false} BandOfContains(bands: seq<Band>, f: nat)
    ensures var r := BandOf(bands, f);
      && (r.Some? ==> r.value in bands && r.value.Contains(f))
      && (r.None? ==> forall b :: b in bands ==> !b.Contains(f))
  {
    if bands != [] {
      BandOfContains(bands[1..], f);
    }
  }

  lemma {:induction false} BandOfDisjoint(bands: seq<Band>, b: Band, f: nat)
    requires Disjoint(bands) && b in bands && b.Contains(f)
    ensures BandOf(bands, f) == Some(b)
  {
    if !bands[0].Contains(f) {
      assert b in bands[1..];
      assert forall i :: 0 <= i < |bands[1..]| ==> bands[1..][i] == bands[i + 1];
      BandOfDisjoint(bands[1..], b, f);
    }
  }

  /** Whatever the bands, overlapping or not, a step stays inside the band it started in. */
  lemma StepStaysInBand(b: Band, f: uint64, up: bool)
    requires b.Contains(f)
    ensures b.Contains(b.Step(f, up))
  {
  }

  lemma {:induction false} StepNeverLeavesBands(bands: seq<Band>, f: uint64, up: bool)
    ensures BandOf(bands, f).Some? ==>
      var r := BandOf(bands, f).value.Step(f, up);
      BandOf(bands, r).Some? && exists b :: b in bands && b.Contains(f) && b.Contains(r)
  {
    BandOfContains(bands, f);
    if BandOf(bands, f).Some? {
      StepStaysInBand(BandOf(bands, f).value, f, up);
      BandOfContains(bands, BandOf(bands, f).value.Step(f, up));
    }
  }

  lemma ChannelInBand(b: Band, k: nat)
    requires b.spacing > 0 && b.lower <= b.upper
    ensures k <= b.Last() <==> b.Channel(k) <= b.upper
  {
    var w, q := b.Width(), b.Last();
    if k <= q {
      assert k * b.spacing <= q * b.spacing;
    } else {
      assert (q + 1) * b.spacing <= k * b.spacing;
    }
  }

  lemma NextChannel(b: Band, k: nat)
    ensures b.Channel(0) == b.lower <= b.Channel(k)
    ensures b.Channel(k + 1) == b.Channel(k) + b.spacing
  {
  }

  lemma LastChannel(b: Band)
    requires b.spacing > 0 && b.lower <= b.upper
    ensures b.Channel(b.Last()) == b.upper - b.Width() % b.spacing
  {
  }

  /** A step up moves one channel on and wraps from the last channel to the first. */
  lemma StepUpOnGrid(b: Band, k: nat)
    requires b.spacing > 0 && b.lower <= b.upper && k <= b.Last()
    ensures b.Channel(k) < LIMIT32
    ensures b.Step(b.Channel(k), true) == b.Channel(if k == b.Last() then 0 else k + 1)
  {
    hide Band.Channel, Band.Last;
    ChannelInBand(b, k);
    ChannelInBand(b, k + 1);
    NextChannel(b, k);
  }

  /** A step down moves one channel back; from the first it goes to the upper bound, unless the
      64-bit subtraction wraps, which leaves it where it is. */
  lemma StepDownOnGrid(b: Band, k: nat)
    requires b.spacing > 0 && b.lower <= b.upper && k <= b.Last()
    ensures b.Channel(k) < LIMIT32
    ensures b.Step(b.Channel(k), false) ==
      if k > 0 then b.Channel(k - 1) else if b.spacing <= b.lower then b.upper else b.lower
  {
    hide Band.Channel, Band.Last;
    ChannelInBand(b, k);
    NextChannel(b, k);
    if k > 0 {
      ChannelInBand(b, k - 1);
      NextChannel(b, k - 1);
    }
  }

  ghost predicate StepsAreInverse(b: Band)
    requires b.spacing > 0 && b.lower <= b.upper
  {
    forall k: nat :: k <= b.Last() ==>
      var f := b.Channel(k);
      && f < LIMIT64
      && b.Step(b.Step(f, true), false) == f
      && b.Step(b.Step(f, false), true) == f
  }

  /** Within one band, stepping up and down undo each other on the whole grid exactly when the width is a multiple of
      the spacing and the spacing is at most the lower bound, or the grid has a single channel that
      steps never leave. */
  lemma InverseExactly(b: Band)
    requires b.spacing > 0 && b.lower <= b.upper
    ensures StepsAreInverse(b) <==>
      || (b.Width() % b.spacing == 0 && b.spacing <= b.lower)
      || b.Width() == 0
      || (b.Width() < b.spacing && b.lower < b.spacing)
  {
    var last := b.Last();
    var regular := b.Width() % b.spacing == 0 && b.spacing <= b.lower;
    var single := b.Width() == 0 || (b.Width() < b.spacing && b.lower < b.spacing);
    assert b.Width() == last * b.spacing + b.Width() % b.spacing;
    if regular || single {
      forall k: nat | k <= last
        ensures b.Channel(k) < LIMIT64
        ensures b.Step(b.Step(b.Channel(k), true), false) == b.Channel(k)
        ensures b.Step(b.Step(b.Channel(k), false), true) == b.Channel(k)
      {
        if regular {
          InverseAt(b, k);
        } else {
          SingleChannel(b, k);
        }
      }
    } else {
      NotInverse(b);
    }
  }

  lemma InverseAt(b: Band, k: nat)
    requires b.spacing > 0 && b.lower <= b.upper && k <= b.Last()
    requires b.Width() % b.spacing == 0 && b.spacing <= b.lower
    ensures b.Channel(k) < LIMIT32
    ensures b.Step(b.Step(b.Channel(k), true), false) == b.Channel(k)
    ensures b.Step(b.Step(b.Channel(k), false), true) == b.Channel(k)
  {
    hide Band.Channel, Band.Step, Band.Last;
    var last := b.Last();
    LastChannel(b);
    StepUpOnGrid(b, k);
    StepDownOnGrid(b, k);
    StepDownOnGrid(b, if k == last then 0 else k + 1);
    StepUpOnGrid(b, if k == 0 then last else k - 1);
  }

  lemma SingleChannel(b: Band, k: nat)
    requires b.spacing > 0 && b.lower <= b.upper && k <= b.Last()
    requires b.Width() == 0 || (b.Width() < b.spacing && b.lower < b.spacing)
    ensures k == 0 && b.Step(b.lower, true) == b.lower == b.Channel(k) && b.Step(b.lower, false) == b.lower
  {
    hide Band.Channel, Band.Step, Band.Last;
    LastOfNarrow(b);
    NextChannel(b, 0);
    StepUpOnGrid(b, 0);
    StepDownOnGrid(b, 0);
  }

  lemma LastOfNarrow(b: Band)
    requires 0 <= b.Width() < b.spacing
    ensures b.Last() == 0
  {
  }

  lemma NotInverse(b: Band)
    requires b.spacing > 0 && b.lower <= b.upper && b.Width() > 0
    requires b.Width() % b.spacing != 0 || b.spacing > b.lower
    requires b.Width() >= b.spacing || b.lower >= b.spacing
    ensures !StepsAreInverse(b)
  {
    hide Band.Channel, Band.Step;
    var last := b.Last();
    StepUpOnGrid(b, last);
    StepDownOnGrid(b, 0);
    NextChannel(b, 0);
    LastChannel(b);
    assert b.Step(b.Step(b.Channel(last), true), false) != b.Channel(last) by {
      if b.spacing > b.lower {
        assert last >= 1 by { LastOfWide(b); }
        ChannelAbove(b, last);
      }
    }
  }

  lemma LastOfWide(b: Band)
    requires 0 < b.spacing <= b.Width()
    ensures b.Last() >= 1
  {
  }

  lemma ChannelAbove(b: Band, k: nat)
    requires b.spacing > 0 && k >= 1
    ensures b.Channel(k) > b.lower
  {
  }

  // ----- looking the band up before each step

  /** The frequency after a step from `f`, if there is a band to step in. */
  function StepFrom(bands: seq<Band>, f: uint64, up: bool): Option<uint64> {
    match BandOf(bands, f) case None => None case Some(b) => Some(b.Step(f, up))
  }

  /** A step from a frequency of the band can be undone in that band. */
  predicate Reversible(b: Band, f: nat, up: bool) {
    if up then f + b.spacing <= b.upper || f == (if b.spacing <= b.lower then b.upper else b.lower)
    else if f < b.spacing then f == b.lower && b.upper < b.lower + b.spacing
    else b.lower + b.spacing <= f || f == b.lower
  }

  lemma ReversibleExactly(b: Band, f: uint64, up: bool)
    requires b.Contains(f)
    ensures b.Step(b.Step(f, up), !up) == f <==> Reversible(b, f, up)
  {
    hide Band.Step;
    StepInBand(b, f, up);
    StepStaysInBand(b, f, up);
    StepInBand(b, b.Step(f, up), !up);
  }

  /** A step from a frequency of the band without the 64-bit arithmetic. */
  lemma StepInBand(b: Band, f: uint64, up: bool)
    requires b.Contains(f)
    ensures b.Step(f, up) ==
      if up then (if f + b.spacing <= b.upper then f + b.spacing else b.lower)
      else if f < b.spacing then b.lower
      else if f - b.spacing < b.lower then b.upper
      else f - b.spacing
  {
    if !up && f >= b.spacing {
      assert (f + LIMIT64 - b.spacing) % LIMIT64 == f - b.spacing;
    }
  }

  /** Two bands that both contain two frequencies and come first for one each are the same. */
  lemma {:induction false} FirstForBoth(bands: seq<Band>, f: nat, g: nat)
    requires BandOf(bands, f).Some? && BandOf(bands, g).Some?
    requires BandOf(bands, f).value.Contains(g) && BandOf(bands, g).value.Contains(f)
    ensures BandOf(bands, f) == BandOf(bands, g)
  {
    if !bands[0].Contains(f) && !bands[0].Contains(g) {
      FirstForBoth(bands[1..], f, g);
    }
  }

  /** Whatever the bands: a step is undone by the opposite one exactly if the lookup finds the same
      band again, no earlier one holding the target, and the step can be undone in it. */
  lemma StepsBackExactly(bands: seq<Band>, f: uint64, up: bool)
    requires BandOf(bands, f).Some?
    ensures var b := BandOf(bands, f).value;
      var g := b.Step(f, up);
      StepFrom(bands, g, !up) == Some(f) <==> BandOf(bands, g) == Some(b) && Reversible(b, f, up)
  {
    hide Band.Step, Reversible;
    var b := BandOf(bands, f).value;
    var g := b.Step(f, up);
    BandOfContains(bands, f);
    BandOfContains(bands, g);
    StepStaysInBand(b, f, up);
    ReversibleExactly(b, f, up);
    if BandOf(bands, g).Some? {
      StepStaysInBand(BandOf(bands, g).value, g, !up);
      if StepFrom(bands, g, !up) == Some(f) {
        FirstForBoth(bands, f, g);
      }
    }
  }

  /** The built-in AM/FM bands: FM, long wave, medium wave and short wave. */
  const AM_FM_BANDS := [Band(87500, 108000, 100), Band(153, 282, 3), Band(531, 1620, 9), Band(1600, 30000, 1)]

  /** The short wave band begins inside the medium wave band: a step down from 1621 leaves it, and the
      step up from there goes to the lower end of medium wave. */
  lemma ShortWaveStepIsNotUndone()
    ensures StepFrom(AM_FM_BANDS, 1621, false) == Some(1620)
    ensures StepFrom(AM_FM_BANDS, 1620, true) == Some(531)
    ensures forall i :: 0 <= i < |AM_FM_BANDS| ==> AM_FM_BANDS[i].Regular() && StepsAreInverse(AM_FM_BANDS[i])
  {
    hide AM_FM_BANDS, BandOf, Band.Step, StepsAreInverse;
    BuiltInLookup();
    StepInBand(Band(1600, 30000, 1), 1621, false);
    StepInBand(Band(531, 1620, 9), 1620, true);
    BuiltInRegular();
    forall i | 0 <= i < |AM_FM_BANDS|
      ensures AM_FM_BANDS[i].Regular() && StepsAreInverse(AM_FM_BANDS[i])
    {
      InverseExactly(AM_FM_BANDS[i]);
    }
  }

  /** The bands that hold the ends of medium and short wave. */
  lemma BuiltInLookup()
    ensures BandOf(AM_FM_BANDS, 1621) == Some(Band(1600, 30000, 1))
    ensures BandOf(AM_FM_BANDS, 1620) == Some(Band(531, 1620, 9))
  {
    var bands := AM_FM_BANDS;
    BandOfStep(bands, 1621);
    BandOfStep(bands[1..], 1621);
    BandOfStep(bands[2..], 1621);
    BandOfStep(bands[3..], 1621);
    BandOfStep(bands, 1620);
    BandOfStep(bands[1..], 1620);
    BandOfStep(bands[2..], 1620);
    hide BandOf;
    assert bands[1..][1..] == bands[2..] && bands[2..][1..] == bands[3..];
  }

  lemma BandOfStep(bands: seq<Band>, f: nat)
    requires bands != []
    ensures BandOf(bands, f) == if bands[0].lower <= f <= bands[0].upper then Some(bands[0]) else BandOf(bands[1..], f)
  {
  }

  lemma BuiltInRegular()
    ensures forall i :: 0 <= i < |AM_FM_BANDS| ==> AM_FM_BANDS[i].Regular()
  {
  }

  /** All channels of the band are looked up as its own. */
  ghost predicate Unshadowed(bands: seq<Band>, b: Band)
    requires b.spacing > 0 && b.lower <= b.upper
  {
    forall k: nat :: k <= b.Last() ==> BandOf(bands, b.Channel(k)) == Some(b)
  }

  ghost predicate Shadowed(bands: seq<Band>, b: Band)
    requires b.spacing > 0 && b.lower <= b.upper
  {
    forall k: nat :: k <= b.Last() ==> BandOf(bands, b.Channel(k)) != Some(b)
  }


  /** From each channel that is looked up as one of the band, steps up and down undo each other. */
  ghost predicate UndoneOnGrid(bands: seq<Band>, b: Band)
    requires b.spacing > 0 && b.lower <= b.upper
  {
    forall k: nat, up: bool {:trigger b.Step(b.Channel(k), up)} ::
      k <= b.Last() && b.Channel(k) < LIMIT64 && BandOf(bands, b.Channel(k)) == Some(b) ==>
        StepFrom(bands, b.Step(b.Channel(k), up), !up) == Some(b.Channel(k))
  }

  /** The neighbour of a channel, round the ends of the grid. */
  function Neighbour(b: Band, k: nat, up: bool): nat
    requires b.spacing > 0 && b.lower <= b.upper && k <= b.Last()
  {
    if up then (if k == b.Last() then 0 else k + 1) else if k == 0 then b.Last() else k - 1
  }

  lemma RegularStep(b: Band, k: nat, up: bool)
    requires b.Regular() && k <= b.Last()
    ensures b.Channel(k) < LIMIT64
    ensures b.Step(b.Channel(k), up) == b.Channel(Neighbour(b, k, up))
    ensures Reversible(b, b.Channel(k), up)
  {
    hide Band.Channel, Band.Step, Band.Last, Reversible;
    LastChannel(b);
    StepUpOnGrid(b, k);
    StepDownOnGrid(b, k);
    InverseAt(b, k);
    ChannelContained(b, k);
    ReversibleExactly(b, b.Channel(k), up);
  }

  /** In a regular band a step from one of its channels is undone exactly if no earlier band holds
      the neighbouring channel. */
  lemma NeighbourDecides(bands: seq<Band>, b: Band, k: nat, up: bool)
    requires b.Regular() && k <= b.Last() && BandOf(bands, b.Channel(k)) == Some(b)
    ensures b.Channel(k) < LIMIT64
    ensures StepFrom(bands, b.Step(b.Channel(k), up), !up) == Some(b.Channel(k)) <==>
      BandOf(bands, b.Channel(Neighbour(b, k, up))) == Some(b)
  {
    hide Band.Channel, Band.Step, Band.Last, Reversible, BandOf, StepFrom, Neighbour;
    RegularStep(b, k, up);
    StepsBackExactly(bands, b.Channel(k), up);
  }

  /** On the grids of regular bands, steps up and down undo each other exactly if earlier bands hold
      all channels of a band or none. */
  lemma UndoneExactly(bands: seq<Band>, b: Band)
    requires b.Regular()
    ensures UndoneOnGrid(bands, b) <==> Unshadowed(bands, b) || Shadowed(bands, b)
  {
    hide Band.Channel, Band.Step, Band.Last, Reversible, BandOf, StepFrom;
    if UndoneOnGrid(bands, b) && !Shadowed(bands, b) {
      var k: nat :| k <= b.Last() && BandOf(bands, b.Channel(k)) == Some(b);
      forall j: nat | j <= b.Last()
        ensures BandOf(bands, b.Channel(j)) == Some(b)
      {
        UndoneReaches(bands, b, k, j);
      }
    } else if Unshadowed(bands, b) {
      forall k: nat, up: bool | k <= b.Last()
        ensures b.Channel(k) < LIMIT64 && StepFrom(bands, b.Step(b.Channel(k), up), !up) == Some(b.Channel(k))
      {
        NeighbourDecides(bands, b, k, up);
      }
    }
  }

  lemma {:induction false} UndoneReaches(bands: seq<Band>, b: Band, k: nat, j: nat)
    requires b.Regular() && UndoneOnGrid(bands, b) && k <= b.Last() && j <= b.Last()
    requires BandOf(bands, b.Channel(k)) == Some(b)
    ensures BandOf(bands, b.Channel(j)) == Some(b)
    decreases if k < j then j - k else k - j
  {
    hide Band.Channel, Band.Step, Band.Last, BandOf, StepFrom;
    if k != j {
      var up := k < j;
      NeighbourDecides(bands, b, k, up);
      assert StepFrom(bands, b.Step(b.Channel(k), up), !up) == Some(b.Channel(k));
      UndoneReaches(bands, b, Neighbour(b, k, up), j);
    }
  }

  /** The frequency after `n` completed steps. */
  function Steps(bands: seq<Band>, f: uint64, up: bool, n: nat): Option<uint64> {
    if n == 0 then Some(f)
    else match Steps(bands, f, up, n - 1) case None => None case Some(g) => StepFrom(bands, g, up)
  }

  /** The channel `n` places on, round the ends of the grid, for at most one round. */
  function Moved(b: Band, k: nat, up: bool, n: nat): nat
    requires b.spacing > 0 && b.lower <= b.upper && k <= b.Last() && n <= b.Last() + 1
  {
    if up then (if k + n <= b.Last() then k + n else k + n - b.Last() - 1)
    else if n <= k then k - n else k + b.Last() + 1 - n
  }

  /** Steps go round the channels of an unshadowed band in order: up always, down if it is regular. */
  lemma {:induction false} StepsGoRound(bands: seq<Band>, b: Band, k: nat, up: bool, n: nat)
    requires b.spacing > 0 && b.lower <= b.upper && k <= b.Last() && n <= b.Last() + 1
    requires Unshadowed(bands, b) && (up || b.Regular())
    ensures b.Channel(k) < LIMIT64
    ensures Steps(bands, b.Channel(k), up, n) == Some(b.Channel(Moved(b, k, up, n)))
  {
    hide Band.Step, Band.Channel, Band.Last;
    ChannelBelowLimit(b, k);
    if n > 0 {
      StepsGoRound(bands, b, k, up, n - 1);
      var i := Moved(b, k, up, n - 1);
      assert BandOf(bands, b.Channel(i)) == Some(b);
      if up {
        StepUpOnGrid(b, i);
      } else {
        RegularStep(b, i, false);
      }
    }
  }

  lemma ChannelBelowLimit(b: Band, k: nat)
    requires b.spacing > 0 && b.lower <= b.upper && k <= b.Last()
    ensures b.Channel(k) < LIMIT64
  {
    StepUpOnGrid(b, k);
  }

  lemma ChannelContained(b: Band, k: nat)
    requires b.spacing > 0 && b.lower <= b.upper && k <= b.Last()
    ensures b.Contains(b.Channel(k))
  {
    ChannelInBand(b, k);
  }

  lemma ChannelsDiffer(b: Band, i: nat, j: nat)
    requires b.spacing > 0 && i != j
    ensures b.Channel(i) != b.Channel(j)
  {
    if i < j {
      assert j * b.spacing == i * b.spacing + (j - i) * b.spacing;
    } else {
      assert i * b.spacing == j * b.spacing + (i - j) * b.spacing;
    }
  }

  /** How many steps lead from one channel to another. */
  function Distance(b: Band, k: nat, up: bool, j: nat): nat
    requires b.spacing > 0 && b.lower <= b.upper && k <= b.Last() && j <= b.Last()
  {
    if up then (if k <= j then j - k else j + b.Last() + 1 - k)
    else if j <= k then k - j else k + b.Last() + 1 - j
  }

  /** One full round of width/spacing + 1 steps returns to the start and visits every channel exactly
      once: upwards in every unshadowed band, downwards in the regular ones. */
  lemma StepCycle(bands: seq<Band>, b: Band, k: nat, up: bool, j: nat)
    requires b.spacing > 0 && b.lower <= b.upper && k <= b.Last() && j <= b.Last()
    requires Unshadowed(bands, b) && (up || b.Regular())
    ensures b.Channel(k) < LIMIT64
    ensures Steps(bands, b.Channel(k), up, b.Last() + 1) == Some(b.Channel(k))
    ensures forall n: nat :: n <= b.Last() ==>
      (Steps(bands, b.Channel(k), up, n) == Some(b.Channel(j)) <==> n == Distance(b, k, up, j))
  {
    hide Steps, Unshadowed, Band.Channel, Band.Last;
    StepsGoRound(bands, b, k, up, b.Last() + 1);
    forall n: nat | n <= b.Last()
      ensures Steps(bands, b.Channel(k), up, n) == Some(b.Channel(j)) <==> n == Distance(b, k, up, j)
    {
      StepsGoRound(bands, b, k, up, n);
      if Moved(b, k, up, n) != j {
        ChannelsDiffer(b, Moved(b, k, up, n), j);
      }
    }
  }

  /** Bands that are disjoint shadow nothing. */
  lemma DisjointUnshadowed(bands: seq<Band>, b: Band)
    requires Disjoint(bands) && b in bands && b.spacing > 0 && b.lower <= b.upper
    ensures Unshadowed(bands, b)
  {
    hide Disjoint, Band.Channel, BandOf;
    forall k: nat | k <= b.Last()
      ensures BandOf(bands, b.Channel(k)) == Some(b)
    {
      ChannelContained(b, k);
      BandOfDisjoint(bands, b, b.Channel(k));
    }
  }

  /** A completed step puts the tuner on the target frequency, whether or not a program is there. */
  lemma StepLandsOnFrequency(programs: seq<Selector>, f: nat)
    requires f < LIMIT32
    ensures IdOf(Landing(programs, MakeAmFm(f)), AMFM_FREQUENCY) == Some(f)
  {
    FirstTunedIsProgram(programs, MakeAmFm(f));
    var sel := MakeAmFm(f);
    assert ([sel.primaryId] + sel.secondaryIds)[0] == sel.primaryId;
    if FirstTuned(programs, sel).Some? {
      AmFmTunesToFrequency(f, FirstTuned(programs, sel).value);
    }
  }
}
