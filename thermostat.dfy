/** The threshold classifier CThermostat (thermostat.h, thermostat.cpp):
    four "on" set-points, each with an "off" point at a fixed distance, the
    range-checked setters, and the classification of a temperature into
    cooling and heating regions A to E ('X' when the boundaries are out of
    order). Temperatures are degrees Fahrenheit, as reals. */
module Thermostat {
  import opened Station

  /** Distances between an "on" point and its "off" point. */
  const COOLING_SAFETY_HYSTERESIS: real := 5.0
  const COOLING_HYSTERESIS: real := 1.5
  const HEATING_SAFETY_HYSTERESIS: real := 5.0
  const HEATING_HYSTERESIS: real := 1.5

  /** Limits used by the setters' range checks. */
  const COOLING_MIN_TEMP: int := 60
  const COOLING_MAX_TEMP: int := 80
  const HEATING_MIN_TEMP: int := 60
  const HEATING_MAX_TEMP: int := 80

  /** The region letters, from region A upwards. */
  const REGIONS: string := "ABCDE"
  /** The region code for boundaries that are out of order. */
  const UNSORTED: char := 'X'

  /** The inclusive range test WITHIN(f, min, max); the limits of the
      safety setters are computed in floating point, so it compares reals. */
  predicate Within(f: real, min: real, max: real)
  {
    f >= min && f <= max
  }

  // ----- Regions -------------------------------------------------------

  /** The cooling boundaries are strictly increasing. */
  predicate CoolSorted(coolOff: real, coolSet: real, coolSafetyOff: real, coolSafety: real)
  {
    coolOff < coolSet && coolSet < coolSafetyOff && coolSafetyOff < coolSafety
  }

  /** The heating boundaries are strictly decreasing. */
  predicate HeatSorted(heatOff: real, heatSet: real, heatSafetyOff: real, heatSafety: real)
  {
    heatOff > heatSet && heatSet > heatSafetyOff && heatSafetyOff > heatSafety
  }

  /** How many of the boundaries bs lie at or below f. */
  function CountAtOrBelow(bs: seq<real>, f: real): (n: nat)
    ensures n <= |bs|
  {
    if bs == [] then 0
    else (if bs[0] <= f then 1 else 0) + CountAtOrBelow(bs[1..], f)
  }

  /** How many of the boundaries bs lie at or above f. */
  function CountAtOrAbove(bs: seq<real>, f: real): (n: nat)
    ensures n <= |bs|
  {
    if bs == [] then 0
    else (if bs[0] >= f then 1 else 0) + CountAtOrAbove(bs[1..], f)
  }

  /** The count over four boundaries, term by term. */
  lemma CountAtOrBelowOfFour(a: real, b: real, c: real, d: real, f: real)
    ensures CountAtOrBelow([a, b, c, d], f) ==
      (if a <= f then 1 else 0) + (if b <= f then 1 else 0) +
      (if c <= f then 1 else 0) + (if d <= f then 1 else 0)
  {
    assert [a, b, c, d][1..] == [b, c, d];
    assert [b, c, d][1..] == [c, d];
    assert [c, d][1..] == [d];
    assert [d][1..] == [];
    assert CountAtOrBelow([d], f) == (if d <= f then 1 else 0) + CountAtOrBelow([], f);
    assert CountAtOrBelow([c, d], f) == (if c <= f then 1 else 0) + CountAtOrBelow([d], f);
    assert CountAtOrBelow([b, c, d], f) == (if b <= f then 1 else 0) + CountAtOrBelow([c, d], f);
  }

  /** The count over four boundaries, term by term. */
  lemma CountAtOrAboveOfFour(a: real, b: real, c: real, d: real, f: real)
    ensures CountAtOrAbove([a, b, c, d], f) ==
      (if a >= f then 1 else 0) + (if b >= f then 1 else 0) +
      (if c >= f then 1 else 0) + (if d >= f then 1 else 0)
  {
    assert [a, b, c, d][1..] == [b, c, d];
    assert [b, c, d][1..] == [c, d];
    assert [c, d][1..] == [d];
    assert [d][1..] == [];
    assert CountAtOrAbove([d], f) == (if d >= f then 1 else 0) + CountAtOrAbove([], f);
    assert CountAtOrAbove([c, d], f) == (if c >= f then 1 else 0) + CountAtOrAbove([d], f);
    assert CountAtOrAbove([b, c, d], f) == (if b >= f then 1 else 0) + CountAtOrAbove([c, d], f);
  }

  /** The cooling region of f: with the boundaries in order, its letter is
      the number of boundaries at or below f (so a value on a boundary is in
      the upper region); otherwise 'X'. */
  function CoolRegion(coolOff: real, coolSet: real, coolSafetyOff: real, coolSafety: real, f: real): (c: char)
    ensures c == UNSORTED <==> !CoolSorted(coolOff, coolSet, coolSafetyOff, coolSafety)
    ensures CoolSorted(coolOff, coolSet, coolSafetyOff, coolSafety) ==>
      c == REGIONS[CountAtOrBelow([coolOff, coolSet, coolSafetyOff, coolSafety], f)]
  {
    CountAtOrBelowOfFour(coolOff, coolSet, coolSafetyOff, coolSafety, f);
    if CoolSorted(coolOff, coolSet, coolSafetyOff, coolSafety) then
      if f < coolOff then 'A'
      else if f < coolSet then 'B'
      else if f < coolSafetyOff then 'C'
      else if f < coolSafety then 'D'
      else 'E'
    else UNSORTED
  }

  /** The heating region of f: with the boundaries in order, its letter is
      the number of boundaries at or above f (so a value on a boundary is in
      the colder region); otherwise 'X'. */
  function HeatRegion(heatOff: real, heatSet: real, heatSafetyOff: real, heatSafety: real, f: real): (c: char)
    ensures c == UNSORTED <==> !HeatSorted(heatOff, heatSet, heatSafetyOff, heatSafety)
    ensures HeatSorted(heatOff, heatSet, heatSafetyOff, heatSafety) ==>
      c == REGIONS[CountAtOrAbove([heatOff, heatSet, heatSafetyOff, heatSafety], f)]
  {
    CountAtOrAboveOfFour(heatOff, heatSet, heatSafetyOff, heatSafety, f);
    if HeatSorted(heatOff, heatSet, heatSafetyOff, heatSafety) then
      if f > heatOff then 'A'
      else if f > heatSet then 'B'
      else if f > heatSafetyOff then 'C'
      else if f > heatSafety then 'D'
      else 'E'
    else UNSORTED
  }

  /** Raising the temperature never lowers the number of boundaries below it. */
  lemma {:induction false} CountAtOrBelowMonotone(bs: seq<real>, f: real, g: real)
    requires f <= g
    ensures CountAtOrBelow(bs, f) <= CountAtOrBelow(bs, g)
    decreases |bs|
  {
    if bs != [] {
      CountAtOrBelowMonotone(bs[1..], f, g);
    }
  }

  /** Raising the temperature never raises the number of boundaries above it. */
  lemma {:induction false} CountAtOrAboveAntitone(bs: seq<real>, f: real, g: real)
    requires f <= g
    ensures CountAtOrAbove(bs, f) >= CountAtOrAbove(bs, g)
    decreases |bs|
  {
    if bs != [] {
      CountAtOrAboveAntitone(bs[1..], f, g);
    }
  }

  /** For fixed boundaries, a warmer temperature never has a lower cooling letter. */
  lemma CoolRegionMonotone(coolOff: real, coolSet: real, coolSafetyOff: real, coolSafety: real, f: real, g: real)
    requires f <= g
    ensures CoolRegion(coolOff, coolSet, coolSafetyOff, coolSafety, f) <=
            CoolRegion(coolOff, coolSet, coolSafetyOff, coolSafety, g)
  {
    CountAtOrBelowMonotone([coolOff, coolSet, coolSafetyOff, coolSafety], f, g);
  }

  /** For fixed boundaries, a warmer temperature never has a higher heating letter. */
  lemma HeatRegionAntitone(heatOff: real, heatSet: real, heatSafetyOff: real, heatSafety: real, f: real, g: real)
    requires f <= g
    ensures HeatRegion(heatOff, heatSet, heatSafetyOff, heatSafety, f) >=
            HeatRegion(heatOff, heatSet, heatSafetyOff, heatSafety, g)
  {
    CountAtOrAboveAntitone([heatOff, heatSet, heatSafetyOff, heatSafety], f, g);
  }

  /** Cooling boundaries that are not strictly increasing switch the cooling
      classification off for every temperature. */
  lemma CoolUnsortedEverywhere(coolOff: real, coolSet: real, coolSafetyOff: real, coolSafety: real, f: real)
    requires coolSet >= coolSafetyOff
    ensures CoolRegion(coolOff, coolSet, coolSafetyOff, coolSafety, f) == UNSORTED
  {
  }

  // ----- The thermostat object -------------------------------------------

  /** All the fields of a CThermostat, for stating what a method leaves alone. */
  datatype Fields = Fields(
    coolSafety: real, coolSafetyOff: real, coolSet: real, coolOff: real,
    heatOff: real, heatSet: real, heatSafetyOff: real, heatSafety: real,
    coolRegion: char, coolPrevRegion: char, heatRegion: char, heatPrevRegion: char)

  class CThermostat {
    var coolSafety: real
    var coolSafetyOff: real
    var coolSet: real
    var coolOff: real

    var heatOff: real
    var heatSet: real
    var heatSafetyOff: real
    var heatSafety: real

    var coolRegion: char
    var coolPrevRegion: char
    var heatRegion: char
    var heatPrevRegion: char

    /** Each "off" point sits at its fixed distance from its "on" point. */
    predicate Valid()
      reads this
    {
      coolSet - coolOff == COOLING_HYSTERESIS &&
      coolSafety - coolSafetyOff == COOLING_SAFETY_HYSTERESIS &&
      heatOff - heatSet == HEATING_HYSTERESIS &&
      heatSafetyOff - heatSafety == HEATING_SAFETY_HYSTERESIS
    }

    function Snapshot(): Fields
      reads this
    {
      Fields(coolSafety, coolSafetyOff, coolSet, coolOff,
             heatOff, heatSet, heatSafetyOff, heatSafety,
             coolRegion, coolPrevRegion, heatRegion, heatPrevRegion)
    }

    /** A new thermostat holds the default set-points. */
    constructor ()
      ensures Valid()
      ensures Snapshot() == Fields(85.0, 80.0, 72.0, 70.5, 69.5, 68.0, 65.0, 60.0, 'X', 'X', 'X', 'X')
    {
      new;
      Reset();
    }

    /** Restores the default set-points and forgets the regions. */
    method Reset()
      modifies this
      ensures Valid()
      ensures Snapshot() == Fields(85.0, 80.0, 72.0, 70.5, 69.5, 68.0, 65.0, 60.0, 'X', 'X', 'X', 'X')
    {
      coolSafety := 85.0;
      coolSet := 72.0;
      heatSet := 68.0;
      heatSafety := 60.0;

      coolRegion := UNSORTED;
      coolPrevRegion := UNSORTED;
      heatRegion := UNSORTED;
      heatPrevRegion := UNSORTED;

      Hysteresis();
    }

    /** Derives the four "off" points from the "on" points. */
    method Hysteresis()
      modifies this
      ensures Valid()
      ensures Snapshot() == old(Snapshot()).(
        coolSafetyOff := coolSafety - COOLING_SAFETY_HYSTERESIS,
        coolOff := coolSet - COOLING_HYSTERESIS,
        heatSafetyOff := heatSafety + HEATING_SAFETY_HYSTERESIS,
        heatOff := heatSet + HEATING_HYSTERESIS)
    {
      coolSafetyOff := coolSafety - COOLING_SAFETY_HYSTERESIS;
      coolOff := coolSet - COOLING_HYSTERESIS;
      heatSafetyOff := heatSafety + HEATING_SAFETY_HYSTERESIS;
      heatOff := heatSet + HEATING_HYSTERESIS;
    }

    /** Classifies the temperature f; only the two region codes change. */
    method ComputeRegions(f: real)
      modifies this
      ensures Snapshot() == old(Snapshot()).(
        coolRegion := CoolRegion(coolOff, coolSet, coolSafetyOff, coolSafety, f),
        heatRegion := HeatRegion(heatOff, heatSet, heatSafetyOff, heatSafety, f))
    {
      coolRegion := CoolRegion(coolOff, coolSet, coolSafetyOff, coolSafety, f);
      heatRegion := HeatRegion(heatOff, heatSet, heatSafetyOff, heatSafety, f);
    }

    /** Accepts a cooling set-point of 60..80 and moves its "off" point with it. */
    method SetCool(f: uint32) returns (ok: bool)
      requires Valid()
      modifies this
      ensures Valid()
      ensures ok <==> 60 <= f <= 80
      ensures Snapshot() == if ok
        then old(Snapshot()).(coolSet := f as real, coolOff := f as real - COOLING_HYSTERESIS)
        else old(Snapshot())
    {
      if Within(f as real, COOLING_MIN_TEMP as real, COOLING_MAX_TEMP as real) {
        coolSet := f as real;
        coolOff := f as real - COOLING_HYSTERESIS;
        return true;
      }
      return false;
    }

    /** Accepts a heating set-point of 61..80 (the second test excludes 60)
        and moves its "off" point with it. */
    method SetHeat(f: uint32) returns (ok: bool)
      requires Valid()
      modifies this
      ensures Valid()
      ensures ok <==> 61 <= f <= 80
      ensures Snapshot() == if ok
        then old(Snapshot()).(heatSet := f as real, heatOff := f as real + HEATING_HYSTERESIS)
        else old(Snapshot())
    {
      if Within(f as real, HEATING_MIN_TEMP as real, HEATING_MAX_TEMP as real) {
        if f > 60 && f < 90 {
          heatSet := f as real;
          heatOff := f as real + HEATING_HYSTERESIS;
          return true;
        }
      }
      return false;
    }

    /** Accepts a cooling safety point of 55..85 and moves its "off" point with it. */
    method SetCoolSafety(f: uint32) returns (ok: bool)
      requires Valid()
      modifies this
      ensures Valid()
      ensures ok <==> 55 <= f <= 85
      ensures Snapshot() == if ok
        then old(Snapshot()).(coolSafety := f as real, coolSafetyOff := f as real - COOLING_SAFETY_HYSTERESIS)
        else old(Snapshot())
    {
      if Within(f as real, COOLING_MIN_TEMP as real - COOLING_SAFETY_HYSTERESIS,
                COOLING_MAX_TEMP as real + COOLING_SAFETY_HYSTERESIS) {
        coolSafety := f as real;
        coolSafetyOff := f as real - COOLING_SAFETY_HYSTERESIS;
        return true;
      }
      return false;
    }

    /** Accepts a heating safety point of 56..85 (the second test excludes 55)
        and moves its "off" point with it. */
    method SetHeatSafety(f: uint32) returns (ok: bool)
      requires Valid()
      modifies this
      ensures Valid()
      ensures ok <==> 56 <= f <= 85
      ensures Snapshot() == if ok
        then old(Snapshot()).(heatSafety := f as real, heatSafetyOff := f as real + HEATING_SAFETY_HYSTERESIS)
        else old(Snapshot())
    {
      if Within(f as real, HEATING_MIN_TEMP as real - HEATING_SAFETY_HYSTERESIS,
                HEATING_MAX_TEMP as real + HEATING_SAFETY_HYSTERESIS) {
        if f > 55 && f < 95 {
          heatSafety := f as real;
          heatSafetyOff := f as real + HEATING_SAFETY_HYSTERESIS;
          return true;
        }
      }
      return false;
    }
  }

  /** The setters do not keep the boundaries in order: after a reset,
      set_cool(80) is accepted and puts the cooling set-point on the cooling
      safety "off" point, after which every temperature classifies as 'X'. */
  method SetCoolToSafetyOff(f: real) returns (ok: bool, region: char)
    ensures ok && region == UNSORTED
  {
    var t := new CThermostat();
    ok := t.SetCool(80);
    t.ComputeRegions(f);
    region := t.coolRegion;
  }
}
