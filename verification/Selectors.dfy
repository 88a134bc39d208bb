/** Broadcast radio program selectors: identifiers, which selector tunes to which, and the order. */
module Selectors {
  import opened Bytes
  import opened Wrappers

  const INVALID := 0
  const AMFM_FREQUENCY := 1
  const RDS_PI := 2
  const HD_STATION_ID_EXT := 3
  const HD_STATION_NAME := 4
  const DAB_SID_EXT := 5
  const DAB_ENSEMBLE := 6
  const DAB_SCID := 7
  const DAB_FREQUENCY := 8
  const DRMO_SERVICE_ID := 9
  const DRMO_FREQUENCY := 10
  const SXM_SERVICE_ID := 12
  const SXM_CHANNEL := 13

  datatype Identifier = Identifier(type_: nat, value: uint64)

  datatype Selector = Selector(primaryId: Identifier, secondaryIds: seq<Identifier>)

  function FirstOfType(ids: seq<Identifier>, t: nat): Option<uint64> {
    if ids == [] then None
    else if ids[0].type_ == t then Some(ids[0].value)
    else FirstOfType(ids[1..], t)
  }

  /** The identifier of this type: the primary one, or else the first secondary one. */
  function IdOf(sel: Selector, t: nat): Option<uint64> {
    FirstOfType([sel.primaryId] + sel.secondaryIds, t)
  }

  predicate HasId(sel: Selector, t: nat) { IdOf(sel, t).Some? }

  /** `getId` with a default. */
  function GetId(sel: Selector, t: nat, default: uint64): uint64 {
    match IdOf(sel, t) case Some(v) => v case None => default
  }

  method MaybeGetId(sel: Selector, t: nat) returns (r: Option<uint64>)
    ensures r == IdOf(sel, t)
  {
    var all := [sel.primaryId] + sel.secondaryIds;
    if sel.primaryId.type_ == t {
      return Some(sel.primaryId.value);
    }
    assert all[1..] == sel.secondaryIds;
    for i := 0 to |sel.secondaryIds|
      invariant IdOf(sel, t) == FirstOfType(sel.secondaryIds[i..], t)
    {
      if sel.secondaryIds[i].type_ == t {
        return Some(sel.secondaryIds[i].value);
      }
      assert sel.secondaryIds[i..][1..] == sel.secondaryIds[i + 1..];
    }
    return None;
  }

  predicate HaveEqualIds(a: Selector, b: Selector, t: nat) {
    HasId(a, t) && HasId(b, t) && IdOf(a, t) == IdOf(b, t)
  }

  function HdSubchannel(sel: Selector): nat {
    GetId(sel, HD_STATION_ID_EXT, 0) / 0x1_0000_0000 % 16
  }

  predicate Terrestrial(t: nat) { t == HD_STATION_ID_EXT || t == RDS_PI || t == AMFM_FREQUENCY }

  predicate Supported(t: nat) {
    Terrestrial(t) || t == DAB_SID_EXT || t == DRMO_SERVICE_ID || t == SXM_SERVICE_ID
  }

  predicate TunesTo(a: Selector, b: Selector) {
    var t := b.primaryId.type_;
    if Terrestrial(t) then
      || HaveEqualIds(a, b, HD_STATION_ID_EXT)
      || HaveEqualIds(a, b, RDS_PI)
      || (HdSubchannel(b) == 0 && HaveEqualIds(a, b, AMFM_FREQUENCY))
    else Supported(t) && HaveEqualIds(a, b, t)
  }

  /** The order of programs: by type, then value, of the primary identifier. */
  predicate Less(a: Selector, b: Selector) {
    if a.primaryId.type_ != b.primaryId.type_ then a.primaryId.type_ < b.primaryId.type_
    else a.primaryId.value < b.primaryId.value
  }

  function MakeAmFm(frequency: nat): Selector {
    Selector(Identifier(AMFM_FREQUENCY, frequency % LIMIT32), [])
  }

  lemma SupportedTunesToItself(a: Selector)
    requires Supported(a.primaryId.type_)
    ensures TunesTo(a, a)
  {
    var all := [a.primaryId] + a.secondaryIds;
    assert all[0] == a.primaryId;
    assert IdOf(a, a.primaryId.type_) == Some(a.primaryId.value);
  }

  /** What an AM/FM selector tunes to has that frequency. */
  lemma AmFmTunesToFrequency(frequency: nat, p: Selector)
    requires TunesTo(MakeAmFm(frequency), p)
    ensures IdOf(p, AMFM_FREQUENCY) == Some(frequency % LIMIT32)
  {
    var sel := MakeAmFm(frequency);
    var all := [sel.primaryId] + sel.secondaryIds;
    assert all[1..] == [] && all[0] == sel.primaryId;
    assert forall t :: t != AMFM_FREQUENCY ==> IdOf(sel, t) == FirstOfType(all[1..], t) == None;
  }

  lemma AmFmTunesOnlyToEqual(f: nat, g: nat)
    ensures TunesTo(MakeAmFm(f), MakeAmFm(g)) <==> f % LIMIT32 == g % LIMIT32
  {
    var a, b := MakeAmFm(f), MakeAmFm(g);
    SupportedTunesToItself(a);
    assert IdOf(b, AMFM_FREQUENCY) == Some(g % LIMIT32) by {
      assert ([b.primaryId] + b.secondaryIds)[0] == b.primaryId;
    }
    if TunesTo(a, b) {
      AmFmTunesToFrequency(f, b);
    }
  }

  /** `VirtualRadio::getProgram`: the first program in list order that the selector tunes to. */
  function FirstTuned(programs: seq<Selector>, sel: Selector): Option<Selector> {
    if programs == [] then None
    else if TunesTo(sel, programs[0]) then Some(programs[0])
    else FirstTuned(programs[1..], sel)
  }

  method GetProgram(programs: seq<Selector>, sel: Selector) returns (r: Option<Selector>)
    ensures r == FirstTuned(programs, sel)
  {
    for i := 0 to |programs|
      invariant FirstTuned(programs, sel) == FirstTuned(programs[i..], sel)
    {
      assert programs[i..][1..] == programs[i + 1..];
      if TunesTo(sel, programs[i]) {
        return Some(programs[i]);
      }
    }
    return None;
  }

  lemma {:induction false} FirstTunedIsProgram(programs: seq<Selector>, sel: Selector)
    ensures var r := FirstTuned(programs, sel);
      && (r.Some? ==> r.value in programs && TunesTo(sel, r.value))
      && (r.None? ==> forall p :: p in programs ==> !TunesTo(sel, p))
  {
    hide TunesTo;
    if programs != [] {
      FirstTunedIsProgram(programs[1..], sel);
    }
  }

  /** Where tuning to `sel` ends up: on a program if there is one, else on the selector itself. */
  function Landing(programs: seq<Selector>, sel: Selector): Selector {
    match FirstTuned(programs, sel) case Some(p) => p case None => sel
  }

  /** The programs of the built-in AM/FM radio. */
  const AM_FM_PROGRAMS := [MakeAmFm(94900), MakeAmFm(96500), MakeAmFm(97300), MakeAmFm(99700),
                           MakeAmFm(101300), MakeAmFm(103700), MakeAmFm(106100)]

  // ----- the numbers themselves

  /** The identifiers of one type, in the order in which they are looked at. */
  lemma {:induction false} FirstOfTypeExactly(ids: seq<Identifier>, t: nat, i: nat)
    requires i < |ids| && ids[i].type_ == t && forall j :: 0 <= j < i ==> ids[j].type_ != t
    ensures FirstOfType(ids, t) == Some(ids[i].value)
  {
    if i > 0 {
      FirstOfTypeExactly(ids[1..], t, i - 1);
    }
  }

  lemma {:induction false} NoneOfTypeExactly(ids: seq<Identifier>, t: nat)
    ensures FirstOfType(ids, t).None? <==> forall i :: 0 <= i < |ids| ==> ids[i].type_ != t
  {
    if ids != [] {
      NoneOfTypeExactly(ids[1..], t);
      assert forall i :: 0 < i < |ids| ==> ids[i] == ids[1..][i - 1];
    }
  }

  /** Which identifier a selector has of a type: the primary one, else the first secondary one. */
  lemma IdExactly(sel: Selector, t: nat)
    ensures sel.primaryId.type_ == t ==> IdOf(sel, t) == Some(sel.primaryId.value)
    ensures sel.primaryId.type_ != t ==> IdOf(sel, t) == FirstOfType(sel.secondaryIds, t)
  {
    var all := [sel.primaryId] + sel.secondaryIds;
    assert all[0] == sel.primaryId && all[1..] == sel.secondaryIds;
  }

  /** The rule for a terrestrial program `b`, types 1 to 3, over the values found: equal HD station
      identifiers, equal RDS codes, or equal frequencies if the HD subchannel of `b`, four bits above
      the 32 of the station number, is 0 or `b` has none. */
  lemma TerrestrialExactly(a: Selector, b: Selector)
    requires b.primaryId.type_ in {1, 2, 3}
    ensures TunesTo(a, b) <==>
      || (IdOf(a, 3).Some? && IdOf(a, 3) == IdOf(b, 3))
      || (IdOf(a, 2).Some? && IdOf(a, 2) == IdOf(b, 2))
      || (IdOf(a, 1).Some? && IdOf(a, 1) == IdOf(b, 1)
          && (IdOf(b, 3).None? || IdOf(b, 3).value / 0x1_0000_0000 % 16 == 0))
  {
  }

  /** The other supported types, 5, 9 and 12, are compared by their own value; no program of another
      type is ever tuned to. */
  lemma OtherExactly(a: Selector, b: Selector)
    requires b.primaryId.type_ !in {1, 2, 3}
    ensures TunesTo(a, b) <==>
      b.primaryId.type_ in {5, 9, 12} && IdOf(a, b.primaryId.type_) == Some(b.primaryId.value)
  {
    IdExactly(b, b.primaryId.type_);
  }

  /** A selector without terrestrial identifiers finds no terrestrial program. */
  lemma {:induction false} NoTerrestrialFound(programs: seq<Selector>, sel: Selector)
    requires IdOf(sel, 1).None? && IdOf(sel, 2).None? && IdOf(sel, 3).None?
    ensures var r := FirstTuned(programs, sel);
      r.Some? ==> r.value.primaryId.type_ in {5, 9, 12}
  {
    hide TunesTo;
    FirstTunedIsProgram(programs, sel);
    if FirstTuned(programs, sel).Some? {
      var p := FirstTuned(programs, sel).value;
      if p.primaryId.type_ in {1, 2, 3} {
        TerrestrialExactly(sel, p);
      } else {
        OtherExactly(sel, p);
      }
    }
  }

  /** The first program with that primary identifier. */
  function FirstWith(programs: seq<Selector>, id: Identifier): Option<Selector> {
    if programs == [] then None
    else if programs[0].primaryId == id then Some(programs[0])
    else FirstWith(programs[1..], id)
  }

  /** Among any programs, a selector whose only identifier has type 5, 9 or 12 finds the first program
      with this primary identifier. */
  lemma {:induction false} FirstTunedExactly(programs: seq<Selector>, id: Identifier)
    requires id.type_ in {5, 9, 12}
    ensures FirstTuned(programs, Selector(id, [])) == FirstWith(programs, id)
  {
    hide TunesTo;
    if programs != [] {
      FirstTunedExactly(programs[1..], id);
      OnlyItself(id, programs[0]);
    }
  }

  lemma OnlyItself(id: Identifier, p: Selector)
    requires id.type_ in {5, 9, 12}
    ensures TunesTo(Selector(id, []), p) <==> p.primaryId == id
  {
    var sel := Selector(id, []);
    assert forall t :: IdOf(sel, t) == if t == id.type_ then Some(id.value) else None by {
      forall t ensures IdOf(sel, t) == if t == id.type_ then Some(id.value) else None { IdExactly(sel, t); }
    }
    if p.primaryId.type_ in {1, 2, 3} {
      TerrestrialExactly(sel, p);
    } else {
      OtherExactly(sel, p);
    }
  }

  /** The order, by the numbers of the types. */
  lemma LessExactly(a: Selector, b: Selector)
    ensures Less(a, b) <==>
      || a.primaryId.type_ < b.primaryId.type_
      || (a.primaryId.type_ == b.primaryId.type_ && a.primaryId.value < b.primaryId.value)
  {
  }

  function MakeDab(sidExt: nat, ensemble: nat): Selector {
    Selector(Identifier(DAB_SID_EXT, sidExt % LIMIT32), [Identifier(DAB_ENSEMBLE, ensemble % LIMIT32)])
  }

  /** The programs of the built-in DAB radio. */
  const DAB_PROGRAMS := [MakeDab(12345, 225648), MakeDab(22345, 222064), MakeDab(32345, 222064)]

  lemma DabIdentifiers(sidExt: nat, ensemble: nat, t: nat)
    ensures IdOf(MakeDab(sidExt, ensemble), t) ==
      if t == 5 then Some(sidExt % 0x1_0000_0000) else if t == 6 then Some(ensemble % 0x1_0000_0000) else None
  {
    var sel := MakeDab(sidExt, ensemble);
    IdExactly(sel, t);
    assert sel.secondaryIds[1..] == [];
  }

  lemma AmFmIdentifiers(frequency: nat, t: nat)
    ensures IdOf(MakeAmFm(frequency), t) == if t == 1 then Some(frequency % 0x1_0000_0000) else None
  {
    IdExactly(MakeAmFm(frequency), t);
  }

  // ----- program filters

  /** What a client asks to see of the program list; empty lists of types or identifiers ask nothing. */
  datatype Filter = Filter(identifierTypes: seq<nat>, identifiers: seq<Identifier>, includeCategories: bool)

  /** All identifiers of a selector, the primary one first, as the iterator visits them. */
  function Identifiers(sel: Selector): seq<Identifier> { [sel.primaryId] + sel.secondaryIds }

  predicate HasOneOfTypes(sel: Selector, types: seq<nat>) {
    exists id :: id in Identifiers(sel) && id.type_ in types
  }

  predicate HasOneOf(sel: Selector, ids: seq<Identifier>) {
    exists id :: id in Identifiers(sel) && id in ids
  }

  predicate Satisfies(filter: Filter, sel: Selector) {
    && (filter.identifierTypes == [] || HasOneOfTypes(sel, filter.identifierTypes))
    && (filter.identifiers == [] || HasOneOf(sel, filter.identifiers))
    && (filter.includeCategories || sel.primaryId.type_ != DAB_ENSEMBLE)
  }

  /** The filter over the primary identifier and the secondary ones; categories are programs whose
      primary identifier has type 6. */
  lemma SatisfiesExactly(filter: Filter, sel: Selector)
    ensures Satisfies(filter, sel) <==>
      && (filter.identifierTypes == [] || sel.primaryId.type_ in filter.identifierTypes
          || exists i :: 0 <= i < |sel.secondaryIds| && sel.secondaryIds[i].type_ in filter.identifierTypes)
      && (filter.identifiers == [] || sel.primaryId in filter.identifiers
          || exists i :: 0 <= i < |sel.secondaryIds| && sel.secondaryIds[i] in filter.identifiers)
      && (filter.includeCategories || sel.primaryId.type_ != 6)
  {
    assert forall id :: id in Identifiers(sel) <==> id == sel.primaryId || id in sel.secondaryIds;
  }

  /** The programs that satisfy the filter, in order. */
  function Filtered(filter: Filter, programs: seq<Selector>): (r: seq<Selector>)
    ensures |r| <= |programs|
  {
    if programs == [] then []
    else (if Satisfies(filter, programs[0]) then [programs[0]] else []) + Filtered(filter, programs[1..])
  }

  /** Filtering keeps the list as it is exactly if every program satisfies the filter. */
  lemma {:induction false} FilteredIsWhole(filter: Filter, programs: seq<Selector>)
    ensures Filtered(filter, programs) == programs <==> forall p :: p in programs ==> Satisfies(filter, p)
  {
    hide Satisfies;
    if programs != [] {
      FilteredIsWhole(filter, programs[1..]);
      assert programs == [programs[0]] + programs[1..];
      if Satisfies(filter, programs[0]) {
        assert Filtered(filter, programs)[1..] == Filtered(filter, programs[1..]);
      } else {
        assert programs[0] in programs;
        assert |Filtered(filter, programs)| < |programs|;
      }
    }
  }

  /** `satisfies`: two searches over the identifiers and the test for categories. */
  method CheckSatisfies(filter: Filter, sel: Selector) returns (r: bool)
    ensures r == Satisfies(filter, sel)
  {
    var ids := Identifiers(sel);
    if |filter.identifierTypes| > 0 {
      var i := 0;
      while i < |ids| && ids[i].type_ !in filter.identifierTypes
        invariant 0 <= i <= |ids|
        invariant forall k :: 0 <= k < i ==> ids[k].type_ !in filter.identifierTypes
      {
        i := i + 1;
      }
      if i == |ids| {
        return false;
      }
    }
    if |filter.identifiers| > 0 {
      var i := 0;
      while i < |ids| && ids[i] !in filter.identifiers
        invariant 0 <= i <= |ids|
        invariant forall k :: 0 <= k < i ==> ids[k] !in filter.identifiers
      {
        i := i + 1;
      }
      if i == |ids| {
        return false;
      }
    }
    if !filter.includeCategories {
      if sel.primaryId.type_ == DAB_ENSEMBLE {
        return false;
      }
    }
    return true;
  }

  /** `copy_if` with the filter. */
  method FilterPrograms(filter: Filter, programs: seq<Selector>) returns (filtered: seq<Selector>)
    ensures filtered == Filtered(filter, programs)
  {
    hide Satisfies, Filtered;
    filtered := [];
    assert programs[0..] == programs;
    for i := 0 to |programs|
      invariant filtered + Filtered(filter, programs[i..]) == Filtered(filter, programs)
    {
      FilteredFrom(filter, programs, i);
      ghost var rest := Filtered(filter, programs[i + 1..]);
      var satisfied := CheckSatisfies(filter, programs[i]);
      if satisfied {
        assert filtered + ([programs[i]] + rest) == (filtered + [programs[i]]) + rest;
        filtered := filtered + [programs[i]];
      }
    }
    assert programs[|programs|..] == [];
    FilteredNothing(filter);
  }

  lemma FilteredFrom(filter: Filter, programs: seq<Selector>, i: nat)
    requires i < |programs|
    ensures var rest := Filtered(filter, programs[i + 1..]);
      Filtered(filter, programs[i..]) == if Satisfies(filter, programs[i]) then [programs[i]] + rest else rest
  {
    hide Satisfies;
    assert programs[i..][1..] == programs[i + 1..];
  }

  lemma FilteredNothing(filter: Filter)
    ensures Filtered(filter, []) == []
  {
  }
}

/** `scan`: the next program up or down from any selector. */
module Seeking {
  import opened Bytes
  import opened Wrappers
  import opened Selectors

  ghost predicate Sorted(list: seq<Selector>) {
    forall i, j :: 0 <= i < j < |list| ==> !Less(list[j], list[i])
  }

  ghost predicate IsSortOf(list: seq<Selector>, programs: seq<Selector>) {
    Sorted(list) && multiset(list) == multiset(programs)
  }

  /** The first position whose program is not less than `current`. */
  function LowerBound(list: seq<Selector>, current: Selector): (n: nat)
    ensures n <= |list|
  {
    if list == [] || !Less(list[0], current) then 0 else 1 + LowerBound(list[1..], current)
  }

  function SeekIndex(list: seq<Selector>, current: Selector, up: bool): (n: nat)
    requires list != []
    ensures n < |list|
  {
    var found, last := LowerBound(list, current), |list| - 1;
    if up then
      if found < last then (if TunesTo(current, list[found]) then found + 1 else found) else 0
    else
      if 0 < found <= last then found - 1 else last
  }

  lemma {:induction false} LowerBoundSplits(list: seq<Selector>, current: Selector)
    requires Sorted(list)
    ensures var n := LowerBound(list, current);
      && (forall i :: 0 <= i < n ==> Less(list[i], current))
      && (forall i :: n <= i < |list| ==> !Less(list[i], current))
  {
    if list != [] && Less(list[0], current) {
      LowerBoundSplits(list[1..], current);
      assert forall i :: 0 < i < |list| ==> list[i] == list[1..][i - 1];
    }
  }

  /** From any selector, seek down goes to the greatest program below it, or to the last one. */
  lemma SeekDownIsGreatestBelow(list: seq<Selector>, current: Selector)
    requires list != [] && Sorted(list)
    ensures var t := list[SeekIndex(list, current, false)];
      && (Less(t, current) || forall p :: p in list ==> !Less(p, current))
      && (forall p :: p in list && Less(p, current) ==> !Less(t, p))
      && (!Less(t, current) ==> t == list[|list| - 1])
  {
    LowerBoundSplits(list, current);
  }

  /** The station that seek up should find: the first one from the current position on that the
      current selector does not tune to already, or the first of all. */
  function NextStation(list: seq<Selector>, current: Selector, from: nat): nat
    requires from <= |list|
    decreases |list| - from
  {
    if from == |list| then 0
    else if !TunesTo(current, list[from]) then from
    else NextStation(list, current, from + 1)
  }

  /** Seek up finds it from exactly those selectors that are not strictly between the last two
      programs and do not tune to two neighbours at once. */
  lemma SeekUpIsNextStation(list: seq<Selector>, current: Selector)
    requires list != []
    ensures var n, last := LowerBound(list, current), |list| - 1;
      SeekIndex(list, current, true) == NextStation(list, current, n) <==>
        && !(0 < n == last && !TunesTo(current, list[last]))
        && !(n < last && TunesTo(current, list[n]) && TunesTo(current, list[n + 1]))
  {
    var n, last := LowerBound(list, current), |list| - 1;
    if n < last && TunesTo(current, list[n]) && TunesTo(current, list[n + 1]) {
      NextStationBeyond(list, current, n + 2);
    }
  }

  lemma {:induction false} NextStationBeyond(list: seq<Selector>, current: Selector, from: nat)
    requires from <= |list|
    ensures NextStation(list, current, from) == 0 || NextStation(list, current, from) >= from
    decreases |list| - from
  {
    if from < |list| {
      NextStationBeyond(list, current, from + 1);
    }
  }

  /** From 105.0 MHz on the built-in AM/FM radio the last station, 106.1, is skipped. */
  lemma SeekUpSkipsLastStation()
    ensures var current := MakeAmFm(105000);
      && LowerBound(AM_FM_PROGRAMS, current) == 6
      && NextStation(AM_FM_PROGRAMS, current, 6) == 6
      && SeekIndex(AM_FM_PROGRAMS, current, true) == 0
  {
    hide TunesTo;
    var current := MakeAmFm(105000);
    assert Sorted(AM_FM_PROGRAMS);
    LowerBoundSplits(AM_FM_PROGRAMS, current);
    assert !Less(AM_FM_PROGRAMS[6], current) && Less(AM_FM_PROGRAMS[5], current);
    AmFmTunesOnlyToEqual(105000, 106100);
  }

  // ----- radios whose programs do not overlap

  /** Distinct primary identifiers of supported types, and no program tunes to another. */
  ghost predicate Separate(list: seq<Selector>) {
    && (forall i :: 0 <= i < |list| ==> Supported(list[i].primaryId.type_))
    && (forall i, j :: 0 <= i < |list| && 0 <= j < |list| && i != j ==> list[i].primaryId != list[j].primaryId)
    && (forall i, j :: 0 <= i < |list| && 0 <= j < |list| && i != j ==> !TunesTo(list[i], list[j]))
  }

  /** A completed seek: the target is looked up in the program list in its original order. */
  function CompletedSeek(programs: seq<Selector>, list: seq<Selector>, current: Selector, up: bool): Selector
    requires list != []
  {
    Landing(programs, list[SeekIndex(list, current, up)])
  }

  lemma LowerBoundOfStation(list: seq<Selector>, i: nat)
    requires Sorted(list) && Separate(list) && i < |list|
    ensures LowerBound(list, list[i]) == i
  {
    hide TunesTo, Supported;
    LowerBoundSplits(list, list[i]);
    assert !Less(list[i], list[i]);
    if i > 0 {
      assert !Less(list[i], list[i - 1]) && list[i - 1].primaryId != list[i].primaryId;
      assert Less(list[i - 1], list[i]);
    }
  }

  lemma StationLandsOnItself(programs: seq<Selector>, list: seq<Selector>, i: nat)
    requires multiset(list) == multiset(programs) && Separate(list) && i < |list|
    ensures Landing(programs, list[i]) == list[i]
  {
    hide TunesTo, Supported;
    SupportedTunesToItself(list[i]);
    FirstTunedIsProgram(programs, list[i]);
    assert list[i] in multiset(programs);
    var p := FirstTuned(programs, list[i]).value;
    assert p in multiset(list);
    var j :| 0 <= j < |list| && list[j] == p;
  }

  /** From a station, seeks go round the sorted list, one place up or down. */
  lemma SeekFromStation(programs: seq<Selector>, list: seq<Selector>, i: nat)
    requires IsSortOf(list, programs) && Separate(list) && i < |list|
    ensures CompletedSeek(programs, list, list[i], true) == list[if i + 1 < |list| then i + 1 else 0]
    ensures CompletedSeek(programs, list, list[i], false) == list[if i > 0 then i - 1 else |list| - 1]
  {
    hide TunesTo, Supported, Landing, LowerBound;
    LowerBoundOfStation(list, i);
    SupportedTunesToItself(list[i]);
    StationLandsOnItself(programs, list, if i + 1 < |list| then i + 1 else 0);
    StationLandsOnItself(programs, list, if i > 0 then i - 1 else |list| - 1);
  }

  /** AM/FM programs on increasing frequencies make one, and are sorted as they stand. */
  lemma AmFmIsSeparate(frequencies: seq<uint32>, list: seq<Selector>)
    requires forall i, j :: 0 <= i < j < |frequencies| ==> frequencies[i] < frequencies[j]
    requires |list| == |frequencies| && forall i :: 0 <= i < |list| ==> list[i] == MakeAmFm(frequencies[i])
    ensures Separate(list) && IsSortOf(list, list)
  {
    hide TunesTo;
    forall i, j | 0 <= i < |list| && 0 <= j < |list| && i != j
      ensures list[i].primaryId != list[j].primaryId && !TunesTo(list[i], list[j])
    {
      assert frequencies[i] != frequencies[j] by { assert if i < j then frequencies[i] < frequencies[j] else frequencies[j] < frequencies[i]; }
      AmFmTunesOnlyToEqual(frequencies[i], frequencies[j]);
    }
  }

  lemma BuiltInIsSeparate()
    ensures Separate(AM_FM_PROGRAMS) && IsSortOf(AM_FM_PROGRAMS, AM_FM_PROGRAMS)
  {
    hide Separate, IsSortOf;
    AmFmIsSeparate([94900, 96500, 97300, 99700, 101300, 103700, 106100], AM_FM_PROGRAMS);
  }

  /** The built-in DAB radio is another. */
  lemma DabIsSeparate()
    ensures Separate(DAB_PROGRAMS) && IsSortOf(DAB_PROGRAMS, DAB_PROGRAMS)
  {
    hide TunesTo;
    var list := DAB_PROGRAMS;
    forall i, j | 0 <= i < 3 && 0 <= j < 3 && i != j
      ensures list[i].primaryId != list[j].primaryId && !TunesTo(list[i], list[j])
    {
      OtherExactly(list[i], list[j]);
      IdExactly(list[i], 5);
    }
  }

  /** Seeks on it: Radio 1, Classic FM, Absolute Radio and round. */
  lemma DabSeeks(i: nat)
    requires i < 3
    ensures |DAB_PROGRAMS| == 3 && IdOf(DAB_PROGRAMS[i], 5) == Some([12345, 22345, 32345][i])
    ensures var next, before := (i + 1) % 3, (i + 2) % 3;
      && CompletedSeek(DAB_PROGRAMS, DAB_PROGRAMS, DAB_PROGRAMS[i], true) == DAB_PROGRAMS[next]
      && CompletedSeek(DAB_PROGRAMS, DAB_PROGRAMS, DAB_PROGRAMS[i], false) == DAB_PROGRAMS[before]
  {
    hide CompletedSeek, Separate, IsSortOf;
    DabIsSeparate();
    IdExactly(DAB_PROGRAMS[i], 5);
    SeekFromStation(DAB_PROGRAMS, DAB_PROGRAMS, i);
  }

  /** Seek down undoes seek up and the other way round. */
  lemma SeekDownUndoesUp(programs: seq<Selector>, list: seq<Selector>, i: nat, up: bool)
    requires IsSortOf(list, programs) && Separate(list) && i < |list|
    ensures CompletedSeek(programs, list, CompletedSeek(programs, list, list[i], up), !up) == list[i]
  {
    hide CompletedSeek, Separate, IsSortOf;
    SeekFromStation(programs, list, i);
    SeekFromStation(programs, list, if i + 1 < |list| then i + 1 else 0);
    SeekFromStation(programs, list, if i > 0 then i - 1 else |list| - 1);
  }

  /** Where `k` completed seeks up lead. */
  function Seeks(programs: seq<Selector>, list: seq<Selector>, current: Selector, k: nat): Selector
    requires list != []
  {
    if k == 0 then current else CompletedSeek(programs, list, Seeks(programs, list, current, k - 1), true)
  }

  /** As many seeks up as there are programs visit each of them once and return to the start. */
  lemma SeeksVisitAll(programs: seq<Selector>, list: seq<Selector>, i: nat, j: nat)
    requires IsSortOf(list, programs) && Separate(list) && i < |list| && j < |list|
    ensures Seeks(programs, list, list[i], |list|) == list[i]
    ensures exists k: nat ::
              && k < |list| && Seeks(programs, list, list[i], k) == list[j]
              && forall k': nat :: k' < |list| && Seeks(programs, list, list[i], k') == list[j] ==> k' == k
  {
    hide Seeks, Separate, IsSortOf;
    var n := |list|;
    SeeksGoRound(programs, list, i, n);
    var k := if i <= j then j - i else j + n - i;
    SeeksGoRound(programs, list, i, k);
    forall k': nat | k' < n && Seeks(programs, list, list[i], k') == list[j]
      ensures k' == k
    {
      SeeksGoRound(programs, list, i, k');
      DistinctPlaces(list, if i + k' < n then i + k' else i + k' - n, j);
    }
  }

  lemma DistinctPlaces(list: seq<Selector>, i: nat, j: nat)
    requires Separate(list) && i < |list| && j < |list| && list[i] == list[j]
    ensures i == j
  {
  }

  lemma {:induction false} SeeksGoRound(programs: seq<Selector>, list: seq<Selector>, i: nat, k: nat)
    requires IsSortOf(list, programs) && Separate(list) && i < |list| && k <= |list|
    ensures Seeks(programs, list, list[i], k) == list[if i + k < |list| then i + k else i + k - |list|]
  {
    hide CompletedSeek, Separate, IsSortOf;
    if k > 0 {
      SeeksGoRound(programs, list, i, k - 1);
      SeekFromStation(programs, list, if i + (k - 1) < |list| then i + (k - 1) else i + (k - 1) - |list|);
    }
  }

  // ----- the code

  /** `std::sort` by its contract. */
  method Sort(programs: seq<Selector>) returns (list: seq<Selector>)
    ensures IsSortOf(list, programs)
  {
    list := [];
    for i := 0 to |programs|
      invariant Sorted(list) && multiset(list) == multiset(programs[..i])
    {
      var k := |list|;
      while k > 0 && Less(programs[i], list[k - 1])
        invariant 0 <= k <= |list|
        invariant forall j :: k <= j < |list| ==> Less(programs[i], list[j])
      {
        k := k - 1;
      }
      list := Inserted(list, k, programs[i]);
      assert programs[..i + 1] == programs[..i] + [programs[i]];
    }
    assert programs[..|programs|] == programs;
  }

  function Inserted(list: seq<Selector>, k: nat, x: Selector): (r: seq<Selector>)
    requires k <= |list| && Sorted(list)
    requires forall j :: k <= j < |list| ==> Less(x, list[j])
    requires k > 0 ==> !Less(x, list[k - 1])
    ensures Sorted(r) && multiset(r) == multiset(list) + multiset{x}
  {
    hide Less;
    InsertedIsSorted(list, k, x);
    InsertedMultiset(list, k, x);
    list[..k] + [x] + list[k..]
  }

  lemma InsertedMultiset<T>(list: seq<T>, k: nat, x: T)
    requires k <= |list|
    ensures multiset(list[..k] + [x] + list[k..]) == multiset(list) + multiset{x}
  {
    assert list == list[..k] + list[k..];
  }

  lemma InsertedIsSorted(list: seq<Selector>, k: nat, x: Selector)
    requires k <= |list| && Sorted(list)
    requires forall j :: k <= j < |list| ==> Less(x, list[j])
    requires k > 0 ==> !Less(x, list[k - 1])
    ensures Sorted(list[..k] + [x] + list[k..])
  {
    var r := list[..k] + [x] + list[k..];
    forall i, j | 0 <= i < j < |r|
      ensures !Less(r[j], r[i])
    {
      if j == k && i < k - 1 {
        assert !Less(list[k - 1], list[i]);
      }
    }
  }

  /** The target of a seek: sort, search, step. */
  method SeekTarget(programs: seq<Selector>, current: Selector, up: bool)
      returns (target: Selector, list: seq<Selector>)
    requires programs != []
    ensures IsSortOf(list, programs) && list != []
    ensures target == list[SeekIndex(list, current, up)]
  {
    var sorted := Sort(programs);
    list := sorted;
    assert |multiset(sorted)| == |sorted| && |multiset(programs)| == |programs|;
    var found := 0;
    while found < |sorted| && Less(sorted[found], current)
      invariant 0 <= found <= |sorted|
      invariant LowerBound(sorted, current) == found + LowerBound(sorted[found..], current)
    {
      assert sorted[found..][1..] == sorted[found + 1..];
      found := found + 1;
    }
    if up {
      if found < |sorted| - 1 {
        if TunesTo(current, sorted[found]) {
          found := found + 1;
        }
      } else {
        found := 0;
      }
    } else {
      if found > 0 && found != |sorted| {
        found := found - 1;
      } else {
        found := |sorted| - 1;
      }
    }
    target := sorted[found];
  }
}
