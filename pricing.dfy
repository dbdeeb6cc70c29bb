/**
 * Pricing: `calculateCost` and the slot walk `calculateSlotCost`.
 * Minutes are integers and costs exact reals.
 */
module Pricing {
  import opened Wrappers
  import opened Facilities

  function Min(a: int, b: int): int { if a <= b then a else b }

  function Max(a: int, b: int): int { if a <= b then b else a }

  /** What a slot's rate charges for the minutes [from, to). */
  function Charge(rate: real, from: int, to: int): real {
    rate * (to - from) as real / 60.0
  }

  /** The test `find` applies to a slot: it overlaps what is left of the booking, [current, end). */
  predicate SlotMatches(s: Slot, current: int, end: int) {
    current < SlotEnd(s) && end > SlotStart(s)
  }

  /** The `find` of one walk step: the index of the first slot, in list order, that matches. */
  function FindSlot(slots: seq<Slot>, current: int, end: int): (r: Option<nat>)
    ensures r.Some? ==> r.value < |slots| && SlotMatches(slots[r.value], current, end)
    ensures r.Some? ==> forall j :: 0 <= j < r.value ==> !SlotMatches(slots[j], current, end)
    ensures r.None? ==> forall j :: 0 <= j < |slots| ==> !SlotMatches(slots[j], current, end)
  {
    if |slots| == 0 then None
    else if SlotMatches(slots[0], current, end) then Some(0)
    else match FindSlot(slots[1..], current, end)
      case None => None
      case Some(i) => Some(i + 1)
  }

  /**
   * The cost the walk accumulates from `current` to `end`: the first matching
   * slot is charged from `current` (not from its own start) up to
   * min(end, its end); the walk stops, charging nothing more, when no slot matches.
   */
  function SlotCost(slots: seq<Slot>, current: int, end: int): real
    decreases end - current
  {
    if current >= end then 0.0
    else match FindSlot(slots, current, end)
      case None => 0.0
      case Some(i) =>
        var overlapEnd := Min(end, SlotEnd(slots[i]));
        Charge(slots[i].rate, current, overlapEnd) + SlotCost(slots, overlapEnd, end)
  }

  /** What `calculateCost` returns for a facility and the span [start, end). */
  function Cost(f: Facility, start: int, end: int): real {
    if f.kind == "slot" then SlotCost(f.slots, start, end)
    else if f.kind == "hour" then f.rate * (end - start) as real / 60.0
    else 0.0
  }

  /** `calculateSlotCost`: the while loop that walks [start, end) slot by slot. */
  method CalculateSlotCost(f: Facility, start: int, end: int) returns (totalCost: real)
    ensures totalCost == SlotCost(f.slots, start, end)
  {
    totalCost := 0.0;
    var current := start;
    while current < end
      invariant current == start || start < current <= end
      invariant totalCost + SlotCost(f.slots, current, end) == SlotCost(f.slots, start, end)
      decreases end - current
    {
      var found := FindSlot(f.slots, current, end);
      if found.Some? {
        var slot := f.slots[found.value];
        var overlapEnd := Min(end, SlotEnd(slot));
        assert SlotCost(f.slots, current, end)
            == Charge(slot.rate, current, overlapEnd) + SlotCost(f.slots, overlapEnd, end);
        totalCost := totalCost + slot.rate * (overlapEnd - current) as real / 60.0;
        current := overlapEnd;
      } else {
        break;
      }
    }
  }

  /** `calculateCost`: slot pricing, flat hourly pricing, or 0 for any other type. */
  method CalculateCost(f: Facility, start: int, end: int) returns (totalCost: real)
    ensures f.kind == "slot" ==> totalCost == SlotCost(f.slots, start, end)
    ensures f.kind == "hour" ==> totalCost == f.rate * (end - start) as real / 60.0
    ensures f.kind != "slot" && f.kind != "hour" ==> totalCost == 0.0
    ensures totalCost == Cost(f, start, end)
  {
    totalCost := 0.0;
    if f.kind == "slot" {
      totalCost := CalculateSlotCost(f, start, end);
    } else if f.kind == "hour" {
      totalCost := f.rate * (end - start) as real / 60.0;
    }
  }
}

module PricingProperties {
  import opened Wrappers
  import opened Facilities
  import opened Pricing

  predicate NonNegativeRates(slots: seq<Slot>) {
    forall i :: 0 <= i < |slots| ==> slots[i].rate >= 0.0
  }

  /** Every slot spans at least one minute. */
  predicate WellFormedSlots(slots: seq<Slot>) {
    forall i :: 0 <= i < |slots| ==> SlotStart(slots[i]) < SlotEnd(slots[i])
  }

  /** Each slot begins exactly where the previous one ends, as in the Clubhouse catalog entry. */
  predicate Contiguous(slots: seq<Slot>) {
    forall i :: 0 <= i < |slots| - 1 ==> SlotEnd(slots[i]) == SlotStart(slots[i + 1])
  }

  /** Minutes that [s, e) shares with [a, b). */
  function Overlap(s: int, e: int, a: int, b: int): (n: int)
    ensures n >= 0
    ensures n > 0 <==> s < b && a < e && s < e && a < b
  {
    Max(0, Min(e, b) - Max(s, a))
  }

  /**
   * Reference pricing: every slot charges its rate for exactly the minutes of
   * [s, e) that fall inside it; minutes inside no slot are free.
   */
  function TierCharge(slots: seq<Slot>, s: int, e: int): real {
    if |slots| == 0 then 0.0
    else
      Charge(slots[0].rate, 0, Overlap(s, e, SlotStart(slots[0]), SlotEnd(slots[0])))
      + TierCharge(slots[1..], s, e)
  }

  /** With non-negative rates the walk never yields a negative cost. */
  lemma {:induction false} SlotCostNonNegative(slots: seq<Slot>, current: int, end: int)
    requires NonNegativeRates(slots)
    ensures SlotCost(slots, current, end) >= 0.0
    decreases end - current
  {
    if current < end {
      match FindSlot(slots, current, end)
      case None =>
      case Some(i) =>
        var overlapEnd := Min(end, SlotEnd(slots[i]));
        SlotCostNonNegative(slots, overlapEnd, end);
        assert slots[i].rate >= 0.0;
        assert Charge(slots[i].rate, current, overlapEnd) >= 0.0;
    }
  }

  /**
   * Time after the last slot is free: when every slot ends by `m`, extending
   * the booking from `m` to a later `end` does not change its cost.
   */
  lemma {:induction false} TrailingTimeIsFree(slots: seq<Slot>, current: int, m: int, end: int)
    requires WellFormedSlots(slots)
    requires forall i :: 0 <= i < |slots| ==> SlotEnd(slots[i]) <= m
    requires m <= end
    ensures SlotCost(slots, current, end) == SlotCost(slots, current, m)
    decreases end - current
  {
    if current >= m {
      if current < end {
        assert FindSlot(slots, current, end).None?;
      }
    } else {
      forall j | 0 <= j < |slots|
        ensures SlotMatches(slots[j], current, end) == SlotMatches(slots[j], current, m)
      {
      }
      FindSlotAgree(slots, current, end, m);
      match FindSlot(slots, current, end)
      case None =>
      case Some(i) =>
        assert Min(end, SlotEnd(slots[i])) == Min(m, SlotEnd(slots[i]));
        TrailingTimeIsFree(slots, Min(end, SlotEnd(slots[i])), m, end);
    }
  }

  /** Two walks whose match tests agree on every slot pick the same slot. */
  lemma {:induction false} FindSlotAgree(slots: seq<Slot>, current: int, end: int, end': int)
    requires forall j :: 0 <= j < |slots| ==> SlotMatches(slots[j], current, end) == SlotMatches(slots[j], current, end')
    ensures FindSlot(slots, current, end) == FindSlot(slots, current, end')
  {
    if |slots| > 0 && !SlotMatches(slots[0], current, end) {
      FindSlotAgree(slots[1..], current, end, end');
    }
  }

  /** A slot the walk has already passed is never matched again. */
  lemma {:induction false} SkipPassedSlot(t: Slot, rest: seq<Slot>, current: int, end: int)
    requires current >= SlotEnd(t)
    ensures SlotCost([t] + rest, current, end) == SlotCost(rest, current, end)
    decreases end - current
  {
    if current < end {
      var slots := [t] + rest;
      assert slots[1..] == rest;
      assert !SlotMatches(slots[0], current, end);
      match FindSlot(rest, current, end)
      case None =>
      case Some(i) =>
        assert FindSlot(slots, current, end) == Some(i + 1);
        SkipPassedSlot(t, rest, Min(end, SlotEnd(rest[i])), end);
    }
  }

  /** The reference charge is zero when the span is empty or ends before the first slot. */
  lemma {:induction false} NoChargeOutside(slots: seq<Slot>, s: int, e: int)
    requires WellFormedSlots(slots) && Contiguous(slots)
    requires s >= e || |slots| == 0 || e <= SlotStart(slots[0])
    ensures TierCharge(slots, s, e) == 0.0
  {
    if |slots| > 0 {
      assert Overlap(s, e, SlotStart(slots[0]), SlotEnd(slots[0])) == 0;
      NoChargeOutside(slots[1..], s, e);
    }
  }

  /** Moving the start of the span among points before every slot does not change the reference charge. */
  lemma {:induction false} TierChargeFromBefore(slots: seq<Slot>, s: int, s': int, e: int)
    requires WellFormedSlots(slots) && Contiguous(slots)
    requires |slots| == 0 || (s <= SlotStart(slots[0]) && s' <= SlotStart(slots[0]))
    ensures TierCharge(slots, s, e) == TierCharge(slots, s', e)
  {
    if |slots| > 0 {
      TierChargeFromBefore(slots[1..], s, s', e);
    }
  }

  /**
   * On contiguous slots, a booking that starts inside the first slot or later is
   * priced by the walk exactly as by the reference charge.
   */
  lemma {:induction false} WalkMatchesTierCharge(slots: seq<Slot>, current: int, end: int)
    requires WellFormedSlots(slots) && Contiguous(slots)
    requires |slots| == 0 || SlotStart(slots[0]) <= current
    ensures SlotCost(slots, current, end) == TierCharge(slots, current, end)
    decreases |slots|, 1
  {
    if |slots| == 0 {
    } else if current >= end {
      NoChargeOutside(slots, current, end);
    } else if current < SlotEnd(slots[0]) {
      WalkInsideFirstSlot(slots, current, end);
    } else {
      var t, rest := slots[0], slots[1..];
      assert slots == [t] + rest;
      SkipPassedSlot(t, rest, current, end);
      WalkMatchesTierCharge(rest, current, end);
      assert Overlap(current, end, SlotStart(t), SlotEnd(t)) == 0;
    }
  }

  /** The step of WalkMatchesTierCharge where the walk is inside the first slot. */
  lemma {:induction false} WalkInsideFirstSlot(slots: seq<Slot>, current: int, end: int)
    requires WellFormedSlots(slots) && Contiguous(slots)
    requires |slots| > 0 && SlotStart(slots[0]) <= current < SlotEnd(slots[0]) && current < end
    ensures SlotCost(slots, current, end) == TierCharge(slots, current, end)
    decreases |slots|, 0
  {
    var t, rest := slots[0], slots[1..];
    var overlapEnd := Min(end, SlotEnd(t));
    WalkStepInFirstSlot(slots, current, end);
    TierChargeFirstSlot(slots, current, end);
    if end <= SlotEnd(t) {
      NoChargeOutside(rest, current, end);
      assert SlotCost(slots, overlapEnd, end) == 0.0;
    } else {
      assert slots == [t] + rest;
      SkipPassedSlot(t, rest, SlotEnd(t), end);
      WalkMatchesTierCharge(rest, SlotEnd(t), end);
      TierChargeFromBefore(rest, SlotEnd(t), current, end);
    }
  }

  /** Inside the first slot, one walk step charges that slot from `current` to min(end, its end). */
  lemma WalkStepInFirstSlot(slots: seq<Slot>, current: int, end: int)
    requires |slots| > 0 && SlotStart(slots[0]) <= current < SlotEnd(slots[0]) && current < end
    ensures var overlapEnd := Min(end, SlotEnd(slots[0]));
      SlotCost(slots, current, end) == Charge(slots[0].rate, current, overlapEnd) + SlotCost(slots, overlapEnd, end)
  {
    assert FindSlot(slots, current, end) == Some(0);
  }

  /** Inside the first slot, the reference charge of that slot covers `current` to min(end, its end). */
  lemma TierChargeFirstSlot(slots: seq<Slot>, current: int, end: int)
    requires |slots| > 0 && SlotStart(slots[0]) <= current < SlotEnd(slots[0]) && current < end
    ensures var overlapEnd := Min(end, SlotEnd(slots[0]));
      TierCharge(slots, current, end) == Charge(slots[0].rate, current, overlapEnd) + TierCharge(slots[1..], current, end)
  {
    var t := slots[0];
    assert Overlap(current, end, SlotStart(t), SlotEnd(t)) == Min(end, SlotEnd(t)) - current;
  }

  /** A facility with non-negative rates never prices a forward span below zero. */
  lemma CostNonNegative(f: Facility, start: int, end: int)
    requires NonNegativeRates(f.slots) && f.rate >= 0.0 && start <= end
    ensures Cost(f, start, end) >= 0.0
  {
    if f.kind == "slot" {
      SlotCostNonNegative(f.slots, start, end);
    }
  }

  /** Flat hourly pricing is additive over adjacent spans. */
  lemma FlatCostAdditive(f: Facility, s: int, m: int, e: int)
    requires f.kind == "hour"
    ensures Cost(f, s, m) + Cost(f, m, e) == Cost(f, s, e)
  {
  }

  /** Seed scenario: the Clubhouse from 16:00 to 22:00 lies in the 500-an-hour slot and costs 3000. */
  lemma ClubhouseEveningCost()
    ensures Cost(Clubhouse, 16 * 60, 22 * 60) == 3000.0
  {
    assert FindSlot(Clubhouse.slots, 960, 1320) == Some(1);
  }

  /** The Clubhouse from 14:00 to 18:00 crosses both slots: 2 hours at 100 and 2 at 500. */
  lemma ClubhouseAcrossSlotsCost()
    ensures Cost(Clubhouse, 14 * 60, 18 * 60) == 1200.0
  {
    assert FindSlot(Clubhouse.slots, 840, 1080) == Some(0);
    assert FindSlot(Clubhouse.slots, 960, 1080) == Some(1);
  }

  /** Seed scenario: the Tennis Court from 16:00 to 20:00 at 50 an hour costs 200. */
  lemma TennisCourtCost()
    ensures Cost(TennisCourt, 16 * 60, 20 * 60) == 200.0
  {
  }

  /** A span that no slot overlaps is free: the walk finds no slot and charges nothing. */
  lemma UncoveredTimeIsFree(slots: seq<Slot>, s: int, e: int)
    requires forall i :: 0 <= i < |slots| ==> !SlotMatches(slots[i], s, e)
    ensures SlotCost(slots, s, e) == 0.0
  {
  }

  /** An instance: one 10:00-16:00 slot, booked 18:00-20:00, costs 0. */
  lemma HallEveningIsFree(rate: real)
    ensures Cost(Facility("Hall", "slot", [Slot(HourMinute(10, 0), HourMinute(16, 0), rate)], 0.0), 18 * 60, 20 * 60) == 0.0
  {
    assert FindSlot([Slot(HourMinute(10, 0), HourMinute(16, 0), rate)], 1080, 1200) == None;
  }

  /**
   * Time before the matched slot is billed at that slot's rate: the Clubhouse
   * from 08:00 to 12:00 costs 400 (4 hours at 100), whereas the minutes the
   * slots actually cover (10:00-12:00) charge 200.
   */
  lemma LeadingGapBilledAtSlotRate()
    ensures Cost(Clubhouse, 8 * 60, 12 * 60) == 400.0
    ensures TierCharge(Clubhouse.slots, 8 * 60, 12 * 60) == 200.0
  {
    assert FindSlot(Clubhouse.slots, 480, 720) == Some(0);
    assert Clubhouse.slots[1..][1..] == [];
  }
}
