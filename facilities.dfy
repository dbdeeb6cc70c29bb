/**
 * The facility catalog: each facility has a name, a pricing type and, for
 * the type "slot", a list of time-of-day rate slots.
 */
module Facilities {
  import opened Wrappers

  /** A time of day written as [hour, minute], as the catalog writes slot bounds. */
  datatype HourMinute = HourMinute(hour: int, minute: int)

  function Minutes(t: HourMinute): int {
    t.hour * 60 + t.minute
  }

  /** A rate slot: the span [start, end) of the day is charged at `rate` per hour. */
  datatype Slot = Slot(start: HourMinute, end: HourMinute, rate: real)

  function SlotStart(s: Slot): int { Minutes(s.start) }

  function SlotEnd(s: Slot): int { Minutes(s.end) }

  /**
   * A catalog entry. `kind` is the source's `type` field: "slot" for slot
   * pricing, "hour" for a flat hourly `rate`; any other value prices at 0.
   */
  datatype Facility = Facility(name: string, kind: string, slots: seq<Slot>, rate: real)

  /** `getFacilityConfig`: the first facility in catalog order whose name is `name`. */
  function FindFacility(facilities: seq<Facility>, name: string): (r: Option<Facility>)
    ensures r.None? <==> forall i :: 0 <= i < |facilities| ==> facilities[i].name != name
    ensures r.Some? ==> exists i :: 0 <= i < |facilities| && facilities[i] == r.value
                                    && r.value.name == name
                                    && forall j :: 0 <= j < i ==> facilities[j].name != name
  {
    if |facilities| == 0 then None
    else if facilities[0].name == name then Some(facilities[0])
    else
      var r := FindFacility(facilities[1..], name);
      assert forall i :: 1 <= i < |facilities| ==> facilities[i] == facilities[1..][i - 1];
      r
  }

  /** The Clubhouse of the seed catalog: 10:00-16:00 at 100 an hour, 16:00-22:00 at 500 an hour. */
  const Clubhouse := Facility("Clubhouse", "slot",
    [Slot(HourMinute(10, 0), HourMinute(16, 0), 100.0),
     Slot(HourMinute(16, 0), HourMinute(22, 0), 500.0)], 0.0)

  /** The Tennis Court of the seed catalog: 50 an hour. */
  const TennisCourt := Facility("Tennis Court", "hour", [], 50.0)

  const SeedFacilities := [Clubhouse, TennisCourt]
}
