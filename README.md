# Facility booking module — a verified Dafny model

`FacilityBookingModule` books community facilities (a Clubhouse, a Tennis
Court) by name, date and a start and end time written "HH:MM". Each facility
comes from a catalog and has a pricing type:

- "slot": priced by time-of-day rate slots.
- "hour": a flat hourly rate.

The module keeps its bookings in a map from facility name to a map from date
to the list of bookings made so far. A request is handled as follows:

- An unknown facility is refused as "Unknown Facility".
- A request that overlaps an existing booking on the same facility and date
  is refused as "Already Booked".
- Any other request is priced and appended to its list.

The model is split into modules as follows:

- `Wrappers` (`wrappers.dfy`): the `Option` type that `Array.prototype.find`
  returns.
- `Times` (`times.dfy`): `timeToMinutes` on "HH:MM" strings, with `Clock` as
  a right inverse: rendering a minute count and reading it back gives the
  count. Reading is not injective, because "01:60" and "02:00" both read as
  120.
- `Facilities` (`facilities.dfy`): the catalog entry, `getFacilityConfig`
  (first facility of that name) and the seed catalog.
- `Pricing` (`pricing.dfy`): covers the following.
  - `calculateCost` as a method.
  - `calculateSlotCost` as a method with its `while` loop.
  - The functions `FindSlot`, `SlotCost` and `Cost` that specify them.
- `PricingProperties` (`pricing.dfy`): covers the following.
  - What the slot walk computes.
  - An independent reference price, `TierCharge`, in which every slot charges
    only for the minutes it covers.
  - The seed prices.
- `Bookings` (`bookings.dfy`): covers the following.
  - The class `FacilityBookingModule`, whose field `bookings` is updated in
    place.
  - `isBookingConflict` as a `for` loop with early return.
  - `bookFacility`.
  - The store invariant `ValidStore`: every bucket belongs to a catalog
    facility, holds bookings filed under that facility and date, priced by
    `calculateCost`, and pairwise non-overlapping.
  - The seed runs of the module's own tests.

Minutes are `int` and costs exact `real`. The three result strings are the
datatype `BookingResult`.

The source tests `!this.bookings[facilityName]` and
`!this.bookings[facilityName][date]`. Both are read as "key absent", because
the values stored there are an object and an array, and JavaScript treats
both as truthy even when empty.

## Model

| member | source | states |
|---|---|---|
| `Times.ClockToMinutes` | index.js:21-24 | The time string written for `hours:minutes` is read as `hours * 60 + minutes`, its hours and minutes parts being exactly those numbers. |
| `Times.TimeToMinutes` | index.js:21-24 | The hours before the colon times 60 plus the minutes after it, with no range check: the result is at most 99 * 60 + 99, and when the minutes part is below 60 it splits back into exactly the hours and minutes written. |
| `Times.ClockOfTime` | index.js:21-24 | Every well-formed "HH:MM" string is the rendering of its own hours and minutes parts, so the (hours, minutes) pair gives back the string. |
| `Times.TimeRoundTrip` | index.js:21-24 | `Clock` is a right inverse of the reading: rendering any minute count `m` under 100 hours as `Clock(m / 60, m % 60)` and converting it back gives `m`. |
| `Facilities.FindFacility` | index.js:17-19 | The lookup finds nothing exactly when no catalog entry has the name; otherwise it returns an entry with that name, and no earlier entry has that name (first match, as `find` does). |
| `Pricing.FindSlot` | index.js:78-82 | The slot chosen at a walk step matches `current < slotEnd && end > slotStart`, and no earlier slot in list order matches. No slot is chosen exactly when no slot matches. |
| `Pricing.CalculateSlotCost` | index.js:73-96 | The `while` loop returns `SlotCost` of the slots over [start, end). The invariants keep `start <= current <= end` once the loop has moved, and keep the accumulated cost plus the remaining walk equal to the whole. |
| `Pricing.CalculateCost` | index.js:61-71 | Type "slot" is priced by the slot walk. Type "hour" is priced as `rate * (end - start) / 60`. Every other type is priced at 0. |
| `PricingProperties.SlotCostNonNegative` | index.js:77-93 | With non-negative slot rates the walk never yields a negative cost. |
| `PricingProperties.TrailingTimeIsFree` | index.js:84-92 | When every slot ends by `m`, extending a booking from `m` to a later end does not change its price: the walk breaks once no slot overlaps. |
| `PricingProperties.SkipPassedSlot` | index.js:78-82 | A slot that ends at or before `current` is never matched again, so the walk over it and the walk without it price alike. |
| `PricingProperties.WalkMatchesTierCharge` | index.js:77-93 | On well-formed contiguous slots, a booking that starts inside the first slot or later is priced by the walk exactly as by the reference charge. |
| `PricingProperties.CostNonNegative` | index.js:61-71 | A facility with non-negative rates never prices a forward span below 0. |
| `PricingProperties.FlatCostAdditive` | index.js:66-67 | Flat hourly pricing is additive over adjacent spans. |
| `PricingProperties.ClubhouseEveningCost` | index.js:101-106 | The seed Clubhouse from 16:00 to 22:00 falls in the 500-an-hour slot and costs 3000. |
| `PricingProperties.ClubhouseAcrossSlotsCost` | index.js:84-89 | A Clubhouse booking from 14:00 to 18:00 is priced across both slots, 2 hours at 100 and 2 at 500, for 1200. |
| `PricingProperties.TennisCourtCost` | index.js:109-114 | The seed Tennis Court from 16:00 to 20:00 at 50 an hour costs 200. |
| `PricingProperties.UncoveredTimeIsFree` | index.js:90-92 | For any slot list, a span that no slot overlaps is priced at 0: the walk breaks at once. |
| `PricingProperties.HallEveningIsFree` | index.js:90-92 | An instance: a facility with one 10:00-16:00 slot, booked from 18:00 to 20:00, costs 0 whatever the slot's rate. |
| `PricingProperties.LeadingGapBilledAtSlotRate` | index.js:85-88 | The charge starts at `current`, not at the matched slot's start. So the Clubhouse from 08:00 to 12:00 costs 400, while the minutes the slots actually cover charge 200. |
| `Bookings.CreateBucketsSetsBucket` | index.js:35-41 | Lazily creating the facility map and the date list sets that bucket to what it already held, or to the empty list. It adds at most those two keys and changes no other bucket. |
| `Bookings.PushSetsBucket` | index.js:48 | Pushing onto the bucket appends exactly one booking and leaves every other bucket as it was. |
| `Bookings.SetsBucketFrame` | index.js:35-48 | After such an update, the target bucket reads as the new list and every other (facility, date) bucket reads as before. |
| `Bookings.ValidWithBucket` | index.js:43-48 | Replacing one bucket of a valid store by a well-filed, non-overlapping bucket keeps the store valid. |
| `Bookings.ValidBucketsDoNotOverlap` | index.js:43-48 | In a valid store, no two bookings of any bucket overlap. Each booking is filed under its bucket's facility and date and costs what `calculateCost` charges for its span. |
| `Bookings.AppendKeepsNonOverlapping` | index.js:43-48 | Appending a booking that conflicts with nothing in a non-overlapping bucket keeps it non-overlapping. |
| `Bookings.ConflictSymmetric` | index.js:54 | The overlap test gives the same answer whichever of the two spans is the new request. |
| `Bookings.TouchingSpansDoNotConflict` | index.js:54 | Spans that only touch, where one ends as the other starts, do not conflict. |
| `Bookings.FacilityBookingModule.constructor` | index.js:12-15 | A new module holds no bookings, keeps the catalog it is given, and satisfies the store invariant. |
| `Bookings.FacilityBookingModule.IsBookingConflict` | index.js:52-59 | The scan returns true exactly when some booking `b` of the bucket has `start < b.end && end > b.start`. It changes nothing. |
| `Bookings.FacilityBookingModule.BookFacility` | index.js:26-50 | The result and the new state are stated in full, and the store invariant (every bucket non-overlapping and correctly priced) is preserved. See the cases below. |
| `Bookings.SeedLookup` | index.js:99-115 | The seed catalog finds the Clubhouse and the Tennis Court by their names. |
| `Bookings.BookKnownFacility` | index.js:26-50 | For a catalog facility, the requested bucket becomes what `bookFacility` promises, and every other facility's bucket for that date is unchanged. |
| `Bookings.ClubhouseScenario` | index.js:131-147 | On a fresh module, the Clubhouse from 16:00 to 22:00 is booked for 3000. The same request again is refused as already booked. |
| `Bookings.TennisCourtScenario` | index.js:137-153 | On a fresh module, the Tennis Court from 16:00 to 20:00 is booked for 200. The Tennis Court from 17:00 to 21:00 on the same day is then refused as already booked. |
| `Bookings.SharedEveningScenario` | index.js:131-141 | With the Clubhouse taken from 16:00 to 22:00, the Tennis Court is still booked from 16:00 to 20:00 for 200: facilities do not block each other. |

`BookFacility` distinguishes three cases:

- Unknown facility: the result is `UnknownFacility` and the store is untouched.
- A conflict in the (facility, date) bucket: the result is `AlreadyBooked`
  and the store is untouched. A conflict needs a booking already in the
  bucket, so the lazy creation has nothing to create.
- Otherwise: the result is `Booked(cost)`, with `cost` from `calculateCost`.
  Exactly `Booking(facility, date, start, end, cost)` is appended to the end of
  that bucket, and nothing else changes.

## Left out

- Console output and the test runner (`assertEquals`, `runTests`) are I/O.
  Their four requests appear as the scenario methods above, split into three
  runs on fresh modules rather than one run of four calls.
- Result strings are not rendered. "Booked, Rs. <cost>" and the two failure
  messages are the datatype `BookingResult`, without JavaScript's number
  formatting.
- Costs are exact reals, not IEEE-754 doubles. They differ from the source only
  where `/ 60` gives a fraction that a double cannot represent.
- Times.TimeToMinutes: accepts only zero-padded "HH:MM" strings (two digits, a
  colon, two digits). `split(':').map(Number)` also accepts other shapes, such
  as "9:5", " 9:00" or "1e1:00". It yields `NaN` on malformed input, and an
  extra ":part" is ignored. None of these is modelled, and `BookFacility`
  requires well-formed times. As in the source, hours and minutes are not
  range-checked.
- Bookings.FacilityBookingModule.IsBookingConflict: requires the (facility,
  date) bucket to exist. The source would throw a `TypeError` on a missing
  facility map. `bookFacility`, its only caller, always creates the bucket
  first.
- JavaScript object-key quirks are not modelled. Plain objects keyed by
  arbitrary strings would misbehave on names such as `__proto__`; the model
  uses true maps.
- Concurrency is not modelled: the source is single-threaded.
