/**
 * `FacilityBookingModule`: the booking store, a map from facility name to a
 * map from date to the list of bookings made for that facility on that date.
 */
module Bookings {
  import opened Wrappers
  import opened Times
  import opened Facilities
  import opened Pricing
  import PricingProperties

  /** `Booking`: a confirmed reservation of [start, end) minutes. */
  datatype Booking = Booking(facility: string, date: string, start: int, end: int, cost: real)

  /** The three answers of `bookFacility`: "Booked, Rs. <cost>", "Unknown Facility", "Already Booked". */
  datatype BookingResult = Booked(cost: real) | UnknownFacility | AlreadyBooked

  type Store = map<string, map<string, seq<Booking>>>

  /** The half-open overlap test of `isBookingConflict`: [start, end) and b's span share a minute. */
  predicate Conflicts(b: Booking, start: int, end: int) {
    start < b.end && end > b.start
  }

  /** Some booking of the bucket conflicts with [start, end). */
  predicate HasConflict(bucket: seq<Booking>, start: int, end: int) {
    exists i :: 0 <= i < |bucket| && Conflicts(bucket[i], start, end)
  }

  /** No two distinct bookings of a bucket conflict. */
  predicate NonOverlapping(bucket: seq<Booking>) {
    forall i, j :: 0 <= i < |bucket| && 0 <= j < |bucket| && i != j ==>
      !Conflicts(bucket[i], bucket[j].start, bucket[j].end)
  }

  /** The bucket for (facility, date), empty when either level is missing. */
  function BucketOf(store: Store, facility: string, date: string): seq<Booking> {
    if facility in store && date in store[facility] then store[facility][date] else []
  }

  /**
   * `after` is `before` with the bucket for (facility, date) set to `bucket`:
   * at most the keys `facility` and `date` are added and no other bucket changes.
   */
  ghost predicate SetsBucket(after: Store, before: Store, facility: string, date: string, bucket: seq<Booking>) {
    && after.Keys == before.Keys + {facility}
    && after[facility].Keys == (if facility in before then before[facility].Keys else {}) + {date}
    && (forall f :: f in before && f != facility ==> after[f] == before[f])
    && (forall d :: d in after[facility] && d != date ==> after[facility][d] == before[facility][d])
    && after[facility][date] == bucket
  }

  /** The store after `bookFacility` lazily creates the facility's map and the date's empty list. */
  function CreateBuckets(store: Store, facility: string, date: string): Store {
    var withFacility := if facility !in store then store[facility := map[]] else store;
    if date !in withFacility[facility] then withFacility[facility := withFacility[facility][date := []]]
    else withFacility
  }

  /** Lazy creation sets the (facility, date) bucket to what it already held, or to the empty list. */
  lemma CreateBucketsSetsBucket(store: Store, facility: string, date: string)
    ensures SetsBucket(CreateBuckets(store, facility, date), store, facility, date, BucketOf(store, facility, date))
  {
  }

  /** Pushing onto an existing bucket extends what SetsBucket says about it. */
  lemma PushSetsBucket(after: Store, before: Store, facility: string, date: string, bucket: seq<Booking>, b: Booking)
    requires SetsBucket(after, before, facility, date, bucket)
    ensures SetsBucket(after[facility := after[facility][date := after[facility][date] + [b]]],
                       before, facility, date, bucket + [b])
  {
  }

  /** Every bucket other than (facility, date) reads the same after SetsBucket. */
  lemma SetsBucketFrame(after: Store, before: Store, facility: string, date: string, bucket: seq<Booking>)
    requires SetsBucket(after, before, facility, date, bucket)
    ensures BucketOf(after, facility, date) == bucket
    ensures forall f, d :: (f, d) != (facility, date) ==> BucketOf(after, f, d) == BucketOf(before, f, d)
  {
  }

  /** A bucket's bookings are filed under facility `f` and `date`, priced by `f`, and do not overlap. */
  ghost predicate WellFiled(bucket: seq<Booking>, f: Facility, date: string) {
    && NonOverlapping(bucket)
    && forall i :: 0 <= i < |bucket| ==>
         && bucket[i].facility == f.name && bucket[i].date == date
         && bucket[i].cost == Cost(f, bucket[i].start, bucket[i].end)
  }

  /** The store holds a map of dates for facility `f` (its own predicate, so that the invariant below is instantiated only where a proof names it). */
  ghost predicate Filed(store: Store, f: string) {
    f in store
  }

  /**
   * The store's invariant: buckets exist only for facilities of the catalog,
   * and every bucket is well filed for its facility and date.
   */
  ghost predicate ValidStore(store: Store, facilities: seq<Facility>) {
    forall f :: Filed(store, f) ==>
      && FindFacility(facilities, f).Some?
      && forall d :: d in store[f] ==> WellFiled(store[f][d], FindFacility(facilities, f).value, d)
  }

  /** Replacing one bucket of a valid store by a well-filed bucket keeps the store valid. */
  lemma ValidWithBucket(after: Store, store: Store, facilities: seq<Facility>, f: string, d: string, bucket: seq<Booking>)
    requires ValidStore(store, facilities)
    requires FindFacility(facilities, f).Some?
    requires WellFiled(bucket, FindFacility(facilities, f).value, d)
    requires SetsBucket(after, store, f, d, bucket)
    ensures ValidStore(after, facilities)
  {
    forall g | Filed(after, g)
      ensures FindFacility(facilities, g).Some?
      ensures forall e :: e in after[g] ==> WellFiled(after[g][e], FindFacility(facilities, g).value, e)
    {
      if g != f {
        assert Filed(store, g) && after[g] == store[g];
      } else {
        forall e | e in after[f]
          ensures WellFiled(after[f][e], FindFacility(facilities, f).value, e)
        {
          if e != d {
            assert Filed(store, f) && after[f][e] == store[f][e];
            assert WellFiled(store[f][e], FindFacility(facilities, f).value, e);
          } else {
            assert after[f][e] == bucket;
          }
        }
      }
    }
  }

  class FacilityBookingModule {
    var bookings: Store
    const facilities: seq<Facility>

    /** The store's invariant (see ValidStore). */
    ghost predicate Valid()
      reads this
    {
      ValidStore(bookings, facilities)
    }

    constructor (facilities: seq<Facility>)
      ensures Valid()
      ensures bookings == map[] && this.facilities == facilities
    {
      bookings := map[];
      this.facilities := facilities;
    }

    /** `isBookingConflict`: scans the bucket for a booking that overlaps [start, end). */
    method IsBookingConflict(facilityName: string, date: string, start: int, end: int) returns (conflict: bool)
      requires facilityName in bookings && date in bookings[facilityName]
      ensures conflict <==> HasConflict(bookings[facilityName][date], start, end)
    {
      var bucket := bookings[facilityName][date];
      for i := 0 to |bucket|
        invariant forall j :: 0 <= j < i ==> !Conflicts(bucket[j], start, end)
      {
        if start < bucket[i].end && end > bucket[i].start {
          return true;
        }
      }
      return false;
    }

    /**
     * `bookFacility`: an unknown facility changes nothing; otherwise the
     * (facility, date) bucket is created if missing, a conflict changes nothing
     * more, and a free span is priced and appended to the end of its bucket.
     */
    method BookFacility(facilityName: string, date: string, startTime: string, endTime: string)
      returns (r: BookingResult)
      requires Valid()
      requires IsTime(startTime) && IsTime(endTime)
      modifies this
      ensures Valid()
      ensures FindFacility(facilities, facilityName).None? ==>
                r == UnknownFacility && bookings == old(bookings)
      ensures r == AlreadyBooked ==> bookings == old(bookings)
      ensures FindFacility(facilities, facilityName).Some? ==>
                var start, end := TimeToMinutes(startTime), TimeToMinutes(endTime);
                var bucket := BucketOf(old(bookings), facilityName, date);
                var cost := Cost(FindFacility(facilities, facilityName).value, start, end);
                if HasConflict(bucket, start, end) then
                  r == AlreadyBooked && SetsBucket(bookings, old(bookings), facilityName, date, bucket)
                else
                  r == Booked(cost)
                  && SetsBucket(bookings, old(bookings), facilityName, date,
                                bucket + [Booking(facilityName, date, start, end, cost)])
    {
      var start := TimeToMinutes(startTime);
      var end := TimeToMinutes(endTime);
      var facilityConfig := FindFacility(facilities, facilityName);
      if facilityConfig.None? {
        return UnknownFacility;
      }
      ghost var bucket := BucketOf(bookings, facilityName, date);
      assert WellFiled(bucket, facilityConfig.value, date);
      if facilityName !in bookings {
        bookings := bookings[facilityName := map[]];
      }
      if date !in bookings[facilityName] {
        bookings := bookings[facilityName := bookings[facilityName][date := []]];
      }
      assert bookings == CreateBuckets(old(bookings), facilityName, date);
      CreateBucketsSetsBucket(old(bookings), facilityName, date);
      ValidWithBucket(bookings, old(bookings), facilities, facilityName, date, bucket);
      var conflict := IsBookingConflict(facilityName, date, start, end);
      if conflict {
        assert |bucket| > 0;
        assert facilityName in old(bookings) && date in old(bookings)[facilityName];
        return AlreadyBooked;
      }
      var cost := CalculateCost(facilityConfig.value, start, end);
      var booking := Booking(facilityName, date, start, end, cost);
      AppendKeepsNonOverlapping(bucket, booking);
      assert WellFiled(bucket + [booking], facilityConfig.value, date);
      PushSetsBucket(bookings, old(bookings), facilityName, date, bucket, booking);
      bookings := bookings[facilityName := bookings[facilityName][date := bookings[facilityName][date] + [booking]]];
      ValidWithBucket(bookings, old(bookings), facilities, facilityName, date, bucket + [booking]);
      return Booked(cost);
    }
  }

  /** Appending a booking that conflicts with none of the bucket keeps the bucket non-overlapping. */
  lemma AppendKeepsNonOverlapping(bucket: seq<Booking>, b: Booking)
    requires NonOverlapping(bucket)
    requires !HasConflict(bucket, b.start, b.end)
    ensures NonOverlapping(bucket + [b])
  {
  }

  /** In a valid store, no two bookings of any (facility, date) bucket overlap, and each is priced by its facility. */
  lemma ValidBucketsDoNotOverlap(store: Store, facilities: seq<Facility>, facility: string, date: string)
    requires ValidStore(store, facilities)
    ensures NonOverlapping(BucketOf(store, facility, date))
    ensures facility in store ==> FindFacility(facilities, facility).Some?
    ensures forall b :: b in BucketOf(store, facility, date) ==>
              b.facility == facility && b.date == date
              && b.cost == Cost(FindFacility(facilities, facility).value, b.start, b.end)
  {
    if facility in store {
      assert Filed(store, facility);
    }
  }

  /** The overlap test is symmetric: it does not matter which booking is the new one. */
  lemma ConflictSymmetric(a: Booking, b: Booking)
    ensures Conflicts(a, b.start, b.end) <==> Conflicts(b, a.start, a.end)
  {
  }

  /** Spans that only touch (one ends when the other starts) do not conflict. */
  lemma TouchingSpansDoNotConflict(b: Booking, end: int)
    ensures !Conflicts(b, b.end, end)
    ensures !Conflicts(b, end, b.start)
  {
  }

  /** The seed catalog finds both of its facilities by name. */
  lemma SeedLookup()
    ensures FindFacility(SeedFacilities, "Clubhouse") == Some(Clubhouse)
    ensures FindFacility(SeedFacilities, "Tennis Court") == Some(TennisCourt)
    ensures "Clubhouse" != "Tennis Court"
  {
    assert |"Tennis Court"| != |"Clubhouse"|;
  }

  /** The times of the seed run, read as minutes after midnight. */
  lemma SeedTimes()
    ensures IsTime("16:00") && TimeToMinutes("16:00") == 16 * 60
    ensures IsTime("17:00") && TimeToMinutes("17:00") == 17 * 60
    ensures IsTime("20:00") && TimeToMinutes("20:00") == 20 * 60
    ensures IsTime("21:00") && TimeToMinutes("21:00") == 21 * 60
    ensures IsTime("22:00") && TimeToMinutes("22:00") == 22 * 60
  {
  }

  /**
   * `bookFacility` for a known facility `f`, its effect read bucket by bucket:
   * the requested bucket as BookFacility states it, every other facility's
   * bucket for that date unchanged.
   */
  method BookKnownFacility(fbm: FacilityBookingModule, f: Facility, day: string,
                           startTime: string, endTime: string, start: int, end: int, cost: real)
    returns (r: BookingResult)
    requires fbm.Valid() && FindFacility(fbm.facilities, f.name) == Some(f)
    requires IsTime(startTime) && IsTime(endTime)
    requires TimeToMinutes(startTime) == start && TimeToMinutes(endTime) == end
    requires Cost(f, start, end) == cost
    modifies fbm
    ensures fbm.Valid()
    ensures var bucket := BucketOf(old(fbm.bookings), f.name, day);
            if HasConflict(bucket, start, end) then
              r == AlreadyBooked && BucketOf(fbm.bookings, f.name, day) == bucket
            else
              r == Booked(cost) && BucketOf(fbm.bookings, f.name, day) == bucket + [Booking(f.name, day, start, end, cost)]
    ensures forall g :: g != f.name ==> BucketOf(fbm.bookings, g, day) == BucketOf(old(fbm.bookings), g, day)
  {
    r := fbm.BookFacility(f.name, day, startTime, endTime);
    ghost var bucket := BucketOf(old(fbm.bookings), f.name, day);
    if HasConflict(bucket, start, end) {
      SetsBucketFrame(fbm.bookings, old(fbm.bookings), f.name, day, bucket);
    } else {
      SetsBucketFrame(fbm.bookings, old(fbm.bookings), f.name, day,
                      bucket + [Booking(f.name, day, start, end, cost)]);
    }
  }

  /**
   * The seed run for the Clubhouse: 16:00-22:00 on a free day is booked for
   * 3000, and the same request again is refused as already booked.
   */
  method ClubhouseScenario(day: string) returns (first: BookingResult, second: BookingResult)
    ensures first == Booked(3000.0)
    ensures second == AlreadyBooked
  {
    SeedLookup();
    SeedTimes();
    PricingProperties.ClubhouseEveningCost();
    var fbm := new FacilityBookingModule(SeedFacilities);
    first := BookKnownFacility(fbm, Clubhouse, day, "16:00", "22:00", 16 * 60, 22 * 60, 3000.0);
    assert Conflicts(BucketOf(fbm.bookings, "Clubhouse", day)[0], 16 * 60, 22 * 60);
    second := BookKnownFacility(fbm, Clubhouse, day, "16:00", "22:00", 16 * 60, 22 * 60, 3000.0);
  }

  /**
   * The seed run for the Tennis Court: 16:00-20:00 on a free day is booked
   * for 200, and 17:00-21:00 on the same day is refused as already booked.
   */
  method TennisCourtScenario(day: string) returns (first: BookingResult, second: BookingResult)
    ensures first == Booked(200.0)
    ensures second == AlreadyBooked
  {
    SeedLookup();
    SeedTimes();
    PricingProperties.TennisCourtCost();
    var fbm := new FacilityBookingModule(SeedFacilities);
    first := BookKnownFacility(fbm, TennisCourt, day, "16:00", "20:00", 16 * 60, 20 * 60, 200.0);
    assert Conflicts(BucketOf(fbm.bookings, "Tennis Court", day)[0], 17 * 60, 21 * 60);
    second := BookKnownFacility(fbm, TennisCourt, day, "17:00", "21:00", 17 * 60, 21 * 60, Cost(TennisCourt, 17 * 60, 21 * 60));
  }

  /**
   * Facilities are booked independently: with the Clubhouse taken 16:00-22:00,
   * the Tennis Court is still free over the same evening.
   */
  method SharedEveningScenario(day: string) returns (clubhouse: BookingResult, tennis: BookingResult)
    ensures clubhouse == Booked(3000.0)
    ensures tennis == Booked(200.0)
  {
    SeedLookup();
    SeedTimes();
    PricingProperties.ClubhouseEveningCost();
    PricingProperties.TennisCourtCost();
    var fbm := new FacilityBookingModule(SeedFacilities);
    clubhouse := BookKnownFacility(fbm, Clubhouse, day, "16:00", "22:00", 16 * 60, 22 * 60, 3000.0);
    assert BucketOf(fbm.bookings, "Tennis Court", day) == [];
    tennis := BookKnownFacility(fbm, TennisCourt, day, "16:00", "20:00", 16 * 60, 20 * 60, 200.0);
  }
}
