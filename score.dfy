/** Ride scoring of `malus/score.py`: the deviation-from-target-speed score,
    the ride aggregates, the capped per-athlete aggregation engine and the
    post-filter on cumulative distance. Distances are reals (km), durations
    whole seconds. */
module Score {
  import opened Dicts

  /** The target average speed, in km/h. */
  const CanonicalSpeedKmh: real := 22.5

  /** The one way scoring can fail: a zero duration makes Python divide by zero. */
  datatype ScoreError = ZeroDivision

  datatype Result<T> = Ok(value: T) | Err(error: ScoreError)

  /** An injectable scoring strategy: (distance in km, duration in seconds) to a score. */
  type Strategy = (real, nat) -> Result<real>

  function Abs(x: real): real {
    if x < 0.0 then -x else x
  }

  /** `timedelta.total_seconds() / 3600` */
  function Hours(seconds: nat): real {
    seconds as real / 3600.0
  }

  // ---------------------------------------------------------------------------
  // Domain model

  datatype Athlete = Athlete(firstName: string, lastName: string)

  /** `Athlete.full_name()` */
  function FullName(a: Athlete): string {
    a.firstName + " " + a.lastName
  }

  /** The full name is the first name, one space, then the last name: both
      parts can be read back from it. */
  lemma FullNameParts(a: Athlete)
    ensures |FullName(a)| == |a.firstName| + 1 + |a.lastName|
    ensures FullName(a)[..|a.firstName|] == a.firstName
    ensures FullName(a)[|a.firstName|] == ' '
    ensures FullName(a)[|a.firstName| + 1..] == a.lastName
  {
    var name := FullName(a);
    assert name == a.firstName + ([' '] + a.lastName);
  }

  /** `kind` is the activity's type label (`type` in the source). */
  datatype Activity = Activity(kind: string, distanceKm: real, seconds: nat, athlete: Athlete)

  datatype CumulativeRides = CumulativeRides(count: nat, distanceKm: real, seconds: nat) {

    static function Empty(): CumulativeRides {
      CumulativeRides(0, 0.0, 0)
    }

    function AddRide(distanceKm: real, seconds: nat): CumulativeRides {
      CumulativeRides(count + 1, this.distanceKm + distanceKm, this.seconds + seconds)
    }

    /** Average speed in km/h; Python raises ZeroDivisionError for a zero total time. */
    function AvgSpeedKmh(): (r: Result<real>)
      ensures r.Err? <==> seconds == 0
      ensures r.Ok? ==> r.value * Hours(seconds) == distanceKm
    {
      if seconds == 0 then Err(ZeroDivision) else Ok(distanceKm / Hours(seconds))
    }
  }

  datatype Malus = Malus(rides: CumulativeRides, malus: real)

  // ---------------------------------------------------------------------------
  // Scoring function

  /** `pakefte_malus`: |average speed - 22.5| times the hours ridden, which is the
      distance's deviation from what the target speed covers in that time. */
  function PakefteMalus(distanceKm: real, seconds: nat): (r: Result<real>)
    ensures r.Err? <==> seconds == 0
    ensures r.Ok? ==> r.value >= 0.0
  {
    if seconds == 0 then Err(ZeroDivision)
    else
      var timeH := Hours(seconds);
      var avgSpeedKmh := distanceKm / timeH;
      Ok(Abs(avgSpeedKmh - CanonicalSpeedKmh) * timeH)
  }

  lemma DeviationTimesHours(d: real, h: real)
    requires h > 0.0
    ensures Abs(d / h - CanonicalSpeedKmh) * h == Abs(d - CanonicalSpeedKmh * h)
  {
    assert (d / h - CanonicalSpeedKmh) * h == d - CanonicalSpeedKmh * h;
  }

  lemma AbsScale(x: real, h: real)
    requires h > 0.0
    ensures Abs(x * h) == Abs(x) * h
  {
    if x < 0.0 {
      assert x * h < 0.0;
    } else {
      assert x * h >= 0.0;
    }
  }

  /** The score is the distance's deviation from what the target speed covers
      in the time ridden; it is zero exactly when the average speed is 22.5 km/h. */
  lemma MalusIsDistanceDeviation(distanceKm: real, seconds: nat)
    requires seconds > 0
    ensures PakefteMalus(distanceKm, seconds) == Ok(Abs(distanceKm - CanonicalSpeedKmh * Hours(seconds)))
    ensures PakefteMalus(distanceKm, seconds).value == 0.0 <==> distanceKm == CanonicalSpeedKmh * Hours(seconds)
  {
    var h := Hours(seconds);
    var speed := distanceKm / h;
    assert PakefteMalus(distanceKm, seconds).value == Abs(speed - CanonicalSpeedKmh) * h;
    DeviationTimesHours(distanceKm, h);
    assert PakefteMalus(distanceKm, seconds).value == Abs(distanceKm - CanonicalSpeedKmh * h);
    assert PakefteMalus(distanceKm, seconds).Ok?;
  }

  /** The score is the average speed's deviation times the hours ridden. */
  lemma MalusFromAvgSpeed(rides: CumulativeRides)
    requires rides.seconds > 0
    ensures PakefteMalus(rides.distanceKm, rides.seconds)
         == Ok(Abs(rides.AvgSpeedKmh().value - CanonicalSpeedKmh) * Hours(rides.seconds))
  {
    MalusIsDistanceDeviation(rides.distanceKm, rides.seconds);
    DeviationTimesHours(rides.distanceKm, Hours(rides.seconds));
    assert rides.AvgSpeedKmh().value == rides.distanceKm / Hours(rides.seconds);
    var score := Abs(rides.AvgSpeedKmh().value - CanonicalSpeedKmh) * Hours(rides.seconds);
    assert Abs(rides.distanceKm - CanonicalSpeedKmh * Hours(rides.seconds)) == score;
    assert PakefteMalus(rides.distanceKm, rides.seconds) == Ok(score);
  }

  /** For a fixed average speed the score grows linearly with the time ridden. */
  lemma MalusLinearInTime(speedKmh: real, seconds: nat)
    requires seconds > 0
    ensures PakefteMalus(speedKmh * Hours(seconds), seconds)
         == Ok(Abs(speedKmh - CanonicalSpeedKmh) * Hours(seconds))
  {
    MalusIsDistanceDeviation(speedKmh * Hours(seconds), seconds);
    assert speedKmh * Hours(seconds) - CanonicalSpeedKmh * Hours(seconds) == (speedKmh - CanonicalSpeedKmh) * Hours(seconds);
    AbsScale(speedKmh - CanonicalSpeedKmh, Hours(seconds));
    var score := Abs(speedKmh - CanonicalSpeedKmh) * Hours(seconds);
    assert Abs(speedKmh * Hours(seconds) - CanonicalSpeedKmh * Hours(seconds)) == score;
    assert PakefteMalus(speedKmh * Hours(seconds), seconds) == Ok(score);
  }

  /** For a fixed time the score grows with the deviation of the average speed. */
  lemma MalusMonotoneInDeviation(d1: real, d2: real, seconds: nat)
    requires seconds > 0
    requires Abs(d1 / Hours(seconds) - CanonicalSpeedKmh) <= Abs(d2 / Hours(seconds) - CanonicalSpeedKmh)
    ensures PakefteMalus(d1, seconds).value <= PakefteMalus(d2, seconds).value
  {
    var h := Hours(seconds);
    var a1, a2 := Abs(d1 / h - CanonicalSpeedKmh), Abs(d2 / h - CanonicalSpeedKmh);
    assert (a2 - a1) * h >= 0.0;
  }

  /** The exact cases of the source's tests. */
  lemma MalusExamples()
    ensures PakefteMalus(22.5, 3600) == Ok(0.0)
    ensures PakefteMalus(112.5, 5 * 3600) == Ok(0.0)
    ensures PakefteMalus(0.0, 3600) == Ok(22.5)
    ensures PakefteMalus(25.0, 3600) == Ok(2.5)
    ensures PakefteMalus(10.0, 0) == Err(ZeroDivision)
  {
  }

  // ---------------------------------------------------------------------------
  // Specification of the aggregation engine

  /** The engine's filter: type exactly "Ride" and at least the cutoff distance. */
  predicate IsCountedRide(a: Activity, cutoffKm: real) {
    a.kind == "Ride" && a.distanceKm >= cutoffKm
  }

  function QualifyingRides(activities: seq<Activity>, cutoffKm: real): (rides: seq<Activity>)
    ensures forall r | r in rides :: r in activities && IsCountedRide(r, cutoffKm)
    ensures forall r | r in activities && IsCountedRide(r, cutoffKm) :: r in rides
    ensures |rides| <= |activities|
  {
    if activities == [] then []
    else
      var init, a := activities[..|activities| - 1], activities[|activities| - 1];
      assert activities == init + [a];
      var rides := QualifyingRides(init, cutoffKm);
      if IsCountedRide(a, cutoffKm) then rides + [a] else rides
  }

  /** The rides of one athlete, in stream order. */
  function RidesOf(rides: seq<Activity>, athlete: Athlete): (mine: seq<Activity>)
    ensures forall r | r in mine :: r in rides && r.athlete == athlete
    ensures |mine| <= |rides|
  {
    if rides == [] then []
    else
      var init, r := rides[..|rides| - 1], rides[|rides| - 1];
      if r.athlete == athlete then RidesOf(init, athlete) + [r] else RidesOf(init, athlete)
  }

  /** The owners of the rides, as far as they are on the roster, in stream order. */
  function RosterAthletes(rides: seq<Activity>, roster: set<Athlete>): seq<Athlete> {
    if rides == [] then []
    else
      var init, r := rides[..|rides| - 1], rides[|rides| - 1];
      if r.athlete in roster then RosterAthletes(init, roster) + [r.athlete] else RosterAthletes(init, roster)
  }

  /** The first `n` elements of `s`, or all of them when there are fewer. */
  function Take<T>(s: seq<T>, n: int): (t: seq<T>)
    ensures |t| == if n <= 0 then 0 else if n < |s| then n else |s|
    ensures t == s[..|t|]
  {
    if n <= 0 then [] else if n < |s| then s[..n] else s
  }

  /** Folding `add_ride` over the rides, starting from the empty aggregate. */
  function Aggregate(rides: seq<Activity>): CumulativeRides {
    if rides == [] then CumulativeRides.Empty()
    else
      var r := rides[|rides| - 1];
      Aggregate(rides[..|rides| - 1]).AddRide(r.distanceKm, r.seconds)
  }

  /** The rides the engine counts for `athlete`: none unless on the roster,
      otherwise its first `maxRides` rides in stream order. */
  function FoldedRides(rides: seq<Activity>, roster: set<Athlete>, maxRides: int, athlete: Athlete): seq<Activity> {
    if athlete in roster then Take(RidesOf(rides, athlete), maxRides) else []
  }

  /** The athletes with at least one counted ride, in order of their first one. */
  function CountedAthletes(rides: seq<Activity>, roster: set<Athlete>, maxRides: int): seq<Athlete> {
    if maxRides >= 1 then FirstOccurrences(RosterAthletes(rides, roster)) else []
  }

  /** The per-athlete aggregates after the rides have been scanned. */
  function CappedAggregates(rides: seq<Activity>, roster: set<Athlete>, maxRides: int): (d: Dict<Athlete, CumulativeRides>)
    ensures d.Valid()
  {
    var keys := CountedAthletes(rides, roster, maxRides);
    Dict(keys, map a | a in keys :: Aggregate(FoldedRides(rides, roster, maxRides, a)))
  }

  /** The quota left per athlete after the rides have been scanned: a roster
      athlete stays until a ride of theirs is seen and the quota is used up. */
  function Remaining(rides: seq<Activity>, roster: set<Athlete>, maxRides: int): map<Athlete, int> {
    map a | a in roster && (|RidesOf(rides, a)| == 0 || |RidesOf(rides, a)| < maxRides)
      :: maxRides - |RidesOf(rides, a)|
  }

  /** The dict comprehension that scores every aggregate in key order; the
      first strategy call that fails makes the whole call fail. */
  function ScoreKeys(keys: seq<Athlete>, rides: map<Athlete, CumulativeRides>, malus: Strategy): (r: Result<map<Athlete, Malus>>)
    requires forall a | a in keys :: a in rides
    ensures r.Ok? <==> forall a | a in keys :: malus(rides[a].distanceKm, rides[a].seconds).Ok?
    ensures r.Ok? ==> forall a | a in r.value :: a in keys
    ensures r.Ok? ==> forall a | a in keys ::
      a in r.value && r.value[a] == Malus(rides[a], malus(rides[a].distanceKm, rides[a].seconds).value)
    ensures r.Err? ==> exists i | 0 <= i < |keys| ::
      malus(rides[keys[i]].distanceKm, rides[keys[i]].seconds) == Err(r.error)
      && forall j | 0 <= j < i :: malus(rides[keys[j]].distanceKm, rides[keys[j]].seconds).Ok?
  {
    if keys == [] then Ok(map[])
    else
      var a := keys[0];
      match malus(rides[a].distanceKm, rides[a].seconds)
      case Err(e) => Err(e)
      case Ok(score) =>
        match ScoreKeys(keys[1..], rides, malus)
        case Err(e) => Err(e)
        case Ok(scored) => Ok(scored[a := Malus(rides[a], score)])
  }

  function ScoreAll(aggregates: Dict<Athlete, CumulativeRides>, malus: Strategy): (r: Result<Dict<Athlete, Malus>>)
    requires aggregates.Valid()
    ensures r.Ok? ==> r.value.Valid() && r.value.keys == aggregates.keys
  {
    match ScoreKeys(aggregates.keys, aggregates.values, malus)
    case Err(e) => Err(e)
    case Ok(scored) => Ok(Dict(aggregates.keys, scored))
  }

  /** What `malus_by_athlete(max, cutoff, malus)(activities, athletes)` returns. */
  function CappedMalus(activities: seq<Activity>, athletes: seq<Athlete>, maxRides: int, cutoffKm: real, malus: Strategy): Result<Dict<Athlete, Malus>> {
    var roster := set a | a in athletes;
    ScoreAll(CappedAggregates(QualifyingRides(activities, cutoffKm), roster, maxRides), malus)
  }

  // ---------------------------------------------------------------------------
  // How one scanned ride changes the specification

  lemma RidesOfAppend(p: seq<Activity>, x: Activity, athlete: Athlete)
    ensures RidesOf(p + [x], athlete) == if x.athlete == athlete then RidesOf(p, athlete) + [x] else RidesOf(p, athlete)
  {
    assert (p + [x])[..|p|] == p;
  }

  lemma RosterAthletesAppend(p: seq<Activity>, x: Activity, roster: set<Athlete>)
    ensures RosterAthletes(p + [x], roster) == if x.athlete in roster then RosterAthletes(p, roster) + [x.athlete] else RosterAthletes(p, roster)
  {
    assert (p + [x])[..|p|] == p;
  }

  /** An athlete is among the roster athletes of the rides exactly when they
      are on the roster and own at least one of the rides. */
  lemma {:induction false} RosterAthletesMembers(rides: seq<Activity>, roster: set<Athlete>, athlete: Athlete)
    ensures athlete in RosterAthletes(rides, roster) <==> athlete in roster && |RidesOf(rides, athlete)| >= 1
  {
    if rides != [] {
      var init, r := rides[..|rides| - 1], rides[|rides| - 1];
      assert rides == init + [r];
      RidesOfAppend(init, r, athlete);
      RosterAthletesAppend(init, r, roster);
      RosterAthletesMembers(init, roster, athlete);
    }
  }

  lemma TakeAppend<T>(s: seq<T>, x: T, n: int)
    ensures Take(s + [x], n) == if |s| < n then s + [x] else Take(s, n)
  {
    if |s| >= n && n > 0 {
      assert (s + [x])[..n] == s[..n];
    }
  }

  /** A scanned ride is counted for its owner exactly when they are on the
      roster and have fewer than `maxRides` counted rides; nobody else's rides change. */
  lemma FoldedRidesStep(p: seq<Activity>, x: Activity, roster: set<Athlete>, maxRides: int, athlete: Athlete)
    ensures FoldedRides(p + [x], roster, maxRides, athlete)
         == if athlete == x.athlete && athlete in roster && |RidesOf(p, athlete)| < maxRides
            then FoldedRides(p, roster, maxRides, athlete) + [x]
            else FoldedRides(p, roster, maxRides, athlete)
  {
    RidesOfAppend(p, x, athlete);
    if athlete == x.athlete {
      TakeAppend(RidesOf(p, athlete), x, maxRides);
    }
  }

  lemma AggregateAppend(rides: seq<Activity>, x: Activity)
    ensures Aggregate(rides + [x]) == Aggregate(rides).AddRide(x.distanceKm, x.seconds)
  {
    assert (rides + [x])[..|rides|] == rides;
  }

  /** One loop iteration of the engine, on the quotas: the quota of the
      ride's owner drops by one and the entry goes once it is used up. */
  lemma RemainingStep(p: seq<Activity>, x: Activity, roster: set<Athlete>, maxRides: int)
    ensures var before, after, a := Remaining(p, roster, maxRides), Remaining(p + [x], roster, maxRides), x.athlete;
      && (forall b | b != a :: (b in after <==> b in before) && (b in after ==> after[b] == before[b]))
      && (a in after <==> a in before && before[a] > 1)
      && (a in after ==> after[a] == before[a] - 1)
  {
    forall b ensures RidesOf(p + [x], b) == if x.athlete == b then RidesOf(p, b) + [x] else RidesOf(p, b) {
      RidesOfAppend(p, x, b);
    }
  }

  /** `updated` is `before` with the athlete's quota one lower, and the entry
      gone once that leaves nothing; every other entry is untouched. */
  ghost predicate DecreasedFor(before: map<Athlete, int>, updated: map<Athlete, int>, athlete: Athlete) {
    && (forall b | b != athlete :: (b in updated <==> b in before) && (b in updated ==> updated[b] == before[b]))
    && (athlete in updated <==> athlete in before && before[athlete] > 1)
    && (athlete in updated ==> updated[athlete] == before[athlete] - 1)
  }

  /** Any map that is `Remaining(p)` with the ride's owner decreased, the way
      `_decrease_remaining` does it, is `Remaining(p + [x])`. */
  lemma RemainingAfterDecrease(p: seq<Activity>, x: Activity, roster: set<Athlete>, maxRides: int, updated: map<Athlete, int>)
    requires DecreasedFor(Remaining(p, roster, maxRides), updated, x.athlete)
    ensures updated == Remaining(p + [x], roster, maxRides)
  {
    RemainingStep(p, x, roster, maxRides);
    var after := Remaining(p + [x], roster, maxRides);
    assert updated.Keys == after.Keys;
  }

  /** The engine's quota bookkeeping: an athlete still in the quota map has
      folded exactly the rides the cap has not left them; a roster athlete
      dropped from it has folded the full cap. */
  lemma QuotaPlusFoldedIsCap(p: seq<Activity>, roster: set<Athlete>, maxRides: int, a: Athlete)
    ensures a in Remaining(p, roster, maxRides) ==>
      Remaining(p, roster, maxRides)[a] + |FoldedRides(p, roster, maxRides, a)| == maxRides
    ensures a in roster && a !in Remaining(p, roster, maxRides) ==>
      |FoldedRides(p, roster, maxRides, a)| == if maxRides > 0 then maxRides else 0
  {
  }

  /** `d` holds the specification's aggregates of the scanned rides `p`: the
      same key order, and each key's aggregate. */
  ghost predicate AggregatesOf(d: Dict<Athlete, CumulativeRides>, p: seq<Activity>, roster: set<Athlete>, maxRides: int) {
    && d.Valid()
    && d.keys == CountedAthletes(p, roster, maxRides)
    && (forall b | b in d.keys :: b in d.values && d.values[b] == Aggregate(FoldedRides(p, roster, maxRides, b)))
  }

  lemma AggregatesOfCapped(p: seq<Activity>, roster: set<Athlete>, maxRides: int)
    ensures AggregatesOf(CappedAggregates(p, roster, maxRides), p, roster, maxRides)
  {
  }

  /** One loop iteration of the engine, on the aggregates: the ride is folded
      into its owner's aggregate exactly when the owner has quota left. */
  lemma AggregatesStep(p: seq<Activity>, x: Activity, roster: set<Athlete>, maxRides: int,
                       d: Dict<Athlete, CumulativeRides>, rem: map<Athlete, int>)
    requires d == CappedAggregates(p, roster, maxRides) && rem == Remaining(p, roster, maxRides)
    ensures var a := x.athlete;
      CappedAggregates(p + [x], roster, maxRides)
      == if a in rem && rem[a] > 0 then d.Put(a, d.Get(a, CumulativeRides.Empty()).AddRide(x.distanceKm, x.seconds)) else d
  {
    var a := x.athlete;
    var c := |RidesOf(p, a)|;
    assert (a in rem && rem[a] > 0) <==> a in roster && c < maxRides;
    AggregatesOfCapped(p, roster, maxRides);
    if a in roster && c < maxRides {
      FoldStep(p, x, roster, maxRides, d);
      CappedAggregatesIs(p + [x], roster, maxRides, d.Put(a, d.Get(a, CumulativeRides.Empty()).AddRide(x.distanceKm, x.seconds)));
    } else {
      SkipStep(p, x, roster, maxRides, d);
      CappedAggregatesIs(p + [x], roster, maxRides, d);
    }
  }

  /** The key order after one more ride: its owner is appended when this is
      their first counted ride. */
  lemma CountedAthletesStep(p: seq<Activity>, x: Activity, roster: set<Athlete>, maxRides: int)
    ensures CountedAthletes(p + [x], roster, maxRides)
         == if x.athlete in roster && maxRides >= 1 && |RidesOf(p, x.athlete)| == 0
            then CountedAthletes(p, roster, maxRides) + [x.athlete]
            else CountedAthletes(p, roster, maxRides)
  {
    RosterAthletesAppend(p, x, roster);
    RosterAthletesMembers(p, roster, x.athlete);
    if x.athlete in roster {
      FirstOccurrencesAppend(RosterAthletes(p, roster), x.athlete);
    }
  }

  /** A dict holding the specification's aggregates is equal to them. */
  lemma CappedAggregatesIs(p: seq<Activity>, roster: set<Athlete>, maxRides: int, d: Dict<Athlete, CumulativeRides>)
    requires AggregatesOf(d, p, roster, maxRides)
    ensures CappedAggregates(p, roster, maxRides) == d
  {
    var c := CappedAggregates(p, roster, maxRides);
    assert forall b | b in d.keys :: b in c.values && c.values[b] == d.values[b];
    SameEntries(c, d);
  }

  /** The aggregate of one athlete after a ride that is folded. */
  lemma FoldedAggregateStep(p: seq<Activity>, x: Activity, roster: set<Athlete>, maxRides: int, b: Athlete)
    requires x.athlete in roster && |RidesOf(p, x.athlete)| < maxRides
    ensures Aggregate(FoldedRides(p + [x], roster, maxRides, b))
         == if b == x.athlete then Aggregate(FoldedRides(p, roster, maxRides, b)).AddRide(x.distanceKm, x.seconds)
            else Aggregate(FoldedRides(p, roster, maxRides, b))
  {
    FoldedRidesStep(p, x, roster, maxRides, b);
    if b == x.athlete {
      AggregateAppend(FoldedRides(p, roster, maxRides, b), x);
    }
  }

  /** Before its owner's first counted ride, an athlete's aggregate is empty. */
  lemma AggregateBeforeFirstRide(p: seq<Activity>, roster: set<Athlete>, maxRides: int, a: Athlete)
    requires |RidesOf(p, a)| == 0
    ensures Aggregate(FoldedRides(p, roster, maxRides, a)) == CumulativeRides.Empty()
  {
    assert FoldedRides(p, roster, maxRides, a) == [];
  }

  /** A ride whose owner has quota left is added to the owner's aggregate,
      and the owner's key is appended on their first counted ride. */
  lemma FoldStep(p: seq<Activity>, x: Activity, roster: set<Athlete>, maxRides: int, d: Dict<Athlete, CumulativeRides>)
    requires x.athlete in roster && |RidesOf(p, x.athlete)| < maxRides
    requires AggregatesOf(d, p, roster, maxRides)
    ensures AggregatesOf(d.Put(x.athlete, d.Get(x.athlete, CumulativeRides.Empty()).AddRide(x.distanceKm, x.seconds)),
                         p + [x], roster, maxRides)
  {
    var a, p' := x.athlete, p + [x];
    var e := d.Put(a, d.Get(a, CumulativeRides.Empty()).AddRide(x.distanceKm, x.seconds));
    assert e.keys == CountedAthletes(p', roster, maxRides) by {
      CountedAthletesStep(p, x, roster, maxRides);
      RosterAthletesMembers(p, roster, a);
    }
    assert d.Get(a, CumulativeRides.Empty()) == Aggregate(FoldedRides(p, roster, maxRides, a)) by {
      if a !in d.values {
        RosterAthletesMembers(p, roster, a);
        AggregateBeforeFirstRide(p, roster, maxRides, a);
      }
    }
    assert forall b | b in e.keys :: b in e.values && e.values[b] == Aggregate(FoldedRides(p', roster, maxRides, b)) by {
      forall b | b in e.keys ensures b in e.values && e.values[b] == Aggregate(FoldedRides(p', roster, maxRides, b)) {
        FoldedAggregateStep(p, x, roster, maxRides, b);
      }
    }
  }

  /** A ride whose owner is off the roster or out of quota changes nothing. */
  lemma SkipStep(p: seq<Activity>, x: Activity, roster: set<Athlete>, maxRides: int, d: Dict<Athlete, CumulativeRides>)
    requires x.athlete !in roster || |RidesOf(p, x.athlete)| >= maxRides
    requires x.athlete in roster && maxRides >= 1 ==> |RidesOf(p, x.athlete)| >= 1
    requires AggregatesOf(d, p, roster, maxRides)
    ensures AggregatesOf(d, p + [x], roster, maxRides)
  {
    var p' := p + [x];
    CountedAthletesStep(p, x, roster, maxRides);
    forall b | b in d.keys ensures b in d.values && d.values[b] == Aggregate(FoldedRides(p', roster, maxRides, b)) {
      FoldedRidesStep(p, x, roster, maxRides, b);
    }
  }

  /** Once every roster athlete's quota is used up, no further ride changes
      anything: stopping the scan there gives the same result as scanning on. */
  lemma {:induction false} ExhaustedScanIsStable(p: seq<Activity>, q: seq<Activity>, roster: set<Athlete>, maxRides: int)
    requires Remaining(p, roster, maxRides) == map[]
    ensures Remaining(p + q, roster, maxRides) == map[]
    ensures CappedAggregates(p + q, roster, maxRides) == CappedAggregates(p, roster, maxRides)
  {
    if q != [] {
      var q', x := q[..|q| - 1], q[|q| - 1];
      assert p + q == (p + q') + [x];
      ExhaustedScanIsStable(p, q', roster, maxRides);
      RemainingStep(p + q', x, roster, maxRides);
      AggregatesStep(p + q', x, roster, maxRides, CappedAggregates(p + q', roster, maxRides), Remaining(p + q', roster, maxRides));
      var after := Remaining(p + q, roster, maxRides);
      assert forall b | b in after :: b in Remaining(p + q', roster, maxRides);
      assert after.Keys == {};
    } else {
      assert p + q == p;
    }
  }

  // ---------------------------------------------------------------------------
  // The aggregation engine

  /** A map with no entries is the empty map. */
  lemma NoKeysIsEmpty<K, V>(m: map<K, V>)
    requires |m| == 0
    ensures m == map[]
  {
    assert m.Keys == {};
  }

  /** Taking the next ride off the stream moves it to the end of the scanned prefix. */
  lemma MoveHead<T>(scanned: seq<T>, rest: seq<T>)
    requires rest != []
    ensures (scanned + [rest[0]]) + rest[1..] == scanned + rest
  {
    assert rest == [rest[0]] + rest[1..];
  }

  /** `_decrease_remaining`: the athlete's quota drops by one; the entry is
      removed once nothing is left (an athlete without an entry stays without). */
  method DecreaseRemaining(remaining: map<Athlete, int>, athlete: Athlete) returns (updated: map<Athlete, int>)
    ensures DecreasedFor(remaining, updated, athlete)
    ensures (forall b | b in remaining :: remaining[b] > 0) ==> forall b | b in updated :: updated[b] > 0
  {
    var left := (if athlete in remaining then remaining[athlete] else 0) - 1;
    if left > 0 {
      updated := remaining[athlete := left];
    } else {
      updated := remaining - {athlete};
    }
  }

  /** `malus_by_athlete`: the engine, configured once and then called on an
      activity stream and a roster. */
  class MalusByAthlete {
    const maxRidesPerAthlete: int
    const activityCutoffDistanceKm: real
    const malus: Strategy

    constructor (maxRidesPerAthlete: int, activityCutoffDistanceKm: real, malus: Strategy)
      ensures this.maxRidesPerAthlete == maxRidesPerAthlete
      ensures this.activityCutoffDistanceKm == activityCutoffDistanceKm
      ensures this.malus == malus
    {
      this.maxRidesPerAthlete := maxRidesPerAthlete;
      this.activityCutoffDistanceKm := activityCutoffDistanceKm;
      this.malus := malus;
    }

    /** The source's defaults: ten rides per athlete, 10 km, `pakefte_malus`. */
    constructor Default()
      ensures maxRidesPerAthlete == 10 && activityCutoffDistanceKm == 10.0
      ensures forall d, s :: malus(d, s) == PakefteMalus(d, s)
    {
      maxRidesPerAthlete := 10;
      activityCutoffDistanceKm := 10.0;
      malus := PakefteMalus;
    }

    /** `__call__`: scan the qualifying rides in stream order, folding each
        into its owner's aggregate while the owner has quota left, stop once
        no roster athlete has any, then score every aggregate. */
    method Call(activities: seq<Activity>, athletes: seq<Athlete>) returns (result: Result<Dict<Athlete, Malus>>)
      ensures result == CappedMalus(activities, athletes, maxRidesPerAthlete, activityCutoffDistanceKm, malus)
    {
      var rides := QualifyingRides(activities, activityCutoffDistanceKm);
      ghost var roster := set a | a in athletes;
      var ridesByAthlete: Dict<Athlete, CumulativeRides> := EmptyDict();
      var remRidesByAthlete := map a | a in athletes :: maxRidesPerAthlete;
      assert remRidesByAthlete == Remaining([], roster, maxRidesPerAthlete);
      ghost var stream, scanned: seq<Activity> := rides, [];
      while |remRidesByAthlete| > 0 && rides != []
        invariant scanned + rides == stream
        invariant remRidesByAthlete == Remaining(scanned, roster, maxRidesPerAthlete)
        invariant ridesByAthlete == CappedAggregates(scanned, roster, maxRidesPerAthlete)
        decreases |rides|
      {
        var ride := rides[0];
        MoveHead(scanned, rides);
        rides := rides[1..];
        AggregatesStep(scanned, ride, roster, maxRidesPerAthlete, ridesByAthlete, remRidesByAthlete);
        var remAthleteRides := if ride.athlete in remRidesByAthlete then remRidesByAthlete[ride.athlete] else 0;
        if remAthleteRides > 0 {
          var cumulativeRides := ridesByAthlete.Get(ride.athlete, CumulativeRides.Empty());
          ridesByAthlete := ridesByAthlete.Put(ride.athlete, cumulativeRides.AddRide(ride.distanceKm, ride.seconds));
        }
        remRidesByAthlete := DecreaseRemaining(remRidesByAthlete, ride.athlete);
        RemainingAfterDecrease(scanned, ride, roster, maxRidesPerAthlete, remRidesByAthlete);
        scanned := scanned + [ride];
      }
      if rides != [] {
        NoKeysIsEmpty(remRidesByAthlete);
        ExhaustedScanIsStable(scanned, rides, roster, maxRidesPerAthlete);
      } else {
        assert scanned + rides == scanned;
      }
      result := ScoreAll(ridesByAthlete, malus);
    }
  }

  // ---------------------------------------------------------------------------
  // What the aggregates hold

  function SumKm(rides: seq<Activity>): real {
    if rides == [] then 0.0 else rides[0].distanceKm + SumKm(rides[1..])
  }

  function SumSeconds(rides: seq<Activity>): nat {
    if rides == [] then 0 else rides[0].seconds + SumSeconds(rides[1..])
  }

  lemma {:induction false} SumsAppend(rides: seq<Activity>, x: Activity)
    ensures SumKm(rides + [x]) == SumKm(rides) + x.distanceKm
    ensures SumSeconds(rides + [x]) == SumSeconds(rides) + x.seconds
  {
    if rides != [] {
      assert (rides + [x])[1..] == rides[1..] + [x];
      SumsAppend(rides[1..], x);
    }
  }

  /** Starting from `CumulativeRides.empty()` and adding rides with `add_ride`
      counts the rides and sums their distances and times. */
  lemma {:induction false} AggregateIsSums(rides: seq<Activity>)
    ensures Aggregate(rides) == CumulativeRides(|rides|, SumKm(rides), SumSeconds(rides))
  {
    if rides != [] {
      var init, r := rides[..|rides| - 1], rides[|rides| - 1];
      assert rides == init + [r];
      AggregateIsSums(init);
      SumsAppend(init, r);
    }
  }

  lemma {:induction false} SumSecondsPositive(rides: seq<Activity>)
    requires rides != []
    requires forall r | r in rides :: r.seconds > 0
    ensures SumSeconds(rides) > 0
  {
    assert rides[0] in rides;
  }

  /** The owners of the rides, in stream order. */
  function Owners(rides: seq<Activity>): (owners: seq<Athlete>)
    ensures |owners| == |rides|
  {
    if rides == [] then []
    else Owners(rides[..|rides| - 1]) + [rides[|rides| - 1].athlete]
  }

  /** What `_cumulative_rides_by_athlete` returns: every owner, in order of
      their first ride, with the aggregate of all their rides. */
  function UncappedAggregates(rides: seq<Activity>): (d: Dict<Athlete, CumulativeRides>)
    ensures d.Valid()
  {
    var keys := FirstOccurrences(Owners(rides));
    Dict(keys, map a | a in keys :: Aggregate(RidesOf(rides, a)))
  }

  lemma {:induction false} RosterAthletesOfOwners(rides: seq<Activity>, roster: set<Athlete>)
    requires forall r | r in rides :: r.athlete in roster
    ensures RosterAthletes(rides, roster) == Owners(rides)
  {
    if rides != [] {
      var init := rides[..|rides| - 1];
      assert forall r | r in init :: r in rides;
      assert rides[|rides| - 1] in rides;
      RosterAthletesOfOwners(init, roster);
    }
  }

  /** Without a cap, when every owner is on the roster, the engine's
      aggregates are the uncapped ones. */
  lemma UncappedIsCappedWithoutLimit(rides: seq<Activity>, roster: set<Athlete>, maxRides: int)
    requires forall r | r in rides :: r.athlete in roster
    requires maxRides >= |rides| && maxRides >= 1
    ensures CappedAggregates(rides, roster, maxRides) == UncappedAggregates(rides)
  {
    RosterAthletesOfOwners(rides, roster);
    var u := UncappedAggregates(rides);
    forall a | a in u.keys
      ensures a in u.values && u.values[a] == Aggregate(FoldedRides(rides, roster, maxRides, a))
    {
      RosterAthletesMembers(rides, roster, a);
    }
    CappedAggregatesIs(rides, roster, maxRides, u);
  }

  /** `_cumulative_rides_by_athlete`: one pass over the rides, adding each to
      its owner's running aggregate. */
  method CumulativeRidesByAthlete(rides: seq<Activity>) returns (ridesByAthlete: Dict<Athlete, CumulativeRides>)
    ensures ridesByAthlete == UncappedAggregates(rides)
  {
    ghost var owners := OwnersOf(rides);
    ghost var cap := |rides| + 1;
    ridesByAthlete := EmptyDict();
    for i := 0 to |rides|
      invariant ridesByAthlete == CappedAggregates(rides[..i], owners, cap)
    {
      var ride := rides[i];
      UncappedScanStep(rides, i, owners, cap);
      var cumulativeRides := ridesByAthlete.Get(ride.athlete, CumulativeRides.Empty());
      ridesByAthlete := ridesByAthlete.Put(ride.athlete, cumulativeRides.AddRide(ride.distanceKm, ride.seconds));
    }
    UncappedScanDone(rides, owners, cap);
  }

  /** One iteration of `CumulativeRidesByAthlete`: with no cap in reach,
      ride `i` is added to its owner's aggregate. */
  lemma UncappedScanStep(rides: seq<Activity>, i: nat, owners: set<Athlete>, cap: int)
    requires i < |rides| && rides[i].athlete in owners && |rides| < cap
    ensures CappedAggregates(rides[..i + 1], owners, cap)
         == CappedAggregates(rides[..i], owners, cap).Put(rides[i].athlete,
              CappedAggregates(rides[..i], owners, cap).Get(rides[i].athlete, CumulativeRides.Empty()).AddRide(rides[i].distanceKm, rides[i].seconds))
  {
    var p, x := rides[..i], rides[i];
    assert rides[..i + 1] == p + [x];
    var d := CappedAggregates(p, owners, cap);
    AggregatesOfCapped(p, owners, cap);
    assert |RidesOf(p, x.athlete)| <= |p|;
    FoldStep(p, x, owners, cap, d);
    CappedAggregatesIs(p + [x], owners, cap,
      d.Put(x.athlete, d.Get(x.athlete, CumulativeRides.Empty()).AddRide(x.distanceKm, x.seconds)));
  }

  /** After the last iteration the scanned prefix is the whole stream. */
  lemma UncappedScanDone(rides: seq<Activity>, owners: set<Athlete>, cap: int)
    requires forall r | r in rides :: r.athlete in owners
    requires cap == |rides| + 1
    ensures CappedAggregates(rides[..|rides|], owners, cap) == UncappedAggregates(rides)
  {
    assert rides[..|rides|] == rides;
    UncappedIsCappedWithoutLimit(rides, owners, cap);
  }

  /** A set holding the owner of every ride. */
  lemma OwnersOf(rides: seq<Activity>) returns (owners: set<Athlete>)
    ensures forall r | r in rides :: r.athlete in owners
  {
    owners := set r | r in rides :: r.athlete;
  }

  /** Each owner's entry counts their rides and sums their distances and
      times. */
  lemma UncappedAggregatesAreSums(rides: seq<Activity>, a: Athlete)
    ensures a in UncappedAggregates(rides).values <==> exists r | r in rides :: r.athlete == a
    ensures a in UncappedAggregates(rides).values ==>
      UncappedAggregates(rides).values[a] == CumulativeRides(|RidesOf(rides, a)|, SumKm(RidesOf(rides, a)), SumSeconds(RidesOf(rides, a)))
  {
    var owners := set r | r in rides :: r.athlete;
    RosterAthletesOfOwners(rides, owners);
    RosterAthletesMembers(rides, owners, a);
    if a in owners {
      assert RidesOf(rides, a)[0] in rides;
    }
    AggregateIsSums(RidesOf(rides, a));
  }

  // ---------------------------------------------------------------------------
  // What the engine returns

  /** No qualifying ride (an empty stream, no activity of type "Ride", every
      ride below the cutoff) or an empty roster: the result is `{}`. */
  lemma EmptyResults(activities: seq<Activity>, athletes: seq<Athlete>, maxRides: int, cutoffKm: real, malus: Strategy)
    requires (forall a | a in activities :: !IsCountedRide(a, cutoffKm)) || athletes == []
    ensures CappedMalus(activities, athletes, maxRides, cutoffKm, malus) == Ok(EmptyDict())
  {
    var rides := QualifyingRides(activities, cutoffKm);
    var roster := set a | a in athletes;
    if athletes == [] {
      assert roster == {};
      NobodyOnEmptyRoster(rides);
    } else {
      NoneQualify(activities, cutoffKm);
    }
    assert RosterAthletes(rides, roster) == [];
    assert CappedAggregates(rides, roster, maxRides).values == map[];
  }

  lemma {:induction false} NobodyOnEmptyRoster(rides: seq<Activity>)
    ensures RosterAthletes(rides, {}) == []
  {
    if rides != [] {
      NobodyOnEmptyRoster(rides[..|rides| - 1]);
    }
  }

  /** A stream in which no activity qualifies yields no rides. */
  lemma {:induction false} NoneQualify(activities: seq<Activity>, cutoffKm: real)
    requires forall a | a in activities :: !IsCountedRide(a, cutoffKm)
    ensures QualifyingRides(activities, cutoffKm) == []
  {
    if activities != [] {
      var init := activities[..|activities| - 1];
      assert activities[|activities| - 1] in activities;
      assert forall a | a in init :: a in activities;
      NoneQualify(init, cutoffKm);
    }
  }

  /** Who is in the result, and with what: exactly the roster athletes with a
      qualifying ride (given a positive cap); each with the aggregate of their
      first `maxRides` qualifying rides in stream order, and the strategy's
      score of that aggregate. */
  lemma CappedMalusEntries(activities: seq<Activity>, athletes: seq<Athlete>, maxRides: int, cutoffKm: real, malus: Strategy, athlete: Athlete)
    requires CappedMalus(activities, athletes, maxRides, cutoffKm, malus).Ok?
    ensures var result, mine := CappedMalus(activities, athletes, maxRides, cutoffKm, malus).value,
                                RidesOf(QualifyingRides(activities, cutoffKm), athlete);
      && (athlete in result.values <==> athlete in athletes && maxRides >= 1 && |mine| >= 1)
      && (athlete in result.values ==>
            && result.values[athlete].rides == Aggregate(Take(mine, maxRides))
            && result.values[athlete].rides.count == (if |mine| < maxRides then |mine| else maxRides)
            && result.values[athlete].rides.distanceKm == SumKm(Take(mine, maxRides))
            && result.values[athlete].rides.seconds == SumSeconds(Take(mine, maxRides))
            && malus(result.values[athlete].rides.distanceKm, result.values[athlete].rides.seconds)
               == Ok(result.values[athlete].malus))
  {
    var rides := QualifyingRides(activities, cutoffKm);
    var roster := set a | a in athletes;
    RosterAthletesMembers(rides, roster, athlete);
    AggregateIsSums(Take(RidesOf(rides, athlete), maxRides));
  }

  /** The result's keys come in the order in which the roster athletes' first
      qualifying rides occur in the stream. */
  lemma CappedMalusKeyOrder(activities: seq<Activity>, athletes: seq<Athlete>, maxRides: int, cutoffKm: real, malus: Strategy)
    requires CappedMalus(activities, athletes, maxRides, cutoffKm, malus).Ok?
    ensures var keys, stream := CappedMalus(activities, athletes, maxRides, cutoffKm, malus).value.keys,
                                RosterAthletes(QualifyingRides(activities, cutoffKm), set a | a in athletes);
      && Distinct(keys)
      && (forall a | a in keys :: a in stream)
      && forall i, j | 0 <= i < j < |keys| :: IndexOf(stream, keys[i]) < IndexOf(stream, keys[j])
  {
    FirstOccurrencesOrdered(RosterAthletes(QualifyingRides(activities, cutoffKm), set a | a in athletes));
  }

  /** With the default strategy the engine never divides by zero as long as
      every qualifying ride has a positive duration. */
  lemma PakefteMalusNeverFails(activities: seq<Activity>, athletes: seq<Athlete>, maxRides: int, cutoffKm: real)
    requires forall a | a in activities && IsCountedRide(a, cutoffKm) :: a.seconds > 0
    ensures CappedMalus(activities, athletes, maxRides, cutoffKm, PakefteMalus).Ok?
  {
    var rides := QualifyingRides(activities, cutoffKm);
    var roster := set a | a in athletes;
    var d := CappedAggregates(rides, roster, maxRides);
    forall a | a in d.keys ensures d.values[a].seconds > 0 {
      RosterAthletesMembers(rides, roster, a);
      var folded := FoldedRides(rides, roster, maxRides, a);
      assert folded == RidesOf(rides, a)[..|folded|];
      assert folded[0] == RidesOf(rides, a)[0];
      assert forall r | r in folded :: r in RidesOf(rides, a);
      AggregateIsSums(folded);
      SumSecondsPositive(folded);
    }
  }

  // ---------------------------------------------------------------------------
  // `filter_rides_above_cutoff_distance`

  /** Does the athlete's total distance reach the cutoff? */
  predicate ReachesCutoff(m: Malus, cutoffKm: real) {
    m.rides.distanceKm >= cutoffKm
  }

  /** The keys, in order, whose entry reaches the cutoff (`kept`) or falls
      below it (`!kept`). */
  function Select(keys: seq<Athlete>, values: map<Athlete, Malus>, cutoffKm: real, kept: bool): (r: seq<Athlete>)
    requires forall a | a in keys :: a in values
    ensures forall a | a in r :: a in keys && ReachesCutoff(values[a], cutoffKm) == kept
    ensures forall a | a in keys && ReachesCutoff(values[a], cutoffKm) == kept :: a in r
    ensures |r| <= |keys|
  {
    if keys == [] then []
    else
      var rest := Select(keys[1..], values, cutoffKm, kept);
      if ReachesCutoff(values[keys[0]], cutoffKm) == kept then [keys[0]] + rest else rest
  }

  /** Returns the entries whose total distance reaches the cutoff, as a dict in
      the input's key order, and the athletes below it, as a list in the same
      order. */
  function FilterRidesAboveCutoffDistance(malusByAthlete: Dict<Athlete, Malus>, cutoffKm: real): (r: (Dict<Athlete, Malus>, seq<Athlete>))
    requires malusByAthlete.Valid()
    ensures r.0.Valid()
    ensures forall a | a in r.0.values :: a in malusByAthlete.values && r.0.values[a] == malusByAthlete.values[a]
  {
    var kept := Select(malusByAthlete.keys, malusByAthlete.values, cutoffKm, true);
    SelectDistinct(malusByAthlete.keys, malusByAthlete.values, cutoffKm, true);
    (Dict(kept, map a | a in kept :: malusByAthlete.values[a]),
     Select(malusByAthlete.keys, malusByAthlete.values, cutoffKm, false))
  }

  lemma {:induction false} SelectDistinct(keys: seq<Athlete>, values: map<Athlete, Malus>, cutoffKm: real, kept: bool)
    requires forall a | a in keys :: a in values
    requires Distinct(keys)
    ensures Distinct(Select(keys, values, cutoffKm, kept))
  {
    if keys != [] {
      SelectDistinct(keys[1..], values, cutoffKm, kept);
    }
  }

  lemma IndexInTail(keys: seq<Athlete>, a: Athlete)
    requires keys != [] && Distinct(keys) && a in keys[1..]
    ensures a in keys && IndexOf(keys, a) == 1 + IndexOf(keys[1..], a)
  {
    var k :| 0 <= k < |keys[1..]| && keys[1..][k] == a;
    assert keys[k + 1] == a;
  }

  lemma OrderInTail(keys: seq<Athlete>, x: Athlete, y: Athlete)
    requires keys != [] && Distinct(keys) && x in keys[1..] && y in keys[1..]
    requires IndexOf(keys[1..], x) < IndexOf(keys[1..], y)
    ensures x in keys && y in keys && IndexOf(keys, x) < IndexOf(keys, y)
  {
    IndexInTail(keys, x);
    IndexInTail(keys, y);
  }

  /** A subsequence of `keys[1..]` in its order is in the order of `keys`. */
  lemma TailOrderLifts(keys: seq<Athlete>, rest: seq<Athlete>)
    requires keys != [] && Distinct(keys)
    requires forall a | a in rest :: a in keys[1..]
    requires forall i, j | 0 <= i < j < |rest| :: IndexOf(keys[1..], rest[i]) < IndexOf(keys[1..], rest[j])
    ensures forall a | a in rest :: a in keys
    ensures forall i, j | 0 <= i < j < |rest| :: IndexOf(keys, rest[i]) < IndexOf(keys, rest[j])
  {
    forall a | a in rest ensures a in keys {
      IndexInTail(keys, a);
    }
    forall i, j | 0 <= i < j < |rest| ensures IndexOf(keys, rest[i]) < IndexOf(keys, rest[j]) {
      OrderInTail(keys, rest[i], rest[j]);
    }
  }

  /** ... and so is `keys[0]` followed by it. */
  lemma HeadThenTailOrder(keys: seq<Athlete>, rest: seq<Athlete>)
    requires keys != [] && Distinct(keys)
    requires forall a | a in rest :: a in keys[1..]
    requires forall i, j | 0 <= i < j < |rest| :: IndexOf(keys[1..], rest[i]) < IndexOf(keys[1..], rest[j])
    ensures forall a | a in [keys[0]] + rest :: a in keys
    ensures forall i, j | 0 <= i < j < |[keys[0]] + rest| :: IndexOf(keys, ([keys[0]] + rest)[i]) < IndexOf(keys, ([keys[0]] + rest)[j])
  {
    TailOrderLifts(keys, rest);
    var r := [keys[0]] + rest;
    assert forall k | 0 < k < |r| :: r[k] == rest[k - 1];
    assert IndexOf(keys, keys[0]) == 0;
    forall j | 0 < j < |r| ensures IndexOf(keys, r[0]) < IndexOf(keys, r[j]) {
      IndexInTail(keys, rest[j - 1]);
    }
  }

  /** Both outputs keep the input's relative order. */
  lemma {:induction false} SelectOrdered(keys: seq<Athlete>, values: map<Athlete, Malus>, cutoffKm: real, kept: bool)
    requires forall a | a in keys :: a in values
    requires Distinct(keys)
    ensures forall i, j | 0 <= i < j < |Select(keys, values, cutoffKm, kept)| ::
      IndexOf(keys, Select(keys, values, cutoffKm, kept)[i]) < IndexOf(keys, Select(keys, values, cutoffKm, kept)[j])
  {
    if keys != [] {
      var tail := keys[1..];
      assert Distinct(tail) by {
        forall i, j | 0 <= i < j < |tail| ensures tail[i] != tail[j] {
          assert tail[i] == keys[i + 1] && tail[j] == keys[j + 1];
        }
      }
      SelectOrdered(tail, values, cutoffKm, kept);
      var rest := Select(tail, values, cutoffKm, kept);
      if ReachesCutoff(values[keys[0]], cutoffKm) == kept {
        HeadThenTailOrder(keys, rest);
      } else {
        TailOrderLifts(keys, rest);
      }
    }
  }

  /** Every athlete of the input lands in exactly one of the two outputs. */
  lemma {:induction false} SelectPartitions(keys: seq<Athlete>, values: map<Athlete, Malus>, cutoffKm: real)
    requires forall a | a in keys :: a in values
    ensures multiset(Select(keys, values, cutoffKm, true)) + multiset(Select(keys, values, cutoffKm, false)) == multiset(keys)
  {
    if keys != [] {
      var k, tail := keys[0], keys[1..];
      SelectPartitions(tail, values, cutoffKm);
      var keptRest, excludedRest := Select(tail, values, cutoffKm, true), Select(tail, values, cutoffKm, false);
      assert multiset(keys) == multiset{k} + multiset(tail) by {
        assert keys == [k] + tail;
      }
      if ReachesCutoff(values[k], cutoffKm) {
        assert multiset([k] + keptRest) == multiset{k} + multiset(keptRest);
      } else {
        assert multiset([k] + excludedRest) == multiset{k} + multiset(excludedRest);
      }
    }
  }

  /** The two outputs of `filter_rides_above_cutoff_distance`: an entry is
      kept exactly when its distance reaches the cutoff and excluded exactly
      when it falls below; kept entries are unchanged; both follow the input
      order; together they account for every input athlete once. */
  lemma FilterRidesAboveCutoffDistanceSplits(malusByAthlete: Dict<Athlete, Malus>, cutoffKm: real)
    requires malusByAthlete.Valid()
    ensures var (kept, excluded) := FilterRidesAboveCutoffDistance(malusByAthlete, cutoffKm);
      && (forall a :: a in kept.values <==> a in malusByAthlete.values && malusByAthlete.values[a].rides.distanceKm >= cutoffKm)
      && (forall a :: a in excluded <==> a in malusByAthlete.values && malusByAthlete.values[a].rides.distanceKm < cutoffKm)
      && (forall a | a in kept.values :: kept.values[a] == malusByAthlete.values[a])
      && (forall i, j | 0 <= i < j < |kept.keys| :: IndexOf(malusByAthlete.keys, kept.keys[i]) < IndexOf(malusByAthlete.keys, kept.keys[j]))
      && (forall i, j | 0 <= i < j < |excluded| :: IndexOf(malusByAthlete.keys, excluded[i]) < IndexOf(malusByAthlete.keys, excluded[j]))
      && multiset(kept.keys) + multiset(excluded) == multiset(malusByAthlete.keys)
  {
    var keys, values := malusByAthlete.keys, malusByAthlete.values;
    SelectOrdered(keys, values, cutoffKm, true);
    SelectOrdered(keys, values, cutoffKm, false);
    SelectPartitions(keys, values, cutoffKm);
  }

  // ---------------------------------------------------------------------------
  // The repository's own test cases, on the model

  const AthleteA := Athlete("A", "AAA")
  const AthleteB := Athlete("B", "BBB")
  const AthleteC := Athlete("C", "CCC")
  const Ride1 := Activity("Ride", 10.0, 3600, AthleteA)
  const Ride2 := Activity("Ride", 20.0, 1800, AthleteA)
  const Ride3 := Activity("Ride", 11.0, 2700, AthleteB)
  const Ride4 := Activity("Ride", 30.0, 900, AthleteA)
  const Ride5 := Activity("Ride", 12.0, 840, AthleteB)

  lemma ExampleAthletesDiffer()
    ensures AthleteA != AthleteB && AthleteB != AthleteC && AthleteA != AthleteC
  {
    assert AthleteA.firstName[0] == 'A' && AthleteB.firstName[0] == 'B' && AthleteC.firstName[0] == 'C';
  }

  /** A stream whose every activity qualifies passes the filter unchanged. */
  lemma {:induction false} AllQualify(activities: seq<Activity>, cutoffKm: real)
    requires forall a | a in activities :: IsCountedRide(a, cutoffKm)
    ensures QualifyingRides(activities, cutoffKm) == activities
  {
    if activities != [] {
      var init := activities[..|activities| - 1];
      assert activities == init + [activities[|activities| - 1]];
      assert forall a | a in init :: a in activities;
      AllQualify(init, cutoffKm);
    }
  }

  /** The example stream, built one ride at a time. */
  lemma ExampleStreamPrefixes(p1: seq<Activity>, p2: seq<Activity>, p3: seq<Activity>, p4: seq<Activity>, p5: seq<Activity>)
    requires p1 == [Ride1] && p2 == p1 + [Ride2] && p3 == p2 + [Ride3] && p4 == p3 + [Ride4] && p5 == p4 + [Ride5]
    ensures p5 == [Ride1, Ride2, Ride3, Ride4, Ride5] && p1 == [] + [Ride1]
  {
  }

  lemma ExampleRidesOfA()
    ensures RidesOf([Ride1, Ride2, Ride3, Ride4, Ride5], AthleteA) == [Ride1, Ride2, Ride4]
  {
    ExampleAthletesDiffer();
    var a := AthleteA;
    var p1 := [Ride1];
    var p2 := p1 + [Ride2];
    var p3 := p2 + [Ride3];
    var p4 := p3 + [Ride4];
    var p5 := p4 + [Ride5];
    ExampleStreamPrefixes(p1, p2, p3, p4, p5);
    assert RidesOf(p1, a) == [Ride1] by { RidesOfAppend([], Ride1, a); }
    assert RidesOf(p2, a) == [Ride1, Ride2] by { RidesOfAppend(p1, Ride2, a); }
    assert RidesOf(p3, a) == [Ride1, Ride2] by { RidesOfAppend(p2, Ride3, a); }
    assert RidesOf(p4, a) == [Ride1, Ride2, Ride4] by { RidesOfAppend(p3, Ride4, a); }
    assert RidesOf(p5, a) == [Ride1, Ride2, Ride4] by { RidesOfAppend(p4, Ride5, a); }
  }

  lemma ExampleRidesOfB()
    ensures RidesOf([Ride1, Ride2, Ride3, Ride4, Ride5], AthleteB) == [Ride3, Ride5]
  {
    ExampleAthletesDiffer();
    var b := AthleteB;
    var p1 := [Ride1];
    var p2 := p1 + [Ride2];
    var p3 := p2 + [Ride3];
    var p4 := p3 + [Ride4];
    var p5 := p4 + [Ride5];
    ExampleStreamPrefixes(p1, p2, p3, p4, p5);
    assert RidesOf(p1, b) == [] by { RidesOfAppend([], Ride1, b); }
    assert RidesOf(p2, b) == [] by { RidesOfAppend(p1, Ride2, b); }
    assert RidesOf(p3, b) == [Ride3] by { RidesOfAppend(p2, Ride3, b); }
    assert RidesOf(p4, b) == [Ride3] by { RidesOfAppend(p3, Ride4, b); }
    assert RidesOf(p5, b) == [Ride3, Ride5] by { RidesOfAppend(p4, Ride5, b); }
  }

  lemma ExampleRosterStream()
    ensures RosterAthletes([Ride1, Ride2, Ride3, Ride4, Ride5], {AthleteA, AthleteB, AthleteC}) == [AthleteA, AthleteA, AthleteB, AthleteA, AthleteB]
  {
    var roster := {AthleteA, AthleteB, AthleteC};
    var a, b := AthleteA, AthleteB;
    var p1 := [Ride1];
    var p2 := p1 + [Ride2];
    var p3 := p2 + [Ride3];
    var p4 := p3 + [Ride4];
    var p5 := p4 + [Ride5];
    ExampleStreamPrefixes(p1, p2, p3, p4, p5);
    assert RosterAthletes(p1, roster) == [a] by { RosterAthletesAppend([], Ride1, roster); }
    assert RosterAthletes(p2, roster) == [a, a] by { RosterAthletesAppend(p1, Ride2, roster); }
    assert RosterAthletes(p3, roster) == [a, a, b] by { RosterAthletesAppend(p2, Ride3, roster); }
    assert RosterAthletes(p4, roster) == [a, a, b, a] by { RosterAthletesAppend(p3, Ride4, roster); }
    assert RosterAthletes(p5, roster) == [a, a, b, a, b] by { RosterAthletesAppend(p4, Ride5, roster); }
  }

  lemma ExampleFirstOccurrences()
    ensures FirstOccurrences([AthleteA, AthleteA, AthleteB, AthleteA, AthleteB]) == [AthleteA, AthleteB]
  {
    ExampleAthletesDiffer();
    var a, b := AthleteA, AthleteB;
    var o1 := [a];
    var o2 := o1 + [a];
    var o3 := o2 + [b];
    var o4 := o3 + [a];
    var o5 := o4 + [b];
    assert o5 == [a, a, b, a, b] && o1 == [] + [a];
    assert FirstOccurrences(o1) == [a] by { FirstOccurrencesAppend([], a); }
    assert FirstOccurrences(o2) == [a] by { FirstOccurrencesAppend(o1, a); }
    assert FirstOccurrences(o3) == [a, b] by { FirstOccurrencesAppend(o2, b); }
    assert FirstOccurrences(o4) == [a, b] by { FirstOccurrencesAppend(o3, a); }
    assert FirstOccurrences(o5) == [a, b] by { FirstOccurrencesAppend(o4, b); }
  }

  lemma ExampleAggregates()
    ensures Aggregate(Take([Ride1, Ride2, Ride4], 2)) == CumulativeRides(2, 30.0, 5400)
    ensures Aggregate(Take([Ride3, Ride5], 2)) == CumulativeRides(2, 23.0, 3540)
  {
    assert Take([Ride1, Ride2, Ride4], 2) == [Ride1, Ride2];
    assert [Ride1, Ride2][..1] == [Ride1] && [Ride3, Ride5][..1] == [Ride3];
    assert Aggregate([Ride1]) == CumulativeRides(1, 10.0, 3600);
    assert Aggregate([Ride3]) == CumulativeRides(1, 11.0, 2700);
  }

  lemma ExampleScores(malus: Strategy, aggregates: map<Athlete, CumulativeRides>)
    requires malus(30.0, 5400) == Ok(1.0) && malus(23.0, 3540) == Ok(2.0)
    requires aggregates == map[AthleteA := CumulativeRides(2, 30.0, 5400), AthleteB := CumulativeRides(2, 23.0, 3540)]
    ensures ScoreKeys([AthleteA, AthleteB], aggregates, malus)
      == Ok(map[AthleteA := Malus(CumulativeRides(2, 30.0, 5400), 1.0), AthleteB := Malus(CumulativeRides(2, 23.0, 3540), 2.0)])
  {
    ExampleAthletesDiffer();
    assert [AthleteA, AthleteB][1..] == [AthleteB] && [AthleteB][1..] == [];
    assert aggregates[AthleteA] == CumulativeRides(2, 30.0, 5400) && aggregates[AthleteB] == CumulativeRides(2, 23.0, 3540);
    var mb := Malus(CumulativeRides(2, 23.0, 3540), 2.0);
    var ma := Malus(CumulativeRides(2, 30.0, 5400), 1.0);
    assert ScoreKeys([], aggregates, malus) == Ok(map[]);
    assert ScoreKeys([AthleteB], aggregates, malus) == Ok(map[][AthleteB := mb]);
    var m := map[][AthleteB := mb][AthleteA := ma];
    assert m.Keys == {AthleteA, AthleteB};
    assert m == map[AthleteA := ma, AthleteB := mb];
  }

  lemma ExampleCappedAggregates()
    ensures CappedAggregates([Ride1, Ride2, Ride3, Ride4, Ride5], {AthleteA, AthleteB, AthleteC}, 2)
         == Dict([AthleteA, AthleteB], map[AthleteA := CumulativeRides(2, 30.0, 5400), AthleteB := CumulativeRides(2, 23.0, 3540)])
  {
    ExampleRidesOfA();
    ExampleRidesOfB();
    ExampleRosterStream();
    ExampleFirstOccurrences();
    ExampleAggregates();
    CappedAggregatesIs([Ride1, Ride2, Ride3, Ride4, Ride5], {AthleteA, AthleteB, AthleteC}, 2,
      Dict([AthleteA, AthleteB], map[AthleteA := CumulativeRides(2, 30.0, 5400), AthleteB := CumulativeRides(2, 23.0, 3540)]));
  }

  /** Five rides, a cap of two rides, a cutoff of 10 km and a roster of three
      athletes: A's first two rides and B's two rides are folded, C has no
      ride and does not appear, and each entry carries what the strategy
      returned for that athlete's aggregate. */
  lemma MoreActivitiesThanLimits(malus: Strategy)
    requires malus(30.0, 5400) == Ok(1.0) && malus(23.0, 3540) == Ok(2.0)
    ensures CappedMalus([Ride1, Ride2, Ride3, Ride4, Ride5], [AthleteA, AthleteB, AthleteC], 2, 10.0, malus)
        == Ok(Dict([AthleteA, AthleteB], map[AthleteA := Malus(CumulativeRides(2, 30.0, 5400), 1.0),
                                             AthleteB := Malus(CumulativeRides(2, 23.0, 3540), 2.0)]))
  {
    var activities := [Ride1, Ride2, Ride3, Ride4, Ride5];
    assert (set x | x in [AthleteA, AthleteB, AthleteC]) == {AthleteA, AthleteB, AthleteC};
    assert QualifyingRides(activities, 10.0) == activities by {
      AllQualify(activities, 10.0);
    }
    var aggregates := map[AthleteA := CumulativeRides(2, 30.0, 5400), AthleteB := CumulativeRides(2, 23.0, 3540)];
    ExampleCappedAggregates();
    ExampleScores(malus, aggregates);
  }

  function ExampleMalus(distanceKm: real): Malus {
    Malus(CumulativeRides(1, distanceKm, 3600), 0.0)
  }

  /** A total of exactly the cutoff is kept; one a thousandth of a kilometre
      below it is excluded, one a thousandth above it is kept. */
  lemma FilterExample()
    ensures FilterRidesAboveCutoffDistance(
              Dict([AthleteA, AthleteB, AthleteC],
                   map[AthleteA := ExampleMalus(100.0), AthleteB := ExampleMalus(99.999), AthleteC := ExampleMalus(100.001)]),
              100.0)
         == (Dict([AthleteA, AthleteC], map[AthleteA := ExampleMalus(100.0), AthleteC := ExampleMalus(100.001)]), [AthleteB])
  {
    ExampleAthletesDiffer();
    var a, b, c := AthleteA, AthleteB, AthleteC;
    var values := map[a := ExampleMalus(100.0), b := ExampleMalus(99.999), c := ExampleMalus(100.001)];
    assert values[a] == ExampleMalus(100.0) && values[b] == ExampleMalus(99.999) && values[c] == ExampleMalus(100.001);
    assert [a, b, c][1..] == [b, c] && [b, c][1..] == [c] && [c][1..] == [];
    assert Select([c], values, 100.0, true) == [c] && Select([c], values, 100.0, false) == [];
    assert Select([b, c], values, 100.0, true) == [c] && Select([b, c], values, 100.0, false) == [b];
    assert Select([a, b, c], values, 100.0, true) == [a, c] && Select([a, b, c], values, 100.0, false) == [b];
    var kept := map x | x in [a, c] :: values[x];
    assert kept.Keys == {a, c};
    assert kept == map[a := ExampleMalus(100.0), c := ExampleMalus(100.001)];
  }
}
