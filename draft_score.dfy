/** The older draft of the scorer, in the repository's root `score.py`:
    distances in metres, and one scored entry per ride, grouped under the
    athlete's full name. */
module DraftScore {
  import opened Dicts
  import Score

  /** `name` is carried through untouched; the source annotates it as a float
      but only ever copies it into the entry. */
  datatype DraftActivity = DraftActivity(kind: string, name: string, distanceM: real, seconds: nat, athlete: Score.Athlete)

  /** One entry of a group: `(name, distance_m, time, malus(distance_m, time))`. */
  datatype RideEntry = RideEntry(name: string, distanceM: real, seconds: nat, malus: real)

  /** A scoring strategy on (distance in metres, duration in seconds). */
  type MetreStrategy = (real, nat) -> Score.Result<real>

  /** `pakefte_malus` of the draft: the same score, on a distance in metres. */
  function PakefteMalus(distanceM: real, seconds: nat): (r: Score.Result<real>)
    ensures r.Err? <==> seconds == 0
  {
    if seconds == 0 then Score.Err(Score.ZeroDivision)
    else
      var timeH := Score.Hours(seconds);
      var avgSpeedKmh := (distanceM / 1000.0) / timeH;
      Score.Ok(Score.Abs(avgSpeedKmh - Score.CanonicalSpeedKmh) * timeH)
  }

  /** For a positive duration the score is the deviation of the distance, in
      km, from what 22.5 km/h covers in that time: never negative, and zero
      exactly at the target speed. A zero duration is a division by zero. */
  lemma MalusIsDistanceDeviation(distanceM: real, seconds: nat)
    ensures PakefteMalus(distanceM, seconds) == Score.PakefteMalus(distanceM / 1000.0, seconds)
    ensures seconds > 0 ==>
      PakefteMalus(distanceM, seconds) == Score.Ok(Score.Abs(distanceM / 1000.0 - Score.CanonicalSpeedKmh * Score.Hours(seconds)))
    ensures seconds > 0 ==> PakefteMalus(distanceM, seconds).value >= 0.0
    ensures seconds > 0 ==>
      (PakefteMalus(distanceM, seconds).value == 0.0 <==> distanceM / 1000.0 == Score.CanonicalSpeedKmh * Score.Hours(seconds))
  {
    var km := distanceM / 1000.0;
    if seconds > 0 {
      var h := Score.Hours(seconds);
      assert PakefteMalus(distanceM, seconds).Ok? && Score.PakefteMalus(km, seconds).Ok?;
      assert PakefteMalus(distanceM, seconds).value == Score.Abs(km / h - Score.CanonicalSpeedKmh) * h;
      assert Score.PakefteMalus(km, seconds).value == Score.Abs(km / h - Score.CanonicalSpeedKmh) * h;
      Score.MalusIsDistanceDeviation(km, seconds);
    }
  }

  lemma MalusExamples()
    ensures PakefteMalus(22500.0, 3600) == Score.Ok(0.0)
    ensures PakefteMalus(112500.0, 5 * 3600) == Score.Ok(0.0)
    ensures PakefteMalus(0.0, 3600) == Score.Ok(22.5)
    ensures PakefteMalus(25000.0, 3600) == Score.Ok(2.5)
  {
  }

  // ---------------------------------------------------------------------------
  // Specification of `rides_with_malus`

  /** The draft's filter: type exactly "Ride" and at least the cutoff distance. */
  predicate IsCountedRide(a: DraftActivity, cutoffM: real) {
    a.kind == "Ride" && a.distanceM >= cutoffM
  }

  /** The list comprehension that selects the rides, in stream order. */
  function QualifyingRides(activities: seq<DraftActivity>, cutoffM: real): (rides: seq<DraftActivity>)
    ensures forall r | r in rides :: r in activities && IsCountedRide(r, cutoffM)
    ensures forall r | r in activities && IsCountedRide(r, cutoffM) :: r in rides
  {
    if activities == [] then []
    else
      var init, a := activities[..|activities| - 1], activities[|activities| - 1];
      assert activities == init + [a];
      var rides := QualifyingRides(init, cutoffM);
      if IsCountedRide(a, cutoffM) then rides + [a] else rides
  }

  /** The grouping key of a ride: its athlete's full name. */
  function Key(r: DraftActivity): string {
    Score.FullName(r.athlete)
  }

  /** The key of every ride, in stream order. */
  function Names(rides: seq<DraftActivity>): (names: seq<string>)
    ensures |names| == |rides|
  {
    if rides == [] then [] else Names(rides[..|rides| - 1]) + [Key(rides[|rides| - 1])]
  }

  /** The rides filed under `key`, in stream order. */
  function RidesNamed(rides: seq<DraftActivity>, key: string): (mine: seq<DraftActivity>)
    ensures forall r | r in mine :: r in rides && Key(r) == key
  {
    if rides == [] then []
    else
      var init, r := rides[..|rides| - 1], rides[|rides| - 1];
      if Key(r) == key then RidesNamed(init, key) + [r] else RidesNamed(init, key)
  }

  /** Every ride is scored successfully. */
  predicate AllScored(rides: seq<DraftActivity>, malus: MetreStrategy) {
    forall r | r in rides :: malus(r.distanceM, r.seconds).Ok?
  }

  /** The entry the draft appends for a ride. */
  function EntryFor(r: DraftActivity, malus: MetreStrategy): RideEntry
    requires malus(r.distanceM, r.seconds).Ok?
  {
    RideEntry(r.name, r.distanceM, r.seconds, malus(r.distanceM, r.seconds).value)
  }

  /** The entries of the rides, one per ride. */
  function GroupFor(rides: seq<DraftActivity>, malus: MetreStrategy): (group: seq<RideEntry>)
    requires AllScored(rides, malus)
    ensures |group| == |rides|
  {
    if rides == [] then []
    else
      var init := rides[..|rides| - 1];
      assert forall r | r in init :: r in rides;
      GroupFor(init, malus) + [EntryFor(rides[|rides| - 1], malus)]
  }

  /** `d` groups the rides by full name: keys in order of each name's first
      ride, and under each key the entries of exactly the rides with that
      name, in stream order. */
  ghost predicate GroupsOf(d: Dict<string, seq<RideEntry>>, rides: seq<DraftActivity>, malus: MetreStrategy) {
    && d.Valid()
    && AllScored(rides, malus)
    && d.keys == FirstOccurrences(Names(rides))
    && (forall k | k in d.keys :: k in d.values && d.values[k] == GroupFor(RidesNamed(rides, k), malus))
  }

  // ---------------------------------------------------------------------------
  // Steps of the grouping loop

  lemma RidesNamedAppend(p: seq<DraftActivity>, x: DraftActivity, key: string)
    ensures RidesNamed(p + [x], key) == if Key(x) == key then RidesNamed(p, key) + [x] else RidesNamed(p, key)
  {
    assert (p + [x])[..|p|] == p;
  }

  lemma NamesAppend(p: seq<DraftActivity>, x: DraftActivity)
    ensures Names(p + [x]) == Names(p) + [Key(x)]
  {
    assert (p + [x])[..|p|] == p;
  }

  /** Name `i` is the key of ride `i`. */
  lemma {:induction false} NamesAt(rides: seq<DraftActivity>)
    ensures forall i | 0 <= i < |rides| :: Names(rides)[i] == Key(rides[i])
  {
    if rides != [] {
      var init := rides[..|rides| - 1];
      NamesAt(init);
      assert forall i | 0 <= i < |init| :: rides[i] == init[i];
    }
  }

  /** A name that no ride carries has no rides. */
  lemma {:induction false} UnnamedHasNoRides(p: seq<DraftActivity>, key: string)
    requires key !in Names(p)
    ensures RidesNamed(p, key) == []
  {
    if p != [] {
      var init, x := p[..|p| - 1], p[|p| - 1];
      assert p == init + [x];
      NamesAppend(init, x);
      UnnamedHasNoRides(init, key);
      RidesNamedAppend(init, x, key);
    }
  }

  /** Entry `i` of a group is ride `i`'s name, distance and time with that
      ride's own score: the group keeps the rides' order. */
  lemma {:induction false} GroupForEntries(rides: seq<DraftActivity>, malus: MetreStrategy)
    requires AllScored(rides, malus)
    ensures forall i | 0 <= i < |rides| ::
      && malus(rides[i].distanceM, rides[i].seconds).Ok?
      && GroupFor(rides, malus)[i] == RideEntry(rides[i].name, rides[i].distanceM, rides[i].seconds, malus(rides[i].distanceM, rides[i].seconds).value)
  {
    if rides != [] {
      var init := rides[..|rides| - 1];
      assert forall r | r in init :: r in rides;
      GroupForEntries(init, malus);
      assert forall i | 0 <= i < |init| :: rides[i] == init[i];
    }
  }

  lemma GroupForAppend(rides: seq<DraftActivity>, x: DraftActivity, malus: MetreStrategy)
    requires AllScored(rides, malus) && malus(x.distanceM, x.seconds).Ok?
    ensures AllScored(rides + [x], malus)
    ensures GroupFor(rides + [x], malus) == GroupFor(rides, malus) + [EntryFor(x, malus)]
  {
    assert (rides + [x])[..|rides|] == rides;
  }

  /** One iteration: the ride's entry is appended to its name's group, and
      the name is added last when it is new. */
  lemma GroupStep(p: seq<DraftActivity>, x: DraftActivity, malus: MetreStrategy, d: Dict<string, seq<RideEntry>>, m: real)
    requires GroupsOf(d, p, malus)
    requires malus(x.distanceM, x.seconds) == Score.Ok(m)
    ensures GroupsOf(d.Put(Key(x), d.Get(Key(x), []) + [RideEntry(x.name, x.distanceM, x.seconds, m)]), p + [x], malus)
  {
    var k, p' := Key(x), p + [x];
    var e := d.Put(k, d.Get(k, []) + [EntryFor(x, malus)]);
    assert AllScored(p', malus) by {
      GroupForAppend(p, x, malus);
    }
    assert e.keys == FirstOccurrences(Names(p')) by {
      NamesAppend(p, x);
      FirstOccurrencesAppend(Names(p), k);
    }
    assert d.Get(k, []) == GroupFor(RidesNamed(p, k), malus) by {
      if k !in d.values {
        UnnamedHasNoRides(p, k);
      }
    }
    forall b | b in e.keys ensures b in e.values && e.values[b] == GroupFor(RidesNamed(p', b), malus) {
      RidesNamedAppend(p, x, b);
      if b == k {
        GroupForAppend(RidesNamed(p, k), x, malus);
      }
    }
  }

  // ---------------------------------------------------------------------------
  // The draft's grouping loop

  /** `rides_with_malus`: the qualifying rides, each with its own score,
      grouped under the athlete's full name. A ride the strategy cannot score
      (a zero duration, for the default) aborts the whole call. */
  method RidesWithMalus(activities: seq<DraftActivity>, cutoffM: real, malus: MetreStrategy)
    returns (r: Score.Result<Dict<string, seq<RideEntry>>>)
    ensures r.Ok? <==> AllScored(QualifyingRides(activities, cutoffM), malus)
    ensures r.Ok? ==> GroupsOf(r.value, QualifyingRides(activities, cutoffM), malus)
  {
    var rides := QualifyingRides(activities, cutoffM);
    var ridesByAthlete: Dict<string, seq<RideEntry>> := EmptyDict();
    ghost var scanned: seq<DraftActivity> := [];
    var rest := rides;
    while rest != []
      invariant scanned + rest == rides
      invariant AllScored(scanned, malus)
      invariant GroupsOf(ridesByAthlete, scanned, malus)
    {
      var ride := rest[0];
      Score.MoveHead(scanned, rest);
      rest := rest[1..];
      var m := malus(ride.distanceM, ride.seconds);
      if m.Err? {
        assert ride in rides;
        return Score.Err(m.error);
      }
      GroupStep(scanned, ride, malus, ridesByAthlete, m.value);
      var key := Score.FullName(ride.athlete);
      ridesByAthlete := ridesByAthlete.Put(key, ridesByAthlete.Get(key, []) + [RideEntry(ride.name, ride.distanceM, ride.seconds, m.value)]);
      scanned := scanned + [ride];
    }
    assert scanned + rest == scanned;
    r := Score.Ok(ridesByAthlete);
  }

  /** With the default strategy, `pakefte_malus`, the call succeeds exactly when
      every qualifying ride has a positive duration. */
  lemma DefaultStrategyScoresAll(activities: seq<DraftActivity>, cutoffM: real)
    ensures AllScored(QualifyingRides(activities, cutoffM), PakefteMalus)
        <==> forall a | a in activities && IsCountedRide(a, cutoffM) :: a.seconds > 0
  {
  }

  // ---------------------------------------------------------------------------
  // What the groups hold

  /** The grouping is determined by the rides: there is one result. */
  lemma GroupsAreUnique(d1: Dict<string, seq<RideEntry>>, d2: Dict<string, seq<RideEntry>>, rides: seq<DraftActivity>, malus: MetreStrategy)
    requires GroupsOf(d1, rides, malus) && GroupsOf(d2, rides, malus)
    ensures d1 == d2
  {
    SameEntries(d1, d2);
  }

  /** A name has a group exactly when some ride carries it; an empty input
      gives no group at all. */
  lemma GroupNames(d: Dict<string, seq<RideEntry>>, rides: seq<DraftActivity>, malus: MetreStrategy, key: string)
    requires GroupsOf(d, rides, malus)
    ensures key in d.values <==> exists r | r in rides :: Key(r) == key
    ensures rides == [] ==> d.keys == [] && d.values == map[]
  {
    NamesAt(rides);
    if key in d.values {
      var i :| 0 <= i < |rides| && Names(rides)[i] == key;
      assert rides[i] in rides;
    }
    if rides == [] {
      assert d.values.Keys == {};
    }
  }

  /** Entries over a key list, counting each group. */
  function TotalEntries(keys: seq<string>, values: map<string, seq<RideEntry>>): nat
    requires forall k | k in keys :: k in values
  {
    if keys == [] then 0 else TotalEntries(keys[..|keys| - 1], values) + |values[keys[|keys| - 1]]|
  }

  /** Rides over a key list, counting each name's rides. */
  function RidesUnder(keys: seq<string>, rides: seq<DraftActivity>): nat {
    if keys == [] then 0 else RidesUnder(keys[..|keys| - 1], rides) + |RidesNamed(rides, keys[|keys| - 1])|
  }

  lemma {:induction false} TotalIsRidesUnder(keys: seq<string>, d: Dict<string, seq<RideEntry>>, rides: seq<DraftActivity>, malus: MetreStrategy)
    requires AllScored(rides, malus)
    requires forall k | k in keys :: k in d.values && d.values[k] == GroupFor(RidesNamed(rides, k), malus)
    ensures TotalEntries(keys, d.values) == RidesUnder(keys, rides)
  {
    if keys != [] {
      var init := keys[..|keys| - 1];
      assert forall k | k in init :: k in keys;
      TotalIsRidesUnder(init, d, rides, malus);
    }
  }

  /** One more ride adds one to the count of the key list holding its name. */
  lemma {:induction false} RidesUnderStep(keys: seq<string>, p: seq<DraftActivity>, x: DraftActivity)
    requires Distinct(keys)
    ensures RidesUnder(keys, p + [x]) == RidesUnder(keys, p) + if Key(x) in keys then 1 else 0
  {
    if keys != [] {
      var init, k := keys[..|keys| - 1], keys[|keys| - 1];
      assert keys == init + [k];
      assert Distinct(init) && k !in init by {
        forall i, j | 0 <= i < j < |init| ensures init[i] != init[j] {
          assert init[i] == keys[i] && init[j] == keys[j];
        }
      }
      RidesUnderStep(init, p, x);
      RidesNamedAppend(p, x, k);
    }
  }

  lemma {:induction false} RidesUnderAllNames(rides: seq<DraftActivity>)
    ensures RidesUnder(FirstOccurrences(Names(rides)), rides) == |rides|
  {
    if rides != [] {
      var p, x := rides[..|rides| - 1], rides[|rides| - 1];
      assert rides == p + [x];
      RidesUnderAllNames(p);
      var keys := FirstOccurrences(Names(p));
      NamesAppend(p, x);
      FirstOccurrencesAppend(Names(p), Key(x));
      RidesUnderStep(keys, p, x);
      if Key(x) !in keys {
        assert (keys + [Key(x)])[..|keys|] == keys;
        UnnamedHasNoRides(p, Key(x));
        RidesNamedAppend(p, x, Key(x));
      }
    }
  }

  /** Every ride lands in exactly one entry: the groups hold as many entries
      as there are rides. */
  lemma EntriesCountRides(d: Dict<string, seq<RideEntry>>, rides: seq<DraftActivity>, malus: MetreStrategy)
    requires GroupsOf(d, rides, malus)
    ensures TotalEntries(d.keys, d.values) == |rides|
  {
    TotalIsRidesUnder(d.keys, d, rides, malus);
    RidesUnderAllNames(rides);
  }

  // ---------------------------------------------------------------------------
  // Two athletes with one full name

  const Ana := Score.Athlete("Ana", "de la Vega")
  const AnaDe := Score.Athlete("Ana de", "la Vega")
  const SharedName := "Ana de la Vega"
  const MorningRide := DraftActivity("Ride", "morning", 30000.0, 3600, Ana)
  const EveningRide := DraftActivity("Ride", "evening", 20000.0, 1800, AnaDe)

  /** Two different athletes, one full name. */
  lemma SharedFullName()
    ensures Ana != AnaDe
    ensures Score.FullName(Ana) == SharedName && Score.FullName(AnaDe) == SharedName
  {
    assert Ana.firstName != AnaDe.firstName by {
      assert |Ana.firstName| == 3 && |AnaDe.firstName| == 6;
    }
  }

  /** Two rides filed under one name form one group, in stream order. */
  lemma TwoRidesOneGroup(r1: DraftActivity, r2: DraftActivity, malus: MetreStrategy)
    requires Key(r1) == Key(r2)
    requires malus(r1.distanceM, r1.seconds).Ok? && malus(r2.distanceM, r2.seconds).Ok?
    ensures GroupsOf(Dict([Key(r1)], map[Key(r1) := [EntryFor(r1, malus), EntryFor(r2, malus)]]), [r1, r2], malus)
  {
    var key, p := Key(r1), [r1, r2];
    assert p == [r1] + [r2] && [r1] == [] + [r1];
    assert Names(p) == [key, key] by {
      NamesAppend([], r1);
      NamesAppend([r1], r2);
    }
    assert FirstOccurrences([key, key]) == [key] by {
      assert [key, key] == [key] + [key] && [key] == [] + [key];
      FirstOccurrencesAppend([], key);
      FirstOccurrencesAppend([key], key);
    }
    assert RidesNamed(p, key) == p by {
      RidesNamedAppend([], r1, key);
      RidesNamedAppend([r1], r2, key);
    }
    assert GroupFor(p, malus) == [EntryFor(r1, malus), EntryFor(r2, malus)] by {
      GroupForAppend([], r1, malus);
      GroupForAppend([r1], r2, malus);
    }
  }

  /** Different athletes whose first and last names join to the same full name
      share one group: the first's ride and the second's ride are filed under
      the same key, in stream order. */
  lemma SharedFullNameSharesGroup(malus: MetreStrategy, m1: real, m2: real)
    requires malus(30000.0, 3600) == Score.Ok(m1) && malus(20000.0, 1800) == Score.Ok(m2)
    ensures Ana != AnaDe
    ensures GroupsOf(Dict([SharedName], map[SharedName := [RideEntry("morning", 30000.0, 3600, m1), RideEntry("evening", 20000.0, 1800, m2)]]),
                     [MorningRide, EveningRide], malus)
  {
    SharedFullName();
    TwoRidesOneGroup(MorningRide, EveningRide, malus);
  }
}
