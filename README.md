# Pakefte malus, modelled in Dafny

A model of the ride-scoring core of *pakefte-malus*. Each athlete of a cycling
club gets a "malus": how far their cumulative distance is from what a steady
22.5 km/h covers in the same riding time.

The model covers three source files:

- `malus/score.py` (module `Score`):
  - the score `pakefte_malus`;
  - the value types `Athlete`, `Activity`, `CumulativeRides` and `Malus`;
  - the aggregation engine `malus_by_athlete.__call__`, a class whose
    `Call` method keeps the source's `while` loop, its per-athlete quota map
    and its early exit;
  - `_decrease_remaining`;
  - the uncapped helper `_cumulative_rides_by_athlete`, a `for` loop;
  - the post-filter `filter_rides_above_cutoff_distance`.
- `score.py`, the older draft (module `DraftScore`): the metre-based score and
  `rides_with_malus`, which groups one scored entry per ride under the
  athlete's full name.
- `malus/server.py` (module `Server`): the stable descending sort
  `_sorted_by_malus_desc`, and the name lists of the JSON reply and of the
  chat message.

Module `Dicts` models Python's insertion-ordered `dict` as a key-order
sequence plus a map. `Put` appends a new key last and keeps an existing key in
its place.

Conventions:

- Distances and scores are `real`, durations are whole seconds (`nat`), and
  hours are `seconds / 3600`.
- A zero duration makes Python raise `ZeroDivisionError`. The model returns
  `Err(ZeroDivision)` instead.
- The scoring strategy is a function-valued parameter, `(distance, seconds)`
  to `Result<real>`.

Every loop is proved against a specification function:

- `Call` returns exactly `CappedMalus`. `CappedMalus` folds each roster
  athlete's first `max_rides_per_athlete` qualifying rides, in stream order,
  and scores each aggregate in key order.
- `CumulativeRidesByAthlete` returns `UncappedAggregates`.
- `RidesWithMalus` returns the grouping described by `GroupsOf`.

Lemmas then state what those specifications mean: counts and sums, key order,
membership, the early-exit equivalence and the repository's own test cases.

## Model

| member | source | states |
|---|---|---|
| Score.PakefteMalus | malus/score.py:8-11 | The score fails (division by zero) exactly when the duration is zero; otherwise it is never negative |
| Score.MalusIsDistanceDeviation | malus/score.py:8-11 | For a positive duration the score is \|distance − 22.5·hours\|, and it is zero exactly when the average speed is 22.5 km/h |
| Score.MalusFromAvgSpeed | malus/score.py:8-11 | The score of an aggregate is \|avg_speed_kmh − 22.5\| times its hours |
| Score.MalusLinearInTime | malus/score.py:8-11 | At a fixed average speed the score is the speed's deviation times the hours, so it grows linearly with time |
| Score.MalusMonotoneInDeviation | malus/score.py:8-11 | At a fixed duration, a larger speed deviation never gives a smaller score |
| Score.MalusExamples | tests/test_score.py:21-25 | The exact test cases: (22.5 km, 1 h) → 0, (112.5 km, 5 h) → 0, (0 km, 1 h) → 22.5, (25 km, 1 h) → 2.5; a zero duration fails |
| Score.FullNameParts | malus/score.py:19-20 | The full name is the first name, one space and the last name: its length is theirs plus one and both parts can be read back |
| Score.CumulativeRides.AvgSpeedKmh | malus/score.py:37-39 | The average speed fails exactly for a zero total time; otherwise speed times hours gives back the distance |
| Score.AggregateIsSums | malus/score.py:41-50 | Starting from `empty()` and applying `add_ride` per ride gives count = number of rides and distance and time = their sums |
| Score.QualifyingRides | malus/score.py:68 | An activity is among the rides exactly when its type is "Ride" and its distance reaches the cutoff; the filter never adds activities |
| Score.DecreaseRemaining | malus/score.py:83-88 | The athlete's quota drops by one and the entry goes when nothing is left; an absent athlete stays absent; every other entry is untouched; positive quotas stay positive |
| Score.RemainingAfterDecrease | malus/score.py:77 | Decreasing the quota map of the scanned rides for the next ride's owner gives the quota map of the scanned rides plus that ride |
| Score.QuotaPlusFoldedIsCap | malus/score.py:71-77 | For an athlete still in the quota map, quota left plus rides folded equals the cap; a roster athlete dropped from it has folded the whole cap |
| Score.AggregatesStep | malus/score.py:73-76 | One ride is folded into its owner's aggregate exactly when the owner has quota left; otherwise the aggregates are unchanged |
| Score.ExhaustedScanIsStable | malus/score.py:72 | Once no quota is left, further rides change neither the quotas nor the aggregates, so stopping early gives the same result as scanning the whole stream |
| Score.ScoreKeys | malus/score.py:79-80 | Scoring succeeds exactly when the strategy succeeds on every aggregate; each entry is `Malus(rides, malus(distance, time))`; a failure is the first failing key's error |
| Score.ScoreAll | malus/score.py:79-80 | The scored dict keeps the aggregates' key order |
| Score.MalusByAthlete.constructor | malus/score.py:60-65 | The engine stores its cap, cutoff and strategy |
| Score.MalusByAthlete.Default | malus/score.py:60-62 | The defaults are 10 rides, 10 km and `pakefte_malus` |
| Score.MalusByAthlete.Call | malus/score.py:67-80 | The loop with its quota map and early exit returns exactly the capped specification `CappedMalus` |
| Score.CappedMalusEntries | malus/score.py:68-80 | An athlete is in the result exactly when on the roster, with a positive cap and at least one qualifying ride; their entry aggregates their first min(cap, n) qualifying rides in stream order (count, summed distance and time) and carries the strategy's score of it |
| Score.CappedMalusKeyOrder | malus/score.py:75-76 | The result's keys are distinct and ordered by each roster athlete's first qualifying ride in the stream |
| Score.EmptyResults | malus/score.py:68-71 | No qualifying activity (empty stream, no "Ride", all below the cutoff) or an empty roster gives `{}` |
| Score.PakefteMalusNeverFails | malus/score.py:79 | With the default strategy the engine never divides by zero when every qualifying ride has a positive duration |
| Score.CumulativeRidesByAthlete | malus/score.py:99-104 | The `for` loop returns the uncapped aggregates: every owner, in order of first ride, with the aggregate of all their rides |
| Score.UncappedScanStep | malus/score.py:101-103 | With no cap in reach, one more ride is added to its owner's running aggregate, and a new owner goes last |
| Score.UncappedAggregatesAreSums | malus/score.py:99-104 | An athlete has an entry exactly when they own a ride; the entry counts their rides and sums their distances and times |
| Score.UncappedIsCappedWithoutLimit | malus/score.py:99-104 | With every owner on the roster and a cap of at least the stream length, the capped engine's aggregates equal the uncapped helper's |
| Score.FilterRidesAboveCutoffDistance | malus/score.py:91-96 | The kept dict is well formed and its values are the input's values |
| Score.FilterRidesAboveCutoffDistanceSplits | malus/score.py:91-96 | An entry is kept exactly when its distance reaches the cutoff (inclusive) and excluded exactly when below; kept values are unchanged; both outputs follow the input's key order; together they hold every input athlete exactly once |
| Score.MoreActivitiesThanLimits | tests/test_score.py:57-81 | Five rides, a cap of 2, a cutoff of 10 km and three roster athletes give A ↦ (2, 30 km, 1 h 30 min, 1.0) then B ↦ (2, 23 km, 59 min, 2.0), and nothing for C |
| Score.FilterExample | tests/test_score.py:84-103 | Totals of 100, 99.999 and 100.001 km with a 100 km cutoff keep A and C, in that order, and exclude [B] |
| Dicts.Dict.Items | malus/server.py:52 | `items()` lists exactly the dict's pairs, one per key |
| Dicts.Dict.Put | malus/score.py:76 | Assigning a key keeps the dict well formed: a new key goes last and an existing key keeps its place |
| Dicts.FirstOccurrences | malus/score.py:75-76 | The key order of a dict filled in turn: each element once, exactly the elements of the input |
| Dicts.FirstOccurrencesOrdered | malus/score.py:75-76 | Keys come in the order of their first insertion |
| DraftScore.PakefteMalus | score.py:8-11 | The metre-based score fails exactly for a zero duration |
| DraftScore.MalusIsDistanceDeviation | score.py:8-11 | The metre-based score is the km score of distance/1000; for a positive duration it is \|d/1000 − 22.5·hours\|, never negative and zero exactly at 22.5 km/h |
| DraftScore.MalusExamples | score.py:8-11 | The km cases of tests/test_score.py:22-25 rescaled to metres hold of the metre formula: (22500 m, 1 h) → 0, (112500 m, 5 h) → 0, (0 m, 1 h) → 22.5, (25000 m, 1 h) → 2.5. The root tests pass km values and are not reproduced |
| DraftScore.QualifyingRides | score.py:33 | An activity is among the rides exactly when its type is "Ride" and its distance in metres reaches the cutoff |
| DraftScore.RidesWithMalus | score.py:32-37 | The call succeeds exactly when every qualifying ride is scored; then the result groups the rides by full name, keys in order of each name's first ride, each group holding the entries of exactly that name's rides in stream order |
| DraftScore.DefaultStrategyScoresAll | score.py:32 | With the default strategy `pakefte_malus`, every qualifying ride is scored exactly when each has a positive duration |
| DraftScore.GroupStep | score.py:35-36 | One iteration appends the ride's entry to its name's group and adds the name last when new |
| DraftScore.GroupForEntries | score.py:36 | Entry i of a group is ride i's (name, distance_m, time) with that ride's own score |
| DraftScore.GroupNames | score.py:34-37 | A name has a group exactly when some qualifying ride carries it; an empty input gives `{}` |
| DraftScore.GroupsAreUnique | score.py:34-37 | The grouping is determined by the rides |
| DraftScore.EntriesCountRides | score.py:33-36 | The groups together hold as many entries as there are qualifying rides |
| DraftScore.SharedFullName | score.py:19-20 | Two different athletes can have the same full name ("Ana" + "de la Vega", "Ana de" + "la Vega") |
| DraftScore.SharedFullNameSharesGroup | score.py:36 | Rides of those two athletes are filed under one key, as one group in stream order |
| Server.SortDescIsStableSort | malus/server.py:52 | The sort is a permutation, scores never increase along it, and entries with equal scores keep their input order |
| Server.SortedByMalusDescRanks | malus/server.py:51-52 | The ranking of a result dict holds exactly its items, as many as it has keys, highest score first, ties in insertion order |
| Server.MalusList | malus/server.py:67 | The JSON "malus" list has one `"first last"` ↦ Malus object per entry, in the given order |
| Server.ExcludedList | malus/server.py:68 | The JSON "excluded" list holds each excluded athlete's `"first last"` name, in the given order |
| Server.JoinPlacesPart | malus/server.py:60 | In `sep.join(parts)`, part i sits at its offset (after every earlier part and separator) |
| Server.JoinSeparatesParts | malus/server.py:60 | In `sep.join(parts)`, the separator sits right before every part but the first |
| Server.ExcludedLineNames | malus/server.py:60 | The chat message's excluded line holds the i-th excluded athlete's `"first last"` name at its offset |
| Server.ExcludedLineSeparators | malus/server.py:60 | In that line, every name after the first is preceded by ", " |
| Server.ExcludedLineExamples | malus/server.py:60 | No excluded athlete gives an empty line; one gives just their name; two are joined by ", " |

## Left out

- HTTP endpoints, OAuth, the Telegram bot, Strava clients, encryption and configuration: I/O and foreign libraries.
- The pipeline wiring at malus/server.py:81-83 is not modelled. It does not match the current signatures: line 82 would construct the engine with the activity list as `max_rides_per_athlete`.
- The root `server.py` is HTTP and Telegram glue around `rides_with_malus` (server.py:10, server.py:53): I/O, not modelled.
- The root `cli.py` and root `test_score.py` are not modelled. They call a `malus_by_athlete` function that the root `score.py` does not define (cli.py:8, cli.py:23, test_score.py:28-51), and the tests' km values contradict its metre-based formula.
- IEEE floating point is not modelled. The `pytest.approx` cases, the `:.2f` formatting and the lines of the chat message other than the excluded names are left out; so is the JSON serialisation of `Malus` through `default=str`.
- NaN scores, which would break the order `sorted` relies on, are not modelled (reals have none).
- Durations are whole, non-negative seconds. Sub-second and negative `timedelta`s are not modelled.
- The activity stream is a finite sequence. `QualifyingRides` reads every activity before the loop, whereas the lazy `filter` at malus/score.py:68 reads activities only as the loop asks for them. Lazy iteration with `next` is replaced by taking the head of the remaining qualifying rides; the early exit leaves the rest of those unscanned, and `ExhaustedScanIsStable` states what that means for the result.
- Score.DecreaseRemaining: returns the new quota map instead of mutating the caller's dict in place. The engine's map is not aliased anywhere else.
- Score.MalusByAthlete.Call: "the strategy is called exactly once per key" is not stated. The strategy is a pure function here, so only its results can be described. A stateful strategy, like the tests' `Mock` with successive return values, is modelled by requiring the values of its two calls (`MoreActivitiesThanLimits`).
- Score.MalusByAthlete.Call: a strategy that raises is modelled as an `Err` result. The first failing key in dict order decides the error, which is where Python's comprehension would raise.
- DraftScore.RidesWithMalus: the strategy is a required parameter; the default `malus=pakefte_malus` of score.py:32 is not a default here. `DefaultStrategyScoresAll` states what the call gives with that strategy.
- DraftScore.RidesWithMalus: a failing strategy ends the call with an `Err` carrying that ride's error. The contract states only when the call fails, not which error it carries.
- DraftScore.DraftActivity: the source annotates `name` as a float but only copies it into the entry; it is modelled as a string.
- The annotation of the engine's strategy in malus/score.py:62 (`Callable[[float, float], Malus]`) does not match how it is used; the model follows the use, a strategy returning the score.
- The tests refer to the engine as `MalusByAthlete`, while malus/score.py:59 names the class `malus_by_athlete`; the model follows the class.
