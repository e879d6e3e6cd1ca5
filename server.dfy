/** The ranking and the name lists of `malus/server.py`: the entries sorted by
    score, highest first, and the athletes' names as the JSON reply and the
    chat message render them. */
module Server {
  import opened Dicts
  import Score

  /** One `(athlete, Malus)` item of the result dict. */
  type Entry = (Score.Athlete, Score.Malus)

  function ScoreOf(e: Entry): real {
    e.1.malus
  }

  // ---------------------------------------------------------------------------
  // Ranking

  /** Scores never increase along `s`. */
  predicate Descending(s: seq<Entry>) {
    forall i, j | 0 <= i < j < |s| :: ScoreOf(s[i]) >= ScoreOf(s[j])
  }

  /** The entries of `s` whose score is `v`, in the order of `s`. */
  function WithScore(s: seq<Entry>, v: real): seq<Entry> {
    if s == [] then [] else (if ScoreOf(s[0]) == v then [s[0]] else []) + WithScore(s[1..], v)
  }

  /** `x` goes before the first entry whose score is not above its own, so it
      stays ahead of the later entries it ties with. */
  function Insert(x: Entry, t: seq<Entry>): seq<Entry> {
    if t == [] || ScoreOf(t[0]) <= ScoreOf(x) then [x] + t else [t[0]] + Insert(x, t[1..])
  }

  /** A stable sort on the score, highest first. */
  function SortDesc(s: seq<Entry>): seq<Entry> {
    if s == [] then [] else Insert(s[0], SortDesc(s[1..]))
  }

  /** `_sorted_by_malus_desc`: `sorted(malus.items(), key=score, reverse=True)`. */
  function SortedByMalusDesc(malus: Dict<Score.Athlete, Score.Malus>): seq<Entry>
    requires malus.Valid()
  {
    SortDesc(malus.Items())
  }

  lemma {:induction false} InsertPermutes(x: Entry, t: seq<Entry>)
    ensures multiset(Insert(x, t)) == multiset{x} + multiset(t)
  {
    if t != [] && ScoreOf(t[0]) > ScoreOf(x) {
      InsertPermutes(x, t[1..]);
      assert t == [t[0]] + t[1..];
    }
  }

  lemma ConsDescending(h: Entry, r: seq<Entry>)
    requires Descending(r)
    requires forall y | y in r :: ScoreOf(y) <= ScoreOf(h)
    ensures Descending([h] + r)
  {
    var s := [h] + r;
    forall i, j | 0 <= i < j < |s| ensures ScoreOf(s[i]) >= ScoreOf(s[j]) {
      assert s[j] == r[j - 1];
      if i > 0 {
        assert s[i] == r[i - 1];
      }
    }
  }

  lemma {:induction false} InsertDescending(x: Entry, t: seq<Entry>)
    requires Descending(t)
    ensures Descending(Insert(x, t))
  {
    if t == [] || ScoreOf(t[0]) <= ScoreOf(x) {
      forall y | y in t ensures ScoreOf(y) <= ScoreOf(x) {
        var j :| 0 <= j < |t| && t[j] == y;
        assert ScoreOf(t[0]) >= ScoreOf(t[j]) || j == 0;
      }
      ConsDescending(x, t);
    } else {
      var tail := t[1..];
      assert Descending(tail) by {
        forall i, j | 0 <= i < j < |tail| ensures ScoreOf(tail[i]) >= ScoreOf(tail[j]) {
          assert tail[i] == t[i + 1] && tail[j] == t[j + 1];
        }
      }
      InsertDescending(x, tail);
      InsertPermutes(x, tail);
      forall y | y in Insert(x, tail) ensures ScoreOf(y) <= ScoreOf(t[0]) {
        assert y in multiset(Insert(x, tail));
        if y != x {
          var j :| 0 <= j < |tail| && tail[j] == y;
          assert t[j + 1] == y;
        }
      }
      ConsDescending(t[0], Insert(x, tail));
    }
  }

  /** Inserting `x` puts it ahead of every entry it ties with and moves no
      other entry past one with the same score. */
  lemma {:induction false} InsertKeepsTies(x: Entry, t: seq<Entry>, v: real)
    ensures WithScore(Insert(x, t), v) == if ScoreOf(x) == v then [x] + WithScore(t, v) else WithScore(t, v)
  {
    if t == [] || ScoreOf(t[0]) <= ScoreOf(x) {
      assert ([x] + t)[1..] == t;
    } else {
      InsertKeepsTies(x, t[1..], v);
      assert ([t[0]] + Insert(x, t[1..]))[1..] == Insert(x, t[1..]);
    }
  }

  /** The sort returns the same entries, scores never increase, and the
      entries with any one score come out in their input order: the sort is
      stable, as Python's `sorted` stays with `reverse=True`. */
  lemma {:induction false} SortDescIsStableSort(s: seq<Entry>)
    ensures multiset(SortDesc(s)) == multiset(s)
    ensures Descending(SortDesc(s))
    ensures forall v :: WithScore(SortDesc(s), v) == WithScore(s, v)
  {
    if s != [] {
      SortDescIsStableSort(s[1..]);
      InsertPermutes(s[0], SortDesc(s[1..]));
      assert s == [s[0]] + s[1..];
      InsertDescending(s[0], SortDesc(s[1..]));
      forall v ensures WithScore(SortDesc(s), v) == WithScore(s, v) {
        InsertKeepsTies(s[0], SortDesc(s[1..]), v);
      }
    }
  }

  /** The ranking of a result dict: its items, highest score first, ties in
      the dict's insertion order. */
  lemma SortedByMalusDescRanks(malus: Dict<Score.Athlete, Score.Malus>)
    requires malus.Valid()
    ensures multiset(SortedByMalusDesc(malus)) == multiset(malus.Items())
    ensures |SortedByMalusDesc(malus)| == |malus.keys|
    ensures Descending(SortedByMalusDesc(malus))
    ensures forall v :: WithScore(SortedByMalusDesc(malus), v) == WithScore(malus.Items(), v)
  {
    SortDescIsStableSort(malus.Items());
    assert |SortedByMalusDesc(malus)| == |multiset(SortedByMalusDesc(malus))|;
  }

  // ---------------------------------------------------------------------------
  // Name lists

  /** The JSON `"malus"` list: one single-key object per entry, the athlete's
      `"first last"` name to the entry's Malus, in the given order. */
  function MalusList(sorted: seq<Entry>): (objects: seq<(string, Score.Malus)>)
    ensures |objects| == |sorted|
    ensures forall i | 0 <= i < |sorted| :: objects[i] == (Score.FullName(sorted[i].0), sorted[i].1)
  {
    if sorted == [] then [] else [(Score.FullName(sorted[0].0), sorted[0].1)] + MalusList(sorted[1..])
  }

  /** The JSON `"excluded"` list: each excluded athlete's `"first last"`
      name, in the given order. */
  function ExcludedList(excluded: seq<Score.Athlete>): (names: seq<string>)
    ensures |names| == |excluded|
    ensures forall i | 0 <= i < |excluded| :: names[i] == Score.FullName(excluded[i])
  {
    if excluded == [] then [] else [Score.FullName(excluded[0])] + ExcludedList(excluded[1..])
  }

  /** `sep.join(parts)` */
  function Join(parts: seq<string>, sep: string): string {
    if |parts| == 0 then ""
    else if |parts| == 1 then parts[0]
    else Join(parts[..|parts| - 1], sep) + sep + parts[|parts| - 1]
  }

  /** The excluded names of the chat message, joined with `", "`. */
  function ExcludedLine(excluded: seq<Score.Athlete>): string {
    Join(ExcludedList(excluded), ", ")
  }

  /** Where part `i` starts in `sep.join(parts)`: after each earlier part and
      its separator. */
  function Offset(parts: seq<string>, sep: string, i: nat): nat
    requires i <= |parts|
  {
    if i == 0 then 0 else Offset(parts, sep, i - 1) + |parts[i - 1]| + |sep|
  }

  /** An offset depends only on the parts before it. */
  lemma {:induction false} OffsetOfPrefix(parts: seq<string>, init: seq<string>, sep: string, i: nat)
    requires |init| <= |parts| && init == parts[..|init|] && i <= |init|
    ensures Offset(parts, sep, i) == Offset(init, sep, i)
  {
    if i > 0 {
      OffsetOfPrefix(parts, init, sep, i - 1);
      assert parts[i - 1] == init[i - 1];
    }
  }

  /** The joined string ends with the last part. */
  lemma {:induction false} JoinLength(parts: seq<string>, sep: string)
    requires parts != []
    ensures |Join(parts, sep)| == Offset(parts, sep, |parts| - 1) + |parts[|parts| - 1]|
  {
    var n := |parts|;
    if n > 1 {
      var init := parts[..n - 1];
      JoinLength(init, sep);
      OffsetOfPrefix(parts, init, sep, n - 2);
    }
  }

  lemma PrefixSlice(a: string, b: string, lo: nat, hi: nat)
    requires lo <= hi <= |a|
    ensures (a + b)[lo..hi] == a[lo..hi]
  {
  }

  /** Part `i` sits at its offset in the joined string. */
  lemma {:induction false} JoinPlacesPart(parts: seq<string>, sep: string, i: nat)
    requires i < |parts|
    ensures Offset(parts, sep, i) + |parts[i]| <= |Join(parts, sep)|
    ensures Join(parts, sep)[Offset(parts, sep, i)..Offset(parts, sep, i) + |parts[i]|] == parts[i]
  {
    var n := |parts|;
    JoinLength(parts, sep);
    if n > 1 {
      var init, last := parts[..n - 1], parts[n - 1];
      var j := Join(init, sep);
      assert Join(parts, sep) == j + (sep + last);
      JoinLength(init, sep);
      if i < n - 1 {
        JoinPlacesPart(init, sep, i);
        OffsetOfPrefix(parts, init, sep, i);
        assert init[i] == parts[i];
        PrefixSlice(j, sep + last, Offset(init, sep, i), Offset(init, sep, i) + |init[i]|);
      } else {
        OffsetOfPrefix(parts, init, sep, n - 2);
        assert Offset(parts, sep, i) == |j| + |sep|;
      }
    }
  }

  /** The separator sits right before every part but the first. */
  lemma {:induction false} JoinSeparatesParts(parts: seq<string>, sep: string, i: nat)
    requires 0 < i < |parts|
    ensures |sep| <= Offset(parts, sep, i) <= |Join(parts, sep)|
    ensures Join(parts, sep)[Offset(parts, sep, i) - |sep|..Offset(parts, sep, i)] == sep
  {
    var n := |parts|;
    var init, last := parts[..n - 1], parts[n - 1];
    var j := Join(init, sep);
    assert Join(parts, sep) == j + (sep + last);
    JoinLength(init, sep);
    JoinLength(parts, sep);
    if i < n - 1 {
      JoinSeparatesParts(init, sep, i);
      OffsetOfPrefix(parts, init, sep, i);
      PrefixSlice(j, sep + last, Offset(init, sep, i) - |sep|, Offset(init, sep, i));
    } else {
      OffsetOfPrefix(parts, init, sep, n - 2);
      assert Offset(parts, sep, i) == |j| + |sep|;
    }
  }

  /** The excluded line of the chat message holds the `i`-th rendered name
      (`"first last"`, by `ExcludedList`) at its offset. */
  lemma ExcludedLineNames(excluded: seq<Score.Athlete>, i: nat)
    requires i < |excluded|
    ensures Offset(ExcludedList(excluded), ", ", i) + |ExcludedList(excluded)[i]| <= |ExcludedLine(excluded)|
    ensures ExcludedLine(excluded)[Offset(ExcludedList(excluded), ", ", i)..Offset(ExcludedList(excluded), ", ", i) + |ExcludedList(excluded)[i]|]
         == ExcludedList(excluded)[i]
  {
    var names := ExcludedList(excluded);
    assert ExcludedLine(excluded) == Join(names, ", ");
    JoinPlacesPart(names, ", ", i);
  }

  /** Every name after the first is preceded by ", " in the excluded-athletes line. */
  lemma ExcludedLineSeparators(excluded: seq<Score.Athlete>, i: nat)
    requires 0 < i < |excluded|
    ensures 2 <= Offset(ExcludedList(excluded), ", ", i) <= |ExcludedLine(excluded)|
    ensures ExcludedLine(excluded)[Offset(ExcludedList(excluded), ", ", i) - 2..Offset(ExcludedList(excluded), ", ", i)] == ", "
  {
    JoinSeparatesParts(ExcludedList(excluded), ", ", i);
  }

  lemma ExcludedLineExamples()
    ensures ExcludedLine([]) == ""
    ensures ExcludedLine([Score.Athlete("B", "BBB")]) == "B BBB"
    ensures Join(["A AAA", "B BBB"], ", ") == "A AAA, B BBB"
  {
    assert ["A AAA", "B BBB"][..1] == ["A AAA"];
  }
}
