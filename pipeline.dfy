/**
 * Steps 3 and 4 of the script's `main`: keep the videos whose duration is
 * exactly the target, then rank the survivors.
 */
module Pipeline {
  import opened Query
  import opened Durations
  import opened Ranking

  function BestVideos(d: seq<Entry>, minutes: int, seconds: int): seq<VideoId> {
    Rank(FilterByDuration(d, TargetSeconds(minutes, seconds)))
  }

  /**
   * The ranked ids are exactly the ids whose duration is
   * `minutes` minutes and `seconds` seconds, each listed once.
   */
  lemma BestVideosAreExactMatches(d: seq<Entry>, minutes: int, seconds: int)
    requires IsDict(d)
    ensures forall id :: id in BestVideos(d, minutes, seconds)
              <==> id in AsMap(d) && AsMap(d)[id] == 60 * minutes + seconds
    ensures forall id :: multiset(BestVideos(d, minutes, seconds))[id] <= 1
  {
    var target := TargetSeconds(minutes, seconds);
    var f := FilterByDuration(d, target);
    FilterByDurationAsMap(d, target);
    RankMembers(f);
    RankIsPermutation(f);
  }

  /**
   * All survivors share one duration, so the ranking orders them by
   * upper-case count, then digit count.
   */
  lemma BestVideosOrder(d: seq<Entry>, minutes: int, seconds: int)
    requires IsDict(d)
    ensures var r := BestVideos(d, minutes, seconds);
            forall i, j :: 0 <= i < j < |r| ==>
              NumUpperCase(r[i]) < NumUpperCase(r[j])
              || (NumUpperCase(r[i]) == NumUpperCase(r[j]) && NumDigits(r[i]) <= NumDigits(r[j]))
  {
    var target := TargetSeconds(minutes, seconds);
    var f := FilterByDuration(d, target);
    FilterByDurationAsMap(d, target);
    RankSorted(f);
  }

  /** Sorting a pair whose first key is strictly greater swaps it. */
  lemma SortPairSwaps(x: Keyed, y: Keyed)
    requires !KeyLe(x.key, y.key)
    ensures SortByKey([x, y]) == [y, x]
  {
    assert [x, y][1..] == [y] && [y][1..] == [];
    assert SortByKey([y]) == [y];
    assert [y][1..] == [];
  }

  /** Sorting a triple whose first key is the largest moves it to the end. */
  lemma SortTripleLastFirst(x: Keyed, y: Keyed, z: Keyed)
    requires !KeyLe(x.key, y.key) && !KeyLe(x.key, z.key) && !KeyLe(y.key, z.key)
    ensures SortByKey([x, y, z]) == [z, y, x]
  {
    SortPairSwaps(y, z);
    assert [x, y, z][1..] == [y, z];
    assert [z, y][1..] == [y] && [y][1..] == [];
    assert Insert(x, [y]) == [y, x];
  }

  /** Three ids whose keys are (2, 1, 60 s), (0, 3, 60 s) and (0, 3, 30 s), in that order. */
  lemma RankExample(a: Entry, b: Entry, c: Entry)
    requires KeyOf(a) == RankKey(2, 1, 60) && KeyOf(b) == RankKey(0, 3, 60) && KeyOf(c) == RankKey(0, 3, 30)
    ensures Rank([a, b, c]) == [c.id, b.id, a.id]
  {
    var ka, kb, kc := Keyed(KeyOf(a), a), Keyed(KeyOf(b), b), Keyed(KeyOf(c), c);
    assert SortByKey(Decorate([a, b, c])) == [kc, kb, ka] by {
      DecorateThree(a, b, c);
      SortTripleLastFirst(ka, kb, kc);
    }
    IdsOfThree(kc, kb, ka);
  }

  /** Decorating three entries pairs each with its own key. */
  lemma DecorateThree(a: Entry, b: Entry, c: Entry)
    ensures Decorate([a, b, c]) == [Keyed(KeyOf(a), a), Keyed(KeyOf(b), b), Keyed(KeyOf(c), c)]
  {
    var r := Decorate([a, b, c]);
    assert r[0] == Keyed(KeyOf(a), a);
    assert r[1] == Keyed(KeyOf(b), b);
    assert r[2] == Keyed(KeyOf(c), c);
  }

  /** The ids of three decorated entries, in order. */
  lemma IdsOfThree(x: Keyed, y: Keyed, z: Keyed)
    ensures IdsOf([x, y, z]) == [x.entry.id, y.entry.id, z.entry.id]
  {
    IdsOfAt([x, y, z]);
  }

  /**
   * Target 20 minutes 22 seconds; durations 20:22, 20:23 and 20:22: the two
   * exact matches survive, ranked by their keys.
   */
  lemma EndToEndExample(a: Entry, b: Entry, c: Entry)
    requires a.seconds == 1222 && b.seconds == 1223 && c.seconds == 1222
    requires KeyOf(a) == RankKey(1, 1, 1222) && KeyOf(c) == RankKey(0, 0, 1222)
    ensures BestVideos([a, b, c], 20, 22) == [c.id, a.id]
  {
    var d := [a, b, c];
    assert TargetSeconds(20, 22) == 1222;
    assert d[1..] == [b, c] && [b, c][1..] == [c] && [c][1..] == [];
    assert FilterByDuration([c], 1222) == [c];
    assert FilterByDuration([b, c], 1222) == [c];
    assert FilterByDuration(d, 1222) == [a, c];
    var ka, kc := Keyed(KeyOf(a), a), Keyed(KeyOf(c), c);
    assert Decorate([a, c]) == [ka, kc];
    SortPairSwaps(ka, kc);
    IdsOfAt([kc, ka]);
  }
}
