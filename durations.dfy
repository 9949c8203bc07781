/**
 * The id-to-duration dictionary the script works on, and the exact-duration
 * filter applied to it.
 *
 * A Python dict keeps its keys in insertion order, and that order reaches the
 * output through the stable ranking, so the dictionary is modelled as the
 * sequence of its entries in insertion order, with no id occurring twice.
 */
module Durations {

  /** A video identifier; ids are treated as ASCII text. */
  type VideoId = string

  /** One dictionary entry: an id and its duration in whole seconds. */
  datatype Entry = Entry(id: VideoId, seconds: int)

  /** The entries form a dictionary: no id occurs twice. */
  predicate IsDict(d: seq<Entry>) {
    forall i, j :: 0 <= i < j < |d| ==> d[i].id != d[j].id
  }

  /** The keys in insertion order, as `durations.keys()` yields them. */
  function Ids(d: seq<Entry>): (ids: seq<VideoId>)
    ensures |ids| == |d|
    ensures forall i :: 0 <= i < |d| ==> ids[i] == d[i].id
  {
    if d == [] then [] else [d[0].id] + Ids(d[1..])
  }

  /** The dictionary as a finite map, forgetting insertion order. */
  function AsMap(d: seq<Entry>): (m: map<VideoId, int>)
    requires IsDict(d)
    ensures forall e :: e in d ==> e.id in m && m[e.id] == e.seconds
    ensures forall id :: id in m ==> exists e :: e in d && e.id == id
  {
    map i | 0 <= i < |d| :: d[i].id := d[i].seconds
  }

  /**
   * `{vid_id: dur for vid_id, dur in durations.items() if dur == target}`:
   * the entries whose duration is exactly the target, in their original order.
   */
  function FilterByDuration(d: seq<Entry>, target: int): seq<Entry>
  {
    if d == [] then []
    else if d[0].seconds == target then [d[0]] + FilterByDuration(d[1..], target)
    else FilterByDuration(d[1..], target)
  }

  /** Soundness and completeness: an entry is kept iff its duration is the target. */
  lemma {:induction false} FilterByDurationMembers(d: seq<Entry>, target: int)
    ensures forall e :: e in FilterByDuration(d, target) <==> e in d && e.seconds == target
  {
    if d != [] {
      FilterByDurationMembers(d[1..], target);
      assert d == [d[0]] + d[1..];
    }
  }

  /** The result is empty exactly when no duration equals the target. */
  lemma FilterByDurationEmpty(d: seq<Entry>, target: int)
    ensures FilterByDuration(d, target) == [] <==> forall e :: e in d ==> e.seconds != target
  {
    FilterByDurationMembers(d, target);
    var r := FilterByDuration(d, target);
    if r != [] {
      assert r[0] in r;
    }
  }

  /** The result of the filter is again a dictionary. */
  lemma {:induction false} FilterByDurationIsDict(d: seq<Entry>, target: int)
    requires IsDict(d)
    ensures IsDict(FilterByDuration(d, target))
  {
    if d != [] {
      var rest := FilterByDuration(d[1..], target);
      FilterByDurationIsDict(d[1..], target);
      FilterByDurationMembers(d[1..], target);
      forall e | e in rest ensures e.id != d[0].id {
        var j :| 1 <= j < |d| && d[j] == e;
      }
    }
  }

  /**
   * Soundness and completeness against the dict comprehension: the result
   * holds exactly the ids whose duration equals the target, each with its
   * duration unchanged.
   */
  lemma FilterByDurationAsMap(d: seq<Entry>, target: int)
    requires IsDict(d)
    ensures IsDict(FilterByDuration(d, target))
    ensures AsMap(FilterByDuration(d, target))
         == map id | id in AsMap(d) && AsMap(d)[id] == target :: AsMap(d)[id]
  {
    FilterByDurationIsDict(d, target);
    var mr := AsMap(FilterByDuration(d, target));
    var m := AsMap(d);
    var spec := map id | id in m && m[id] == target :: m[id];
    forall id | id in mr
      ensures id in spec && mr[id] == spec[id]
    {
      FilterKeptEntry(d, target, id);
    }
    forall id | id in spec
      ensures id in mr
    {
      FilterKeepsEntry(d, target, id);
    }
    SameMaps(mr, spec);
  }

  lemma SameMaps(a: map<VideoId, int>, b: map<VideoId, int>)
    requires forall k :: k in a ==> k in b && a[k] == b[k]
    requires forall k :: k in b ==> k in a
    ensures a == b
  {
    assert a.Keys == b.Keys;
  }

  lemma FilterKeptEntry(d: seq<Entry>, target: int, id: VideoId)
    requires IsDict(d) && IsDict(FilterByDuration(d, target))
    requires id in AsMap(FilterByDuration(d, target))
    ensures id in AsMap(d) && AsMap(d)[id] == target
    ensures AsMap(FilterByDuration(d, target))[id] == AsMap(d)[id]
  {
    FilterByDurationMembers(d, target);
    var e :| e in FilterByDuration(d, target) && e.id == id;
    assert e in d;
  }

  lemma FilterKeepsEntry(d: seq<Entry>, target: int, id: VideoId)
    requires IsDict(d) && IsDict(FilterByDuration(d, target))
    requires id in AsMap(d) && AsMap(d)[id] == target
    ensures id in AsMap(FilterByDuration(d, target))
  {
    FilterByDurationMembers(d, target);
    var e :| e in d && e.id == id;
    assert e in FilterByDuration(d, target);
  }

  /** An entry whose duration is one second off the target is dropped. */
  lemma FilterByDurationExcludesNeighbours(d: seq<Entry>, target: int, id: VideoId)
    requires IsDict(d) && id in AsMap(d)
    requires AsMap(d)[id] == target + 1 || AsMap(d)[id] == target - 1
    ensures id !in Ids(FilterByDuration(d, target))
  {
    FilterByDurationMembers(d, target);
  }

  /** Filtering splits over concatenation, so the relative order of entries is kept. */
  lemma {:induction false} FilterByDurationConcat(d1: seq<Entry>, d2: seq<Entry>, target: int)
    ensures FilterByDuration(d1 + d2, target)
         == FilterByDuration(d1, target) + FilterByDuration(d2, target)
  {
    if d1 != [] {
      var d := d1 + d2;
      assert d[0] == d1[0];
      assert d[1..] == d1[1..] + d2 by {
        assert |d[1..]| == |d1[1..] + d2|;
        forall i | 0 <= i < |d[1..]| ensures d[1..][i] == (d1[1..] + d2)[i] {
        }
      }
      FilterByDurationConcat(d1[1..], d2, target);
    } else {
      assert d1 + d2 == d2;
    }
  }

  /** Filtering a second time with the same target changes nothing. */
  lemma {:induction false} FilterByDurationIdempotent(d: seq<Entry>, target: int)
    ensures FilterByDuration(FilterByDuration(d, target), target) == FilterByDuration(d, target)
  {
    if d != [] {
      FilterByDurationIdempotent(d[1..], target);
    }
  }
}
