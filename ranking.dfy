/**
 * The ranking of matching videos: ids ordered by their number of upper-case
 * letters, then their number of digits, then their duration, ascending, with
 * ties kept in dictionary order because Python's `sorted` is stable.
 */
module Ranking {
  import opened Decimal
  import opened Durations

  /** `c.isupper()` restricted to ASCII. */
  predicate IsUpper(c: char) {
    'A' <= c <= 'Z'
  }

  /** The number of characters of `s` satisfying `p`, counted left to right. */
  function CountWhere(s: string, p: char -> bool): (n: nat)
    ensures n <= |s|
  {
    if s == [] then 0
    else CountWhere(s[..|s| - 1], p) + (if p(s[|s| - 1]) then 1 else 0)
  }

  /** `num_upper_case`: `sum(c.isupper() for c in s)`. */
  function NumUpperCase(s: string): nat {
    CountWhere(s, IsUpper)
  }

  /** `num_digits`: `sum(c.isdigit() for c in s)`. */
  function NumDigits(s: string): nat {
    CountWhere(s, IsDigitChar)
  }

  /** The positions of `s` whose character satisfies `p`. */
  function PositionsWhere(s: string, p: char -> bool): set<nat> {
    set i: nat | i < |s| && p(s[i])
  }

  /** The count is the number of positions holding a matching character. */
  lemma {:induction false} CountWherePositions(s: string, p: char -> bool)
    ensures CountWhere(s, p) == |PositionsWhere(s, p)|
  {
    if s != [] {
      var n := |s| - 1;
      var front := s[..n];
      CountWherePositions(front, p);
      var before := PositionsWhere(front, p);
      if p(s[n]) {
        assert PositionsWhere(s, p) == before + {n};
      } else {
        assert PositionsWhere(s, p) == before;
      }
    }
  }

  /** Counting over a concatenation adds the counts of the two parts. */
  lemma {:induction false} CountWhereConcat(s: string, t: string, p: char -> bool)
    ensures CountWhere(s + t, p) == CountWhere(s, p) + CountWhere(t, p)
  {
    if t != [] {
      assert (s + t)[..|s + t| - 1] == s + t[..|t| - 1];
      CountWhereConcat(s, t[..|t| - 1], p);
    } else {
      assert s + t == s;
    }
  }

  /** Two counts of disjoint character classes add up to at most the length. */
  lemma {:induction false} CountWhereDisjoint(s: string, p: char -> bool, q: char -> bool)
    requires forall c :: !(p(c) && q(c))
    ensures CountWhere(s, p) + CountWhere(s, q) <= |s|
  {
    if s != [] {
      CountWhereDisjoint(s[..|s| - 1], p, q);
    }
  }

  /** No character is both an upper-case letter and a digit. */
  lemma UpperAndDigitsBound(s: string)
    ensures NumUpperCase(s) + NumDigits(s) <= |s|
  {
    CountWhereDisjoint(s, IsUpper, IsDigitChar);
  }

  /** The sort key `(num_upper_case(id), num_digits(id), durations[id])`. */
  datatype RankKey = RankKey(upper: nat, digits: nat, seconds: int)

  function KeyOf(e: Entry): RankKey {
    RankKey(NumUpperCase(e.id), NumDigits(e.id), e.seconds)
  }

  /** Python's lexicographic `<=` on the key tuple. */
  predicate KeyLe(a: RankKey, b: RankKey) {
    a.upper < b.upper
    || (a.upper == b.upper && a.digits < b.digits)
    || (a.upper == b.upper && a.digits == b.digits && a.seconds <= b.seconds)
  }

  /** KeyLe is a total order, so sorting by it is well defined. */
  lemma KeyLeTotalOrder(a: RankKey, b: RankKey, c: RankKey)
    ensures KeyLe(a, a)
    ensures KeyLe(a, b) && KeyLe(b, a) ==> a == b
    ensures KeyLe(a, b) && KeyLe(b, c) ==> KeyLe(a, c)
    ensures KeyLe(a, b) || KeyLe(b, a)
  {
  }

  /**
   * An entry decorated with its key: `sorted` computes the key of every
   * element once and then orders the elements by it.
   */
  datatype Keyed = Keyed(key: RankKey, entry: Entry)

  function Decorate(d: seq<Entry>): (r: seq<Keyed>)
    ensures |r| == |d|
    ensures forall i :: 0 <= i < |d| ==> r[i] == Keyed(KeyOf(d[i]), d[i])
  {
    if d == [] then [] else [Keyed(KeyOf(d[0]), d[0])] + Decorate(d[1..])
  }

  predicate Sorted(s: seq<Keyed>) {
    forall i, j :: 0 <= i < j < |s| ==> KeyLe(s[i].key, s[j].key)
  }

  /** The elements with key `k`, in the order they occur in `s`. */
  function WithKey(s: seq<Keyed>, k: RankKey): (r: seq<Keyed>)
    ensures forall x :: x in r ==> x in s && x.key == k
  {
    if s == [] then []
    else (if s[0].key == k then [s[0]] else []) + WithKey(s[1..], k)
  }

  /** Stability: for every key, the elements with that key keep their relative order. */
  ghost predicate StableWrt(output: seq<Keyed>, input: seq<Keyed>) {
    forall k :: WithKey(output, k) == WithKey(input, k)
  }

  /**
   * Inserts `x` before the first element whose key is not smaller than its
   * own, so that `x` precedes the elements with an equal key.
   */
  function Insert(x: Keyed, s: seq<Keyed>): (r: seq<Keyed>)
    ensures multiset(r) == multiset(s) + multiset{x}
  {
    if s == [] then [x]
    else if KeyLe(x.key, s[0].key) then [x] + s
    else
      assert s == [s[0]] + s[1..];
      [s[0]] + Insert(x, s[1..])
  }

  lemma {:induction false} InsertSorted(x: Keyed, s: seq<Keyed>)
    requires Sorted(s)
    ensures Sorted(Insert(x, s))
  {
    if s != [] && !KeyLe(x.key, s[0].key) {
      var rest := Insert(x, s[1..]);
      InsertSorted(x, s[1..]);
      forall j | 0 <= j < |rest| ensures KeyLe(s[0].key, rest[j].key) {
        assert rest[j] in multiset(rest);
      }
    }
  }

  /** The stable sort that `sorted(..., key=...)` performs. */
  function SortByKey(s: seq<Keyed>): (r: seq<Keyed>)
    ensures multiset(r) == multiset(s)
    ensures Sorted(r)
  {
    if s == [] then []
    else
      var rest := SortByKey(s[1..]);
      InsertSorted(s[0], rest);
      assert s == [s[0]] + s[1..];
      Insert(s[0], rest)
  }

  lemma {:induction false} WithKeyConcat(a: seq<Keyed>, b: seq<Keyed>, k: RankKey)
    ensures WithKey(a + b, k) == WithKey(a, k) + WithKey(b, k)
  {
    if a == [] {
      assert a + b == b;
    } else {
      assert (a + b)[0] == a[0];
      assert (a + b)[1..] == a[1..] + b;
      WithKeyConcat(a[1..], b, k);
    }
  }

  /** Inserting never moves `x` past an entry with the same key. */
  lemma {:induction false} InsertStable(x: Keyed, s: seq<Keyed>, k: RankKey)
    ensures WithKey(Insert(x, s), k) == WithKey([x] + s, k)
  {
    if s != [] && !KeyLe(x.key, s[0].key) {
      var rest := Insert(x, s[1..]);
      InsertStable(x, s[1..], k);
      WithKeyConcat([s[0]], rest, k);
      WithKeyConcat([x], s[1..], k);
      WithKeyConcat([x], s, k);
      WithKeyConcat([s[0]], s[1..], k);
      assert [s[0]] + s[1..] == s;
      assert s[0].key != x.key;
    }
  }

  /** The sort is stable. */
  lemma {:induction false} SortByKeyStable(d: seq<Keyed>)
    ensures StableWrt(SortByKey(d), d)
  {
    if d != [] {
      SortByKeyStable(d[1..]);
      forall k ensures WithKey(SortByKey(d), k) == WithKey(d, k) {
        InsertStable(d[0], SortByKey(d[1..]), k);
        WithKeyConcat([d[0]], SortByKey(d[1..]), k);
        WithKeyConcat([d[0]], d[1..], k);
        assert [d[0]] + d[1..] == d;
      }
    }
  }

  lemma WithKeyOfHead(s: seq<Keyed>)
    requires s != []
    ensures WithKey(s, s[0].key) == [s[0]] + WithKey(s[1..], s[0].key)
  {
  }

  /**
   * Sorting by key is determined by its promises: two sorted sequences that
   * agree, key by key, on their elements and order are the same sequence.
   * So SortByKey is the only stable sort of its input.
   */
  lemma {:induction false} SortedStableUnique(a: seq<Keyed>, b: seq<Keyed>)
    requires Sorted(a) && Sorted(b) && StableWrt(a, b)
    ensures a == b
  {
    if a == [] {
      if b != [] {
        WithKeyOfHead(b);
        assert false;
      }
    } else if b == [] {
      WithKeyOfHead(a);
      assert false;
    } else {
      SortedStableHeads(a, b);
      StableTails(a, b);
      SortedStableUnique(a[1..], b[1..]);
      assert a == [a[0]] + a[1..] && b == [b[0]] + b[1..];
    }
  }

  /** The first elements of two sorted sequences stable with each other coincide. */
  lemma SortedStableHeads(a: seq<Keyed>, b: seq<Keyed>)
    requires a != [] && b != []
    requires Sorted(a) && Sorted(b) && StableWrt(a, b)
    ensures a[0] == b[0]
  {
    var ka, kb := a[0].key, b[0].key;
    WithKeyOfHead(a);
    WithKeyOfHead(b);
    var y := WithKey(b, ka)[0];
    assert y in b;
    assert KeyLe(kb, ka);
    var z := WithKey(a, kb)[0];
    assert z in a;
    assert KeyLe(ka, kb);
  }

  /** Removing a common first element keeps two sequences stable with each other. */
  lemma StableTails(a: seq<Keyed>, b: seq<Keyed>)
    requires a != [] && b != [] && a[0] == b[0] && StableWrt(a, b)
    ensures StableWrt(a[1..], b[1..])
  {
    forall k ensures WithKey(a[1..], k) == WithKey(b[1..], k) {
      var head := if a[0].key == k then [a[0]] else [];
      assert WithKey(a, k) == head + WithKey(a[1..], k);
      assert WithKey(b, k) == head + WithKey(b[1..], k);
      assert (head + WithKey(a[1..], k))[|head|..] == WithKey(a[1..], k);
      assert (head + WithKey(b[1..], k))[|head|..] == WithKey(b[1..], k);
    }
  }

  /** The ids of a sequence of decorated entries, in order. */
  function IdsOf(s: seq<Keyed>): (ids: seq<VideoId>)
    ensures |ids| == |s|
  {
    if s == [] then [] else [s[0].entry.id] + IdsOf(s[1..])
  }

  lemma {:induction false} IdsOfAt(s: seq<Keyed>)
    ensures forall i :: 0 <= i < |s| ==> IdsOf(s)[i] == s[i].entry.id
  {
    if s != [] {
      IdsOfAt(s[1..]);
    }
  }

  /**
   * `get_best_video`: the ids of the dictionary sorted by
   * `(num_upper_case(id), num_digits(id), durations[id])`, ascending.
   */
  function Rank(d: seq<Entry>): seq<VideoId> {
    IdsOf(SortByKey(Decorate(d)))
  }

  /** The key the source's lambda computes for an id of the dictionary `m`. */
  function IdKey(id: VideoId, m: map<VideoId, int>): RankKey
    requires id in m
  {
    RankKey(NumUpperCase(id), NumDigits(id), m[id])
  }

  /** The ids among `ids` whose key in `m` is `k`, in order. */
  function IdsWithKey(ids: seq<VideoId>, m: map<VideoId, int>, k: RankKey): seq<VideoId>
    requires forall i :: 0 <= i < |ids| ==> ids[i] in m
  {
    if ids == [] then []
    else (if IdKey(ids[0], m) == k then [ids[0]] else []) + IdsWithKey(ids[1..], m, k)
  }

  /** Every element carries the key of an entry of `d`. */
  predicate DecoratedFrom(s: seq<Keyed>, d: seq<Entry>) {
    forall x :: x in s ==> x.key == KeyOf(x.entry) && x.entry in d
  }

  lemma SortedDecoration(d: seq<Entry>)
    ensures DecoratedFrom(Decorate(d), d)
    ensures DecoratedFrom(SortByKey(Decorate(d)), d)
    ensures IdsOf(Decorate(d)) == Ids(d)
  {
    var s := Decorate(d);
    forall x | x in SortByKey(s) ensures x in s {
      assert x in multiset(SortByKey(s));
    }
  }

  lemma {:induction false} InsertIds(x: Keyed, s: seq<Keyed>)
    ensures multiset(IdsOf(Insert(x, s))) == multiset(IdsOf(s)) + multiset{x.entry.id}
  {
    if s != [] && !KeyLe(x.key, s[0].key) {
      InsertIds(x, s[1..]);
    }
  }

  lemma {:induction false} SortByKeyIds(s: seq<Keyed>)
    ensures multiset(IdsOf(SortByKey(s))) == multiset(IdsOf(s))
  {
    if s != [] {
      SortByKeyIds(s[1..]);
      InsertIds(s[0], SortByKey(s[1..]));
    }
  }

  /** In a dictionary every key occurs once among its ids. */
  lemma {:induction false} IdsOccurOnce(d: seq<Entry>, id: VideoId)
    requires IsDict(d)
    ensures multiset(Ids(d))[id] == if id in AsMap(d) then 1 else 0
  {
    if d != [] {
      IdsOccurOnce(d[1..], id);
      assert Ids(d) == [d[0].id] + Ids(d[1..]);
    }
  }

  /** The ranking is a permutation of the keys in which each id appears exactly once. */
  lemma RankIsPermutation(d: seq<Entry>)
    requires IsDict(d)
    ensures multiset(Rank(d)) == multiset(Ids(d))
    ensures forall id :: multiset(Rank(d))[id] == if id in AsMap(d) then 1 else 0
  {
    SortByKeyIds(Decorate(d));
    SortedDecoration(d);
    forall id ensures multiset(Rank(d))[id] == if id in AsMap(d) then 1 else 0 {
      IdsOccurOnce(d, id);
    }
  }

  /** An id is ranked iff it is a key of the dictionary. */
  lemma RankMembers(d: seq<Entry>)
    requires IsDict(d)
    ensures forall id :: id in Rank(d) <==> id in AsMap(d)
  {
    RankIsPermutation(d);
    forall id ensures id in Rank(d) <==> id in AsMap(d) {
      assert id in Rank(d) <==> id in multiset(Rank(d));
    }
  }

  /** The ranking is non-decreasing under the key tuple looked up in the dictionary. */
  lemma RankSorted(d: seq<Entry>)
    requires IsDict(d)
    ensures forall id :: id in Rank(d) ==> id in AsMap(d)
    ensures forall i, j :: 0 <= i < j < |Rank(d)| ==>
              KeyLe(IdKey(Rank(d)[i], AsMap(d)), IdKey(Rank(d)[j], AsMap(d)))
  {
    var s := SortByKey(Decorate(d));
    var r := Rank(d);
    var m := AsMap(d);
    SortedDecoration(d);
    IdsOfAt(s);
    forall i | 0 <= i < |r| ensures r[i] in m && IdKey(r[i], m) == s[i].key {
      assert s[i] in s;
    }
  }

  lemma {:induction false} IdsWithKeyOf(s: seq<Keyed>, d: seq<Entry>, k: RankKey)
    requires IsDict(d) && DecoratedFrom(s, d)
    ensures forall i :: 0 <= i < |s| ==> IdsOf(s)[i] in AsMap(d)
    ensures IdsWithKey(IdsOf(s), AsMap(d), k) == IdsOf(WithKey(s, k))
  {
    var m := AsMap(d);
    IdsOfAt(s);
    forall i | 0 <= i < |s| ensures IdsOf(s)[i] in m {
      assert s[i] in s;
    }
    if s != [] {
      var ids := IdsOf(s);
      assert s[0] in s;
      assert DecoratedFrom(s[1..], d) by {
        forall x | x in s[1..] ensures x in s { }
      }
      IdsWithKeyOf(s[1..], d, k);
      assert ids == [s[0].entry.id] + IdsOf(s[1..]);
      assert ids[1..] == IdsOf(s[1..]);
      assert IdKey(ids[0], m) == s[0].key;
      var tail := WithKey(s[1..], k);
      if s[0].key == k {
        assert WithKey(s, k) == [s[0]] + tail;
        assert ([s[0]] + tail)[1..] == tail;
        assert IdsOf([s[0]] + tail) == [s[0].entry.id] + IdsOf(tail);
      } else {
        assert WithKey(s, k) == tail;
      }
    }
  }

  /** Ids with equal keys keep the order they have in the dictionary. */
  lemma RankStable(d: seq<Entry>, k: RankKey)
    requires IsDict(d)
    ensures forall id :: id in Rank(d) ==> id in AsMap(d)
    ensures forall id :: id in Ids(d) ==> id in AsMap(d)
    ensures IdsWithKey(Rank(d), AsMap(d), k) == IdsWithKey(Ids(d), AsMap(d), k)
  {
    var s := Decorate(d);
    SortedDecoration(d);
    SortByKeyStable(s);
    IdsWithKeyOf(SortByKey(s), d, k);
    IdsWithKeyOf(s, d, k);
  }
}
