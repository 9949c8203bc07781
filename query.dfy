/**
 * The search term and the target duration that the script derives from the
 * caller's `(minutes, seconds)` pair.
 */
module Query {
  import opened Wrappers
  import opened Decimal

  const MinutesWord: string := " minutes "
  const SecondsWord: string := " seconds"

  /** The free-text search term `f"{minutes} minutes {seconds} seconds"`. */
  function SearchQuery(minutes: int, seconds: int): string
  {
    IntToString(minutes) + MinutesWord + IntToString(seconds) + SecondsWord
  }

  /** Index of the first space character in `s`, if any. */
  function FirstSpace(s: string): (r: Option<nat>)
    ensures r.Some? ==> r.value < |s| && s[r.value] == ' ' && ' ' !in s[..r.value]
    ensures r.None? ==> ' ' !in s
  {
    if s == [] then None
    else if s[0] == ' ' then Some(0)
    else match FirstSpace(s[1..])
      case None => None
      case Some(i) => Some(i + 1)
  }

  /**
   * Inverse of SearchQuery: the text before the first space is the minutes,
   * then " minutes ", then the seconds, then " seconds".
   */
  function ParseSearchQuery(q: string): Option<(int, int)>
  {
    match FirstSpace(q)
    case None => None
    case Some(i) =>
      var rest := q[i..];
      if |rest| >= |MinutesWord| + |SecondsWord|
         && rest[..|MinutesWord|] == MinutesWord
         && rest[|rest| - |SecondsWord|..] == SecondsWord
      then
        match (ParseInt(q[..i]), ParseInt(rest[|MinutesWord|..|rest| - |SecondsWord|]))
        case (Some(m), Some(s)) => Some((m, s))
        case _ => None
      else None
  }

  lemma {:induction false} FirstSpaceAfter(a: string, t: string)
    requires ' ' !in a && |t| >= 1 && t[0] == ' '
    ensures FirstSpace(a + t) == Some(|a|)
  {
    if a != [] {
      assert a[0] in a;
      assert (a + t)[1..] == a[1..] + t;
      FirstSpaceAfter(a[1..], t);
    }
  }

  /** The parser splits a query-shaped string back into its two numerals. */
  lemma ParseSearchQueryParts(a: string, b: string)
    requires ' ' !in a
    ensures ParseSearchQuery(a + MinutesWord + b + SecondsWord)
         == match (ParseInt(a), ParseInt(b))
            case (Some(m), Some(s)) => Some((m, s))
            case _ => None
  {
    var t := MinutesWord + b + SecondsWord;
    var q := a + t;
    assert a + MinutesWord + b + SecondsWord == q;
    FirstSpaceAfter(a, t);
    assert q[..|a|] == a;
    assert q[|a|..] == t;
    assert t[..|MinutesWord|] == MinutesWord;
    assert t[|t| - |SecondsWord|..] == SecondsWord;
    assert t[|MinutesWord|..|t| - |SecondsWord|] == b;
  }

  /** The query determines the pair it was built from. */
  lemma ParseSearchQueryRoundTrip(minutes: int, seconds: int)
    ensures ParseSearchQuery(SearchQuery(minutes, seconds)) == Some((minutes, seconds))
  {
    ParseSearchQueryParts(IntToString(minutes), IntToString(seconds));
    ParseIntToString(minutes);
    ParseIntToString(seconds);
  }

  /** Distinct `(minutes, seconds)` pairs give distinct search terms. */
  lemma SearchQueryInjective(m1: int, s1: int, m2: int, s2: int)
    requires SearchQuery(m1, s1) == SearchQuery(m2, s2)
    ensures m1 == m2 && s1 == s2
  {
    ParseSearchQueryRoundTrip(m1, s1);
    ParseSearchQueryRoundTrip(m2, s2);
  }

  /**
   * `timedelta(minutes=minutes, seconds=seconds)` as a whole number of seconds.
   * Seconds at or above 60 carry into the minutes, as timedelta normalises them.
   */
  function TargetSeconds(minutes: int, seconds: int): (d: int)
    ensures 0 <= seconds < 60 ==> d / 60 == minutes && d % 60 == seconds
  {
    60 * minutes + seconds
  }

  lemma TargetSecondsCarry(minutes: int, seconds: int)
    ensures TargetSeconds(minutes, seconds) == TargetSeconds(minutes + seconds / 60, seconds % 60)
  {
  }
}
