/**
 * The URL of a day's Wordle solution: the date written as the ISO 8601
 * extended complete calendar date YYYY-MM-DD (section 4.1.2.2 of
 * ISO 8601:2004) between a fixed prefix and the suffix ".json".
 */
module Wordle {
  import opened Wrappers
  import opened Decimal

  /** A proleptic Gregorian calendar date, as `datetime.date` holds one. */
  datatype Date = Date(year: int, month: int, day: int)

  predicate IsLeapYear(y: int) {
    (y % 4 == 0 && y % 100 != 0) || y % 400 == 0
  }

  function DaysInMonth(y: int, m: int): (n: int)
    requires 1 <= m <= 12
    ensures 28 <= n <= 31
  {
    if m == 2 then (if IsLeapYear(y) then 29 else 28)
    else if m == 4 || m == 6 || m == 9 || m == 11 then 30
    else 31
  }

  /**
   * A date `datetime.date` accepts, with a four-digit year: `%Y` pads years
   * below 1000 differently from one platform to another.
   */
  predicate IsValidDate(d: Date) {
    && 1000 <= d.year <= 9999
    && 1 <= d.month <= 12
    && 1 <= d.day <= DaysInMonth(d.year, d.month)
  }

  const UrlPrefix: string := "https://www.nytimes.com/svc/wordle/v2/"
  const UrlSuffix: string := ".json"

  /** `f"{date:%Y-%m-%d}"`. */
  function IsoDate(d: Date): (s: string)
    requires IsValidDate(d)
    ensures |s| == 10 && s[4] == '-' && s[7] == '-'
    ensures AllDigits(s[..4]) && AllDigits(s[5..7]) && AllDigits(s[8..])
    ensures ParseNat(s[..4]) == d.year
    ensures ParseNat(s[5..7]) == d.month && ParseNat(s[8..]) == d.day
  {
    var y, m, dd := ZeroPadded(d.year, 4), ZeroPadded(d.month, 2), ZeroPadded(d.day, 2);
    var s := y + "-" + m + "-" + dd;
    assert s[..4] == y && s[5..7] == m && s[8..] == dd;
    ParseZeroPadded(d.year, 4);
    ParseZeroPadded(d.month, 2);
    ParseZeroPadded(d.day, 2);
    s
  }

  /** `get_url(date)`. */
  function GetUrl(d: Date): (u: string)
    requires IsValidDate(d)
    ensures |u| == |UrlPrefix| + 10 + |UrlSuffix|
    ensures u[..|UrlPrefix|] == UrlPrefix
    ensures u[|u| - |UrlSuffix|..] == UrlSuffix
    ensures u[|UrlPrefix|..|UrlPrefix| + 10] == IsoDate(d)
  {
    UrlPrefix + IsoDate(d) + UrlSuffix
  }

  /** Reads the date back out of a Wordle URL; None for anything else. */
  function ParseUrl(u: string): (r: Option<Date>)
    ensures r.Some? ==> IsValidDate(r.value)
  {
    var p := |UrlPrefix|;
    if |u| == p + 10 + |UrlSuffix| && u[..p] == UrlPrefix && u[p + 10..] == UrlSuffix
       && u[p + 4] == '-' && u[p + 7] == '-'
       && AllDigits(u[p..p + 4]) && AllDigits(u[p + 5..p + 7]) && AllDigits(u[p + 8..p + 10])
    then
      var d := Date(ParseNat(u[p..p + 4]), ParseNat(u[p + 5..p + 7]), ParseNat(u[p + 8..p + 10]));
      if IsValidDate(d) then Some(d) else None
    else None
  }

  /** The date can be read back from its URL. */
  lemma ParseGetUrl(d: Date)
    requires IsValidDate(d)
    ensures ParseUrl(GetUrl(d)) == Some(d)
  {
    var u, s, p := GetUrl(d), IsoDate(d), |UrlPrefix|;
    assert u[p..p + 4] == s[..4];
    assert u[p + 5..p + 7] == s[5..7];
    assert u[p + 8..p + 10] == s[8..];
  }

  /** The ISO date text of the date read from its three digit fields. */
  lemma IsoDateOfFields(y: string, m: string, dd: string)
    requires |y| == 4 && |m| == 2 && |dd| == 2
    requires AllDigits(y) && AllDigits(m) && AllDigits(dd)
    requires IsValidDate(Date(ParseNat(y), ParseNat(m), ParseNat(dd)))
    ensures IsoDate(Date(ParseNat(y), ParseNat(m), ParseNat(dd))) == y + "-" + m + "-" + dd
  {
    ZeroPaddedParse(y);
    ZeroPaddedParse(m);
    ZeroPaddedParse(dd);
  }

  /** Every URL the parser accepts is the URL of the date it returns. */
  lemma GetUrlParse(u: string)
    requires ParseUrl(u).Some?
    ensures GetUrl(ParseUrl(u).value) == u
  {
    var p := |UrlPrefix|;
    var y, m, dd := u[p..p + 4], u[p + 5..p + 7], u[p + 8..p + 10];
    IsoDateOfFields(y, m, dd);
    assert u[p..p + 10] == y + "-" + m + "-" + dd;
    assert u == u[..p] + u[p..p + 10] + u[p + 10..];
  }

  /** Distinct dates give distinct URLs. */
  lemma GetUrlInjective(d1: Date, d2: Date)
    requires IsValidDate(d1) && IsValidDate(d2) && GetUrl(d1) == GetUrl(d2)
    ensures d1 == d2
  {
    ParseGetUrl(d1);
    ParseGetUrl(d2);
  }
}
