/**
  `checkZipSnow`: the ZIP code snow forecast lookup. The trimmed input must be
  exactly five ASCII digits; an exact entry wins over the entry of its
  three-digit prefix, and with neither the visitor is sent to weather.gov.
*/
module ZipLookup {
  import opened Wrappers
  import opened JsStrings

  /** One entry of `zipData` or `regionByPrefix`; `city` and `wind` may be missing. */
  datatype ZipRecord = ZipRecord(state: string, city: Option<string>, snow: string, wind: Option<string>, link: string)

  /** What the result panel shows. */
  datatype ZipResult =
    | InvalidZip                      // "Please enter a valid 5-digit ZIP code."
    | Forecast(title: string, snow: string, wind: string, state: string, link: string)
    | NoData(zip: string, link: string)   // "We don't have specific data for ZIP ...", link to weather.gov

  const FallbackLink := "https://www.weather.gov/"
  const DefaultWind := "40+ mph"

  function Exact(state: string, city: string, snow: string, wind: string, link: string): ZipRecord {
    ZipRecord(state, Some(city), snow, Some(wind), link)
  }

  function Region(state: string, snow: string, link: string): ZipRecord {
    ZipRecord(state, None, snow, None, link)
  }

  function Area(state: string, city: string, snow: string, link: string): ZipRecord {
    ZipRecord(state, Some(city), snow, None, link)
  }

  const ZipData: map<string, ZipRecord> := map[
    "04101" := Exact("ME", "Portland", "18-24\"", "55 mph", "states/me-updates.html"),
    "03801" := Exact("NH", "Portsmouth", "10-14\"", "50 mph", "states/nh-updates.html"),
    "02108" := Exact("MA", "Boston", "12-18\"", "65 mph", "states/ma-updates.html"),
    "02903" := Exact("RI", "Providence", "12-18\"", "55 mph", "states/ri-updates.html"),
    "06103" := Exact("CT", "Hartford", "10-16\"", "45 mph", "states/ct-updates.html"),
    "10001" := Exact("NY", "New York City", "6-12\"", "50 mph", "states/ny-updates.html"),
    "11201" := Exact("NY", "Brooklyn", "6-12\"", "50 mph", "states/ny-updates.html"),
    "14202" := Exact("NY", "Buffalo", "8-14\"", "40 mph", "states/ny-updates.html"),
    "07102" := Exact("NJ", "Newark", "5-10\"", "40 mph", "states/nj-updates.html"),
    "08401" := Exact("NJ", "Atlantic City", "4-8\"", "65 mph", "states/nj-updates.html"),
    "19801" := Exact("DE", "Wilmington", "4-8\"", "35 mph", "states/de-updates.html"),
    "21201" := Exact("MD", "Baltimore", "4-8\"", "40 mph", "states/md-updates.html"),
    "23510" := Exact("VA", "Norfolk", "6-12\"", "60 mph", "states/va-updates.html"),
    "23220" := Exact("VA", "Richmond", "4-8\"", "35 mph", "states/va-updates.html"),
    "27601" := Exact("NC", "Raleigh", "6-12\"", "40 mph", "states/nc-updates.html"),
    "28202" := Exact("NC", "Charlotte", "4-8\"", "30 mph", "states/nc-updates.html"),
    "29201" := Exact("SC", "Columbia", "8-12\"", "35 mph", "states/sc-updates.html"),
    "29601" := Exact("SC", "Greenville", "10-14\"", "30 mph", "states/sc-updates.html"),
    "29401" := Exact("SC", "Charleston", "3-6\"", "45 mph", "states/sc-updates.html"),
    "20001" := Exact("DC", "Washington D.C.", "1-3\"", "35 mph", "states/md-updates.html"),
    "19103" := Exact("PA", "Philadelphia", "2-5\"", "35 mph", "states/nj-updates.html")]

  const RegionByPrefix: map<string, ZipRecord> := map[
    "040" := Region("ME", "8-14\"", "states/me-updates.html"),
    "041" := Region("ME", "8-14\"", "states/me-updates.html"),
    "038" := Region("NH", "6-12\"", "states/nh-updates.html"),
    "030" := Region("NH", "4-8\"", "states/nh-updates.html"),
    "021" := Region("MA", "6-12\"", "states/ma-updates.html"),
    "022" := Region("MA", "6-12\"", "states/ma-updates.html"),
    "025" := Area("MA", "Cape Cod", "8-14\"", "states/ma-updates.html"),
    "026" := Area("MA", "Cape Cod/Islands", "10-16\"", "states/ma-updates.html"),
    "010" := Area("MA", "Springfield/Holyoke", "6-10\"", "states/ma-updates.html"),
    "011" := Area("MA", "Springfield", "6-10\"", "states/ma-updates.html"),
    "012" := Area("MA", "Pittsfield", "8-12\"", "states/ma-updates.html"),
    "013" := Area("MA", "Greenfield", "6-10\"", "states/ma-updates.html"),
    "014" := Area("MA", "Fitchburg", "6-10\"", "states/ma-updates.html"),
    "015" := Area("MA", "Worcester", "6-10\"", "states/ma-updates.html"),
    "029" := Region("RI", "6-10\"", "states/ri-updates.html"),
    "028" := Region("RI", "4-8\"", "states/ri-updates.html"),
    "061" := Region("CT", "4-8\"", "states/ct-updates.html"),
    "060" := Region("CT", "3-6\"", "states/ct-updates.html"),
    "100" := Region("NY", "4-8\"", "states/ny-updates.html"),
    "101" := Region("NY", "4-8\"", "states/ny-updates.html"),
    "112" := Region("NY", "4-8\"", "states/ny-updates.html"),
    "142" := Region("NY", "6-10\"", "states/ny-updates.html"),
    "071" := Region("NJ", "2-5\"", "states/nj-updates.html"),
    "084" := Region("NJ", "2-5\"", "states/nj-updates.html"),
    "198" := Region("DE", "2-5\"", "states/de-updates.html"),
    "212" := Region("MD", "2-4\"", "states/md-updates.html"),
    "200" := Region("DC", "1-2\"", "states/md-updates.html"),
    "235" := Region("VA", "6-12\"", "states/va-updates.html"),
    "232" := Region("VA", "4-8\"", "states/va-updates.html"),
    "276" := Region("NC", "8-14\"", "states/nc-updates.html"),
    "282" := Region("NC", "4-8\"", "states/nc-updates.html"),
    "292" := Region("SC", "8-12\"", "states/sc-updates.html"),
    "296" := Region("SC", "10-14\"", "states/sc-updates.html"),
    "294" := Region("SC", "3-6\"", "states/sc-updates.html"),
    "191" := Region("PA", "2-4\"", "states/nj-updates.html")]

  /** `/^\d{5}$/.test(zip)`: `\d` is an ASCII digit, and `$` matches only at the very end. */
  predicate IsFiveDigits(zip: string) {
    |zip| == 5 && forall i :: 0 <= i < 5 ==> '0' <= zip[i] <= '9'
  }

  /** `zipData[zip] || regionByPrefix[zip.substring(0, 3)]`. */
  function Lookup(zip: string, exact: map<string, ZipRecord>, prefix: map<string, ZipRecord>): Option<ZipRecord>
    requires |zip| >= 3
  {
    if zip in exact then Some(exact[zip])
    else if zip[..3] in prefix then Some(prefix[zip[..3]])
    else None
  }

  /** A found record, shown with `city || state` and `wind || '40+ mph'`. */
  function ShowRecord(r: ZipRecord): ZipResult {
    Forecast(OrDefault(r.city, r.state), r.snow, OrDefault(r.wind, DefaultWind), r.state, r.link)
  }

  /** `checkZipSnow` over any pair of tables. */
  function ResolveWith(input: string, exact: map<string, ZipRecord>, prefix: map<string, ZipRecord>): ZipResult {
    var zip := Trim(input);
    if !IsFiveDigits(zip) then InvalidZip
    else
      match Lookup(zip, exact, prefix)
      case Some(r) => ShowRecord(r)
      case None => NoData(zip, FallbackLink)
  }

  /** `checkZipSnow` with the tables of the page. */
  function CheckZipSnow(input: string): ZipResult {
    ResolveWith(input, ZipData, RegionByPrefix)
  }

  /** Malformed input gives the validation message whatever the tables hold: none is consulted. */
  lemma ValidationBeforeLookup(input: string, e1: map<string, ZipRecord>, p1: map<string, ZipRecord>,
                               e2: map<string, ZipRecord>, p2: map<string, ZipRecord>)
    ensures ResolveWith(input, e1, p1) == InvalidZip <==> !IsFiveDigits(Trim(input))
    ensures !IsFiveDigits(Trim(input)) ==> ResolveWith(input, e1, p1) == ResolveWith(input, e2, p2)
  {
  }

  /** The precedence of the lookup: exact entry, then prefix entry, then weather.gov. */
  lemma Precedence(input: string, exact: map<string, ZipRecord>, prefix: map<string, ZipRecord>)
    requires IsFiveDigits(Trim(input))
    ensures var zip := Trim(input);
      && (zip in exact ==> ResolveWith(input, exact, prefix) == ShowRecord(exact[zip]))
      && (zip !in exact && zip[..3] in prefix ==> ResolveWith(input, exact, prefix) == ShowRecord(prefix[zip[..3]]))
      && (zip !in exact && zip[..3] !in prefix ==> ResolveWith(input, exact, prefix) == NoData(zip, FallbackLink))
  {
  }

  /** An exact entry is never overridden: the prefix table then does not matter. */
  lemma ExactIgnoresPrefixTable(input: string, exact: map<string, ZipRecord>,
                                p1: map<string, ZipRecord>, p2: map<string, ZipRecord>)
    requires Trim(input) in exact
    ensures ResolveWith(input, exact, p1) == ResolveWith(input, exact, p2)
  {
  }

  /** Every key of the exact table is five digits, so every exact entry can be reached. */
  lemma ZipKeysWellFormed()
    ensures forall z :: z in ZipData ==> IsFiveDigits(z)
  {
  }

  /** Every key of the prefix table has three characters, the length of `zip.substring(0, 3)`. */
  lemma PrefixKeysWellFormed()
    ensures forall p :: p in RegionByPrefix ==> |p| == 3
  {
  }

  /** No entry of the prefix table carries a wind figure. */
  lemma PrefixEntriesHaveNoWind()
    ensures forall p :: p in RegionByPrefix ==> RegionByPrefix[p].wind.None?
  {
  }

  /** No prefix entry has a wind figure, so a prefix-only answer always shows '40+ mph'. */
  lemma PrefixHitShowsDefaultWind(input: string)
    requires IsFiveDigits(Trim(input))
    requires Trim(input) !in ZipData && Trim(input)[..3] in RegionByPrefix
    ensures CheckZipSnow(input).Forecast? && CheckZipSnow(input).wind == DefaultWind
  {
    Precedence(input, ZipData, RegionByPrefix);
    PrefixEntriesHaveNoWind();
  }

  /** 02108 shows Boston's own figures even though prefix 021 holds a smaller range. */
  lemma BostonExample(input: string)
    requires input == "02108"
    ensures CheckZipSnow(input) == Forecast("Boston", "12-18\"", "65 mph", "MA", "states/ma-updates.html")
    ensures input[..3] in RegionByPrefix && RegionByPrefix[input[..3]].snow == "6-12\""
  {
    var boston := Exact("MA", "Boston", "12-18\"", "65 mph", "states/ma-updates.html");
    assert input in ZipData && ZipData[input] == boston;
    assert input[..3] == "021";
    assert RegionByPrefix["021"] == Region("MA", "6-12\"", "states/ma-updates.html");
    TrimUnchanged(input);
    assert IsFiveDigits(input);
    Precedence(input, ZipData, RegionByPrefix);
  }

  /** 99999 is in neither table, nor is its prefix 999. */
  lemma UnknownZipExample(input: string)
    requires input == "99999"
    ensures CheckZipSnow(input) == NoData("99999", FallbackLink)
  {
    assert IsFiveDigits(input);
    NotAnExactZip(input);
    NotAPrefix(input[..3]);
    TrimUnchanged(input);
    Precedence(input, ZipData, RegionByPrefix);
  }

  lemma NotAnExactZip(zip: string)
    requires zip == "99999"
    ensures zip !in ZipData
  {
  }

  lemma NotAPrefix(prefix: string)
    requires prefix == "999"
    ensures prefix !in RegionByPrefix
  {
  }

  /** Surrounding white space is ignored. */
  lemma PaddedZipExample(padded: string, plain: string)
    requires padded == " 02108\n" && plain == "02108"
    ensures CheckZipSnow(padded) == CheckZipSnow(plain)
  {
    assert TrimStart(padded) == padded[1..];
    assert TrimEnd(padded[1..]) == plain;
    TrimUnchanged(plain);
    SameTrimSameResult(padded, plain, ZipData, RegionByPrefix);
  }

  /** A sixth digit makes the input invalid. */
  lemma LongZipExample(long: string)
    requires long == "021080"
    ensures CheckZipSnow(long) == InvalidZip
  {
    assert !IsJsSpace(long[0]) && !IsJsSpace(long[5]);
    TrimUnchanged(long);
    ValidationBeforeLookup(long, ZipData, RegionByPrefix, map[], map[]);
  }

  /** Only the trimmed input matters. */
  lemma SameTrimSameResult(a: string, b: string, exact: map<string, ZipRecord>, prefix: map<string, ZipRecord>)
    requires Trim(a) == Trim(b)
    ensures ResolveWith(a, exact, prefix) == ResolveWith(b, exact, prefix)
  {
  }
}
