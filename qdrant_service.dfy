/**
 * The client side of the vector search (src/services/qdrantService.ts): compiling
 * the user's filters into index conditions, normalising "M/YYYY" bounds to "MM/YY",
 * and screening the hits the search endpoint returns.
 */
module QdrantService {
  import opened Wrappers
  import opened JsValues
  import opened JsStrings
  import opened MagazineTypes
  import MagazineService
  import Seqs

  // ---------------------------------------------------------------------------
  // Payload check

  /** The payload fields that must hold strings; `id`, when present, must be a number. */
  const StringFields: set<string> := {"pub_date", "link_to_pdf", "volume", "issue", "author", "title", "page", "text"}

  /** What `isValidPayload` accepts, stated on the fields of an object. */
  predicate WellFormedPayload(fields: map<string, Json>) {
    && (forall key :: key in StringFields ==> key in fields && fields[key].JString?)
    && ("id" in fields ==> fields["id"].JNumber?)
  }

  /** `isValidPayload`: `typeof payload === 'object'` lets null through, and reading
      `null.pub_date` then throws; arrays have none of the fields. The checks run in
      order and stop at the first that fails. */
  function IsValidPayload(payload: Option<Json>): (r: Eval<bool>)
    ensures r.Thrown? <==> payload == Some(JNull)
    ensures r == Value(true) <==> payload.Some? && payload.value.JObject? && WellFormedPayload(payload.value.fields)
  {
    if !TypeofObject(payload) then Value(false)
    else if payload.value.JNull? then Thrown
    else
      var p := payload.value;
      Value(
        && IsString(Member(p, "pub_date"))
        && IsString(Member(p, "link_to_pdf"))
        && IsString(Member(p, "volume"))
        && IsString(Member(p, "issue"))
        && IsString(Member(p, "author"))
        && IsString(Member(p, "title"))
        && IsString(Member(p, "page"))
        && (!(p.JObject? && "id" in p.fields) || IsNumber(Member(p, "id")))
        && IsString(Member(p, "text")))
  }

  // ---------------------------------------------------------------------------
  // Screening the hits

  /** A screened hit: its score, whatever it was, and its payload object. */
  datatype SearchResult = SearchResult(score: Option<Json>, payload: map<string, Json>)

  /** The `filter` callback on one hit: `isValidPayload(result.payload)`, where reading
      `payload` off a null hit throws. */
  function KeepsHit(hit: Json): (r: Eval<bool>)
    ensures r.Thrown? <==> hit.JNull? || (hit.JObject? && Get(hit.fields, "payload") == Some(JNull))
    ensures r == Value(true) <==>
      hit.JObject? && "payload" in hit.fields && hit.fields["payload"].JObject?
      && WellFormedPayload(hit.fields["payload"].fields)
  {
    if hit.JNull? then Thrown else IsValidPayload(Member(hit, "payload"))
  }

  predicate ValidHit(hit: Json) {
    KeepsHit(hit) == Value(true)
  }

  predicate HitThrows(hit: Json) {
    KeepsHit(hit).Thrown?
  }

  /** The `map` callback: the score and the payload, unchanged. */
  function ToResult(hit: Json): (r: SearchResult)
    requires ValidHit(hit)
    ensures r.score == Member(hit, "score") && Some(JObject(r.payload)) == Member(hit, "payload")
  {
    SearchResult(Member(hit, "score"), Member(hit, "payload").value.fields)
  }

  /** `hits.filter(...).map(...)`: the callback runs on every hit, and a throw from any
      of them ends the whole step. */
  function ScreenHits(hits: seq<Json>): (r: Eval<seq<SearchResult>>)
    ensures r.Value? ==> |r.v| <= |hits|
    ensures r.Value? && |hits| > 0 && !ValidHit(hits[|hits| - 1]) ==> |r.v| < |hits|
  {
    if |hits| == 0 then Value([])
    else
      var last := hits[|hits| - 1];
      match ScreenHits(hits[..|hits| - 1])
      case Thrown => Thrown
      case Value(kept) =>
        match KeepsHit(last)
        case Thrown => Thrown
        case Value(keep) => Value(kept + if keep then [ToResult(last)] else [])
  }

  /** The screened results of hits that all pass. */
  function Results(hits: seq<Json>): (r: seq<SearchResult>)
    requires forall i :: 0 <= i < |hits| ==> ValidHit(hits[i])
    ensures |r| == |hits| && forall i :: 0 <= i < |r| ==> r[i] == ToResult(hits[i])
  {
    seq(|hits|, i requires 0 <= i < |hits| => ToResult(hits[i]))
  }

  /** The step as one reads it: it throws exactly when some hit's callback throws, and
      otherwise returns, in order, the hits with a valid payload. */
  lemma {:induction false} ScreenHitsReference(hits: seq<Json>)
    ensures ScreenHits(hits).Thrown? <==> exists i :: 0 <= i < |hits| && HitThrows(hits[i])
    ensures ScreenHits(hits).Value? ==>
      var kept := Seqs.Filter(ValidHit, hits);
      (forall i :: 0 <= i < |kept| ==> ValidHit(kept[i])) && ScreenHits(hits).v == Results(kept)
    decreases |hits|
  {
    if |hits| > 0 {
      var n := |hits| - 1;
      var prefix := hits[..n];
      ScreenHitsReference(prefix);
      ThrowsStep(hits);
      if ScreenHits(hits).Value? {
        var before := Seqs.Filter(ValidHit, prefix);
        var kept := Seqs.Filter(ValidHit, hits);
        assert kept == before + if ValidHit(hits[n]) then [hits[n]] else [];
        assert forall i :: 0 <= i < |kept| ==> kept[i] in kept;
        if ValidHit(hits[n]) {
          ResultsAppend(before, hits[n]);
        }
      }
    }
  }

  /** A hit throws somewhere in `hits` exactly when one throws before the last or the
      last one does. */
  lemma ThrowsStep(hits: seq<Json>)
    requires |hits| > 0
    ensures SomeHitThrows(hits) <==> SomeHitThrows(hits[..|hits| - 1]) || HitThrows(hits[|hits| - 1])
  {
    var prefix := hits[..|hits| - 1];
    assert forall i :: 0 <= i < |prefix| ==> prefix[i] == hits[i];
  }

  predicate SomeHitThrows(hits: seq<Json>) {
    exists i :: 0 <= i < |hits| && HitThrows(hits[i])
  }

  lemma ResultsAppend(before: seq<Json>, hit: Json)
    requires forall i :: 0 <= i < |before| ==> ValidHit(before[i])
    requires ValidHit(hit)
    ensures forall i :: 0 <= i < |before + [hit]| ==> ValidHit((before + [hit])[i])
    ensures Results(before + [hit]) == Results(before) + [ToResult(hit)]
  {
    var all := before + [hit];
    assert forall i :: 0 <= i < |before| ==> all[i] == before[i];
  }

  /** When no hit throws, the step keeps exactly the positions whose payload is valid,
      in their original order, with scores and payloads unchanged. */
  lemma ScreenHitsSelects(hits: seq<Json>) returns (idx: seq<nat>)
    requires forall i :: 0 <= i < |hits| ==> !HitThrows(hits[i])
    ensures ScreenHits(hits).Value?
    ensures |ScreenHits(hits).v| == |idx|
    ensures forall k :: 0 <= k < |idx| ==>
      && idx[k] < |hits| && ValidHit(hits[idx[k]])
      && ScreenHits(hits).v[k] == ToResult(hits[idx[k]])
    ensures forall k, l :: 0 <= k < l < |idx| ==> idx[k] < idx[l]
    ensures forall i :: 0 <= i < |hits| ==> (i in idx <==> ValidHit(hits[i]))
  {
    ScreenHitsReference(hits);
    idx := Seqs.FilterSelects(ValidHit, hits);
  }

  /** The step after the search endpoint answers (lines 94-102): the hit list is the
      parsed body. Logging `searchResults[0].score` throws on an empty list or a null
      first hit, and calling `filter` on anything but an array throws. */
  function ScreenResults(searchResults: Json): (r: Eval<seq<SearchResult>>)
    ensures r.Value? ==> searchResults.JArray? && |searchResults.items| > 0
  {
    if !searchResults.JArray? then Thrown
    else if |searchResults.items| == 0 then Thrown
    else if searchResults.items[0].JNull? then Thrown
    else ScreenHits(searchResults.items)
  }

  /** The step without the logging read: an empty hit list screens to no results. */
  function ScreenResultsIntended(searchResults: Json): (r: Eval<seq<SearchResult>>)
    ensures searchResults == JArray([]) ==> r == Value([])
  {
    if !searchResults.JArray? then Thrown
    else ScreenHits(searchResults.items)
  }

  /** A search that finds nothing throws instead of returning no results. */
  lemma EmptyHitListThrows()
    ensures ScreenResults(JArray([])) == Thrown
    ensures ScreenResultsIntended(JArray([])) == Value([])
  {
  }

  /** The logging read changes nothing else: a null first hit would make the
      callback throw anyway. */
  lemma ScreenResultsAgreeElsewhere(searchResults: Json)
    requires searchResults != JArray([])
    ensures ScreenResults(searchResults) == ScreenResultsIntended(searchResults)
  {
    if searchResults.JArray? && searchResults.items[0].JNull? {
      ScreenHitsReference(searchResults.items);
      assert HitThrows(searchResults.items[0]);
    }
  }

  // ---------------------------------------------------------------------------
  // Date bounds

  /** `toShortYear`: "M/YYYY" becomes "MM/YY"; when the text before the first '/' or the
      text after it (up to any second '/') is missing or empty, the input comes back. */
  function ToShortYear(dateStr: string): (r: string)
    ensures '/' !in dateStr ==> r == dateStr
  {
    ShortYearOf(SplitFirstTwo(dateStr, '/'), dateStr)
  }

  /** The body of `toShortYear` once `dateStr.split('/')` has given its first two parts. */
  function ShortYearOf(parts: (string, Option<string>), dateStr: string): string {
    var (month, year) := parts;
    if month == "" || year.None? || year.value == "" then dateStr
    else PadStart(month, 2, '0') + "/" + SliceLast(year.value, 2)
  }

  /** Every input with a '/' reads as month, '/', year, then nothing or a further '/'
      part; on that reading the month is padded to two characters, the year cut to its
      last two, and the rest dropped, unless the month or year is empty. */
  lemma ToShortYearOfParts(month: string, year: string, rest: string)
    requires '/' !in month && '/' !in year
    requires rest == "" || rest[0] == '/'
    ensures ToShortYear(month + "/" + year + rest) ==
      if month == "" || year == "" then month + "/" + year + rest
      else PadStart(month, 2, '0') + "/" + SliceLast(year, 2)
  {
    var s := month + "/" + year + rest;
    assert SplitFirstTwo(s, '/') == (month, Some(year)) by { SplitAt(month, year, rest, '/'); }
  }

  lemma ToShortYearExample()
    ensures ToShortYear("3/2024") == "03/24"
  {
    assert "03" + "/" + "24" == "03/24";
    assert PadStart("3", 2, '0') == "03" by {
      assert PadStart("3", 2, '0') == ['0'] + "3";
    }
    assert SliceLast("2024", 2) == "24" by {
      assert SliceLast("2024", 2) == "2024"[2..];
    }
    ExampleParts();
  }

  lemma ExampleParts()
    ensures ToShortYear("3/2024") == PadStart("3", 2, '0') + "/" + SliceLast("2024", 2)
  {
    assert "3/2024" == "3" + "/" + "2024" + "";
    ToShortYearOfParts("3", "2024", "");
  }

  /** Normalising a bound twice gives what normalising it once gives. */
  lemma ToShortYearIdempotent(dateStr: string)
    ensures ToShortYear(ToShortYear(dateStr)) == ToShortYear(dateStr)
  {
    var parts := SplitFirstTwo(dateStr, '/');
    var (month, year) := parts;
    if month != "" && year.Some? && year.value != "" {
      var m, y := PadStart(month, 2, '0'), SliceLast(year.value, 2);
      assert ToShortYear(dateStr) == m + "/" + y;
      PadKeepsNoSlash(month);
      SliceKeepsNoSlash(year.value);
      ShortFormIsFixed(m, y);
    }
  }

  /** An already short "MM/YY" form is left as it is. */
  lemma ShortFormIsFixed(m: string, y: string)
    requires |m| >= 2 && 0 < |y| <= 2 && '/' !in m && '/' !in y
    ensures ToShortYear(m + "/" + y) == m + "/" + y
  {
    assert ToShortYear(m + "/" + y) == PadStart(m, 2, '0') + "/" + SliceLast(y, 2) by {
      assert m + "/" + y + "" == m + "/" + y;
      ToShortYearOfParts(m, y, "");
    }
    assert PadStart(m, 2, '0') == m;
    assert SliceLast(y, 2) == y;
  }

  lemma PadKeepsNoSlash(s: string)
    requires '/' !in s
    ensures '/' !in PadStart(s, 2, '0')
  {
    var p := PadStart(s, 2, '0');
    var k := |p| - |s|;
    assert forall i :: 0 <= i < k ==> p[i] != '/';
    assert forall i :: k <= i < |p| ==> p[i] == s[i - k];
  }

  lemma SliceKeepsNoSlash(s: string)
    requires '/' !in s
    ensures '/' !in SliceLast(s, 2)
  {
    var r := SliceLast(s, 2);
    var k := |s| - |r|;
    forall i | 0 <= i < |r|
      ensures r[i] != '/'
    {
      assert r[i] == s[k + i];
      assert s[k + i] in s;
    }
  }

  /** A bound "M/20YY" normalises to text the archive's date parser reads as month M of
      the year 20YY. */
  lemma ToShortYearKeepsDate(month: string, yy: string) returns (m: nat, y: nat)
    requires |month| > 0 && IsDecimal(month)
    requires |yy| == 2 && IsDecimal(yy)
    ensures m == DigitsValue(month, 10) && y == DigitsValue(yy, 10)
    ensures MagazineService.ParseDate(ToShortYear(month + "/" + ("20" + yy))) ==
      MagazineService.NewDate(2000 + y, m - 1)
  {
    m, y := DigitsValue(month, 10), DigitsValue(yy, 10);
    var padded := PadStart(month, 2, '0');
    assert ToShortYear(month + "/" + ("20" + yy)) == padded + "/" + yy by {
      ShortenCentury(month, yy);
    }
    PadDecimal(month, 2);
    ParseDateAfter2000(padded, yy, m, y);
  }

  /** `parseDate` of two decimal parts, with their values given by name. */
  lemma ParseDateAfter2000(month: string, year: string, m: nat, y: nat)
    requires |month| > 0 && IsDecimal(month) && DigitsValue(month, 10) == m
    requires |year| > 0 && IsDecimal(year) && DigitsValue(year, 10) == y
    ensures MagazineService.ParseDate(month + "/" + year) == MagazineService.NewDate(2000 + y, m - 1)
  {
    var date := (2000 + y) * 12 + m - 1;
    MagazineService.ParseDateOfDecimals(month, year, m, y, date);
    NewDateAfter2000(y, m - 1, date);
  }

  lemma NewDateAfter2000(y: nat, month: int, date: int)
    requires date == (2000 + y) * 12 + month
    ensures MagazineService.NewDate(2000 + y, month) == Some(date)
  {
  }

  lemma ShortenCentury(month: string, yy: string)
    requires |month| > 0 && IsDecimal(month)
    requires |yy| == 2 && IsDecimal(yy)
    ensures ToShortYear(month + "/" + ("20" + yy)) == PadStart(month, 2, '0') + "/" + yy
  {
    var year := "20" + yy;
    MagazineService.DecimalNoSlash(month);
    assert '/' !in year by {
      assert forall i :: 2 <= i < |year| ==> year[i] == yy[i - 2];
      MagazineService.DecimalNoSlash(yy);
    }
    assert month + "/" + year + "" == month + "/" + year;
    ToShortYearOfParts(month, year, "");
    assert SliceLast(year, 2) == yy;
  }

  // ---------------------------------------------------------------------------
  // Filter compiler

  /** One condition of the index filter. */
  datatype Condition =
    | RangeCondition(key: string, gte: Option<string>, lte: Option<string>)
    | MatchCondition(key: string, any: seq<string>)

  /** A filter: every condition in `must` has to hold. */
  datatype Filter = Filter(must: seq<Condition>)

  /** `filters.dateRange?.startDate || filters.dateRange?.endDate` */
  predicate HasDateBound(filters: SearchFilters) {
    filters.dateRange.Some? && (IsSet(filters.dateRange.value.startDate) || IsSet(filters.dateRange.value.endDate))
  }

  /** The range condition for a date range with at least one bound: each set bound is
      normalised, an unset one is left out. */
  function DateCondition(range: DateRange): (c: Condition)
    ensures c.RangeCondition? && c.key == "pub_date"
    ensures c.gte.Some? <==> IsSet(range.startDate)
    ensures c.lte.Some? <==> IsSet(range.endDate)
    ensures c.gte.Some? ==> ToShortYear(c.gte.value) == c.gte.value
    ensures c.lte.Some? ==> ToShortYear(c.lte.value) == c.lte.value
  {
    ToShortYearIdempotent(if IsSet(range.startDate) then range.startDate.value else "");
    ToShortYearIdempotent(if IsSet(range.endDate) then range.endDate.value else "");
    RangeCondition("pub_date",
      if IsSet(range.startDate) then Some(ToShortYear(range.startDate.value)) else None,
      if IsSet(range.endDate) then Some(ToShortYear(range.endDate.value)) else None)
  }

  /** The range condition starts with no bounds; each truthy bound is normalised and
      set on it in turn. */
  method BuildRangeCondition(range: DateRange) returns (rangeCondition: Condition)
    ensures rangeCondition == DateCondition(range)
  {
    rangeCondition := RangeCondition("pub_date", None, None);
    if IsSet(range.startDate) {
      rangeCondition := rangeCondition.(gte := Some(ToShortYear(range.startDate.value)));
    }
    if IsSet(range.endDate) {
      rangeCondition := rangeCondition.(lte := Some(ToShortYear(range.endDate.value)));
    }
  }

  /** `buildFilter`: no filters give `undefined`; otherwise `must` gets a range condition
      on `pub_date` when a date bound is set, then a match-any condition on `author` when
      authors are given, and an empty `must` gives `undefined`. */
  method BuildFilter(input: Option<SearchFilters>) returns (r: Option<Filter>)
    ensures input.None? ==> r.None?
    ensures input.Some? ==> var filters := input.value;
      && (r.None? <==> !HasDateBound(filters) && !HasAuthors(filters))
      && (r.Some? ==> |r.value.must| == (if HasDateBound(filters) then 1 else 0) + (if HasAuthors(filters) then 1 else 0))
      && (r.Some? && HasDateBound(filters) ==> r.value.must[0] == DateCondition(filters.dateRange.value))
      && (r.Some? && HasAuthors(filters) ==>
            r.value.must[|r.value.must| - 1] == MatchCondition("author", filters.authors.value))
  {
    if input.None? {
      return None;
    }
    var filters := input.value;
    var must: seq<Condition> := [];
    if HasDateBound(filters) {
      var rangeCondition := BuildRangeCondition(filters.dateRange.value);
      must := must + [rangeCondition];
    }
    if HasAuthors(filters) {
      must := must + [MatchCondition("author", filters.authors.value)];
    }
    r := if |must| > 0 then Some(Filter(must)) else None;
  }
}
