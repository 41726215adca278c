/**
 * The local archive service (src/services/magazineService.ts): parsing "MM/YY"
 * dates, filtering the entry list by date range and authors, listing the
 * authors, finding the date range of the archive, and turning a Google Drive
 * link into the embeddable preview URL.
 */
module MagazineService {
  import opened Wrappers
  import opened JsValues
  import opened JsStrings
  import opened MagazineTypes
  import Seqs

  /** The Drive file every sample entry links to, and its share link. */
  const SampleFileId := "15iIvy4_WwmTmY3Cl1vOPaqPZjxqaBogH"
  const DriveLink := DrivePrefix + SampleFileId + "/view?usp=sharing"

  /** The development data set the service filters and summarises. */
  const MockEntries: seq<MagazineEntry> := [
    MagazineEntry("01/20", DriveLink, 1, 1, "Jane Smith", "The Future of Education", 12, Some("1")),
    MagazineEntry("05/20", DriveLink, 1, 2, "John Doe", "Technology in Schools", 5, Some("2")),
    MagazineEntry("09/20", DriveLink, 1, 3, "Alice Johnson", "Art Education", 23, Some("3")),
    MagazineEntry("01/21", DriveLink, 2, 1, "Mark Williams", "Sports in Curriculum", 8, Some("4")),
    MagazineEntry("05/21", DriveLink, 2, 2, "Sarah Brown", "Reading Habits", 15, Some("5")),
    MagazineEntry("09/21", DriveLink, 2, 3, "James Wilson", "Digital Literacy", 32, Some("6"))
  ]

  // ---------------------------------------------------------------------------
  // Dates

  /** A JavaScript `Date` built as `new Date(year, month)`: midnight on the first of a
      month, represented by its month count `fullYear * 12 + month`, or `None` for
      Invalid Date. Such Dates compare exactly as their month counts do. */
  type Date = Option<int>

  /** The `Date` constructor reads a year argument from 0 to 99 as 1900 to 1999. */
  function FullYear(year: int): int {
    if 0 <= year <= 99 then 1900 + year else year
  }

  /** `new Date(year, month)`: a month outside 0..11 rolls over into the year. */
  function NewDate(year: int, month: int): Date {
    Some(FullYear(year) * 12 + month)
  }

  /** `parseDate`: split at '/', then `new Date(2000 + parseInt(year), parseInt(month) - 1)`.
      A missing year part is `parseInt(undefined)`, which is NaN like any other
      unreadable number, and a NaN argument makes the Date invalid. */
  function ParseDate(dateStr: string): (d: Date)
    ensures '/' !in dateStr ==> d.None?
    ensures var parts := SplitFirstTwo(dateStr, '/');
      parts.1.Some? && |parts.0| > 0 && IsDecimal(parts.0) && |parts.1.value| > 0 && IsDecimal(parts.1.value) ==>
      d == MonthOfYear(Some(DigitsValue(parts.0, 10)), Some(DigitsValue(parts.1.value, 10)))
  {
    var parts := SplitFirstTwo(dateStr, '/');
    DecimalParts(parts.0, parts.1);
    MonthOfYear(ParseInt(parts.0), if parts.1.Some? then ParseInt(parts.1.value) else None)
  }

  lemma DecimalParts(month: string, year: Option<string>)
    ensures |month| > 0 && IsDecimal(month) ==> ParseInt(month) == Some(DigitsValue(month, 10))
    ensures year.Some? && |year.value| > 0 && IsDecimal(year.value) ==>
      ParseInt(year.value) == Some(DigitsValue(year.value, 10))
  {
    if |month| > 0 && IsDecimal(month) {
      ParseIntOfDecimal(month);
    }
    if year.Some? && |year.value| > 0 && IsDecimal(year.value) {
      ParseIntOfDecimal(year.value);
    }
  }

  /** `new Date(2000 + year, month - 1)` on two results of `parseInt`, `None` standing for NaN. */
  function MonthOfYear(month: Option<int>, year: Option<int>): Date {
    if month.Some? && year.Some? then NewDate(2000 + year.value, month.value - 1) else None
  }

  /** JavaScript's `a < b` on two Dates; every comparison with Invalid Date is false. */
  predicate Before(a: Date, b: Date) {
    a.Some? && b.Some? && a.value < b.value
  }

  /** Two decimal numerals joined by '/' read as that month of that year after 2000. */
  lemma ParseDateOfDecimals(month: string, year: string, m: nat, y: nat, date: int)
    requires |month| > 0 && IsDecimal(month) && DigitsValue(month, 10) == m
    requires |year| > 0 && IsDecimal(year) && DigitsValue(year, 10) == y
    requires date == (2000 + y) * 12 + m - 1
    ensures ParseDate(month + "/" + year) == Some(date)
  {
    DecimalNoSlash(month);
    DecimalNoSlash(year);
    SplitAt(month, year, "", '/');
    assert month + "/" + year + "" == month + "/" + year;
    ParseDateOfParts(month + "/" + year, month, year);
    ParseIntOfDecimal(month);
    ParseIntOfDecimal(year);
    MonthOfYearAfter2000(m, y, date);
  }

  lemma ParseDateOfParts(s: string, month: string, year: string)
    requires SplitFirstTwo(s, '/') == (month, Some(year))
    ensures ParseDate(s) == MonthOfYear(ParseInt(month), ParseInt(year))
  {
  }

  lemma MonthOfYearAfter2000(m: int, y: nat, date: int)
    requires date == (2000 + y) * 12 + m - 1
    ensures MonthOfYear(Some(m), Some(y)) == Some(date)
  {
  }

  lemma DecimalNoSlash(s: string)
    requires IsDecimal(s)
    ensures '/' !in s
  {
    assert forall i :: 0 <= i < |s| ==> DigitValue(s[i]) < 10 && s[i] != '/';
  }

  // ---------------------------------------------------------------------------
  // Filtering

  /** The callback `filterEntries` hands to `Array.prototype.filter`. */
  predicate Keeps(filters: SearchFilters, entry: MagazineEntry): (b: bool)
    ensures ParseDate(entry.pubDate).None? && !HasAuthors(filters) ==> b
    ensures filters.dateRange.None? ==> (b <==> !HasAuthors(filters) || entry.author in filters.authors.value)
  {
    && (filters.dateRange.Some? ==>
          var range := filters.dateRange.value;
          var date := ParseDate(entry.pubDate);
          && (IsSet(range.startDate) ==> !Before(date, ParseDate(range.startDate.value)))
          && (IsSet(range.endDate) ==> !Before(ParseDate(range.endDate.value), date)))
    && (HasAuthors(filters) ==> entry.author in filters.authors.value)
  }

  /** `filterEntries`: all entries when there are no filters, otherwise those the
      callback keeps. */
  function FilterEntries(entries: seq<MagazineEntry>, filters: Option<SearchFilters>): (r: seq<MagazineEntry>)
    ensures filters.None? ==> r == entries
    ensures forall e :: e in r <==> e in entries && (filters.None? || Keeps(filters.value, e))
  {
    if filters.None? then entries
    else Seqs.Filter(e => Keeps(filters.value, e), entries)
  }

  /** The result is an order-preserving selection of the entries: it keeps exactly the
      positions whose entry passes the filters, unchanged and in their original order. */
  lemma FilterEntriesSelects(entries: seq<MagazineEntry>, filters: Option<SearchFilters>) returns (idx: seq<nat>)
    ensures Seqs.SelectedAt(FilterEntries(entries, filters), entries, idx)
    ensures forall i :: 0 <= i < |entries| ==>
      (i in idx <==> filters.None? || Keeps(filters.value, entries[i]))
  {
    if filters.None? {
      idx := Seqs.FilterSelects(_ => true, entries);
      Seqs.FilterKeepsAll(_ => true, entries);
    } else {
      idx := Seqs.FilterSelects(e => Keeps(filters.value, e), entries);
    }
  }

  /** Filters that set neither date bound and name no author keep every entry: a date
      range whose bounds are null or empty imposes nothing, nor does an empty author list. */
  lemma UnconstrainedFilterKeepsAll(entries: seq<MagazineEntry>, filters: SearchFilters)
    requires filters.dateRange.Some? ==>
      !IsSet(filters.dateRange.value.startDate) && !IsSet(filters.dateRange.value.endDate)
    requires !HasAuthors(filters)
    ensures FilterEntries(entries, Some(filters)) == entries
  {
    Seqs.FilterKeepsAll(e => Keeps(filters, e), entries);
  }

  /** Date bounds are inclusive and compare calendar months: with both bounds and the
      entry's date readable, an entry is kept exactly when its month lies between the
      two bounds, ends included, and the author list, if non-empty, names its author. */
  lemma DateBoundsInclusive(range: DateRange, authors: Option<seq<string>>, entry: MagazineEntry)
    requires IsSet(range.startDate) && IsSet(range.endDate)
    requires ParseDate(range.startDate.value).Some? && ParseDate(range.endDate.value).Some?
    requires ParseDate(entry.pubDate).Some?
    ensures Keeps(SearchFilters(Some(range), authors), entry) <==>
      && ParseDate(range.startDate.value).value <= ParseDate(entry.pubDate).value <= ParseDate(range.endDate.value).value
      && (HasAuthors(SearchFilters(None, authors)) ==> entry.author in authors.value)
  {
  }

  /** Each bound is tested on its own: a readable start bound drops exactly the entries
      with a readable date before it, a readable end bound exactly those after it, and
      neither drops an entry whose date does not parse; the author list is tested
      besides. */
  lemma DateBoundsEachSide(range: DateRange, authors: Option<seq<string>>, entry: MagazineEntry)
    ensures Keeps(SearchFilters(Some(range), authors), entry) <==>
      var date := ParseDate(entry.pubDate);
      && (IsSet(range.startDate) && ParseDate(range.startDate.value).Some? && date.Some? ==>
            ParseDate(range.startDate.value).value <= date.value)
      && (IsSet(range.endDate) && ParseDate(range.endDate.value).Some? && date.Some? ==>
            date.value <= ParseDate(range.endDate.value).value)
      && (HasAuthors(SearchFilters(None, authors)) ==> entry.author in authors.value)
  {
  }

  /** The date range and the author list are tested independently: the callback keeps
      an entry exactly when the date-only filter and the author-only filter both do. */
  lemma KeepsConjunction(filters: SearchFilters, entry: MagazineEntry)
    ensures Keeps(filters, entry) ==
      (Keeps(SearchFilters(filters.dateRange, None), entry) && Keeps(SearchFilters(None, filters.authors), entry))
  {
  }

  /** A bound that does not parse (Invalid Date) excludes nothing: on either side, the
      filter keeps what it would keep with that bound null, whatever the other bound
      and the author list hold. */
  lemma UnreadableBoundIgnored(range: DateRange, authors: Option<seq<string>>, entry: MagazineEntry)
    ensures IsSet(range.startDate) && ParseDate(range.startDate.value).None? ==>
      Keeps(SearchFilters(Some(range), authors), entry) ==
      Keeps(SearchFilters(Some(range.(startDate := None)), authors), entry)
    ensures IsSet(range.endDate) && ParseDate(range.endDate.value).None? ==>
      Keeps(SearchFilters(Some(range), authors), entry) ==
      Keeps(SearchFilters(Some(range.(endDate := None)), authors), entry)
  {
  }

  /** With a non-empty author list, whatever the date range, every kept entry is by one
      of the listed authors, and an entry is kept exactly when it is by one of them and
      the date range alone keeps it. */
  lemma AuthorsMatchAny(entries: seq<MagazineEntry>, dateRange: Option<DateRange>, authors: seq<string>)
    requires |authors| > 0
    ensures forall e :: e in FilterEntries(entries, Some(SearchFilters(dateRange, Some(authors)))) ==>
      e.author in authors
    ensures forall e :: e in FilterEntries(entries, Some(SearchFilters(dateRange, Some(authors)))) <==>
      e in entries && e.author in authors && Keeps(SearchFilters(dateRange, None), e)
  {
  }

  // ---------------------------------------------------------------------------
  // Authors

  /** The authors of the entries, in entry order. */
  function AuthorsOf(entries: seq<MagazineEntry>): (r: seq<string>)
    ensures |r| == |entries| && forall i :: 0 <= i < |r| ==> r[i] == entries[i].author
  {
    seq(|entries|, i requires 0 <= i < |entries| => entries[i].author)
  }

  /** `getAllAuthors`: every entry's author is added to a `Set`, whose contents are
      returned in insertion order. The result names each author exactly once, in
      the order in which the authors first appear among the entries. */
  method GetAllAuthors(entries: seq<MagazineEntry>) returns (authors: seq<string>)
    ensures authors == Seqs.Dedup(AuthorsOf(entries))
    ensures forall a :: a in authors <==> exists e :: e in entries && e.author == a
    ensures Seqs.NoDuplicates(authors)
    ensures forall i, j :: 0 <= i < j < |authors| ==>
      Seqs.FirstIndex(AuthorsOf(entries), authors[i]) < Seqs.FirstIndex(AuthorsOf(entries), authors[j])
  {
    authors := [];
    for i := 0 to |entries|
      invariant authors == Seqs.Dedup(AuthorsOf(entries[..i]))
    {
      AuthorsStep(entries, i);
      if entries[i].author !in authors {
        authors := authors + [entries[i].author];
      }
    }
    assert entries[..|entries|] == entries;
    DedupAuthors(entries);
  }

  /** Visiting one more entry adds its author unless the set already has it. */
  lemma AuthorsStep(entries: seq<MagazineEntry>, i: nat)
    requires i < |entries|
    ensures var d := Seqs.Dedup(AuthorsOf(entries[..i]));
      Seqs.Dedup(AuthorsOf(entries[..i + 1])) ==
      if entries[i].author in d then d else d + [entries[i].author]
  {
    assert AuthorsOf(entries[..i + 1]) == AuthorsOf(entries[..i]) + [entries[i].author];
  }

  lemma DedupAuthors(entries: seq<MagazineEntry>)
    ensures var authors := Seqs.Dedup(AuthorsOf(entries));
      && (forall a :: a in authors <==> exists e :: e in entries && e.author == a)
      && Seqs.NoDuplicates(authors)
      && forall i, j :: 0 <= i < j < |authors| ==>
        Seqs.FirstIndex(AuthorsOf(entries), authors[i]) < Seqs.FirstIndex(AuthorsOf(entries), authors[j])
  {
    AuthorsMembership(entries);
    Seqs.DedupOrder(AuthorsOf(entries));
  }

  lemma AuthorsMembership(entries: seq<MagazineEntry>)
    ensures forall a :: a in Seqs.Dedup(AuthorsOf(entries)) <==> exists e :: e in entries && e.author == a
  {
    var names := AuthorsOf(entries);
    forall a ensures a in Seqs.Dedup(names) <==> exists e :: e in entries && e.author == a {
      if a in Seqs.Dedup(names) {
        var k :| 0 <= k < |names| && names[k] == a;
        assert entries[k] in entries;
      }
      if exists e :: e in entries && e.author == a {
        var e :| e in entries && e.author == a;
        var k :| 0 <= k < |entries| && entries[k] == e;
        assert names[k] == a;
      }
    }
  }

  // ---------------------------------------------------------------------------
  // Date range

  /** The formatted earliest and latest publication dates. */
  datatype DateSpan = DateSpan(earliest: string, latest: string)

  /** The publication dates of the entries, parsed, in entry order. */
  function DatesOf(entries: seq<MagazineEntry>): (r: seq<Date>)
    ensures |r| == |entries| && forall i :: 0 <= i < |r| ==> r[i] == ParseDate(entries[i].pubDate)
  {
    seq(|entries|, i requires 0 <= i < |entries| => ParseDate(entries[i].pubDate))
  }

  /** The running minimum `getDateRange` keeps after visiting `dates`, starting from
      `start`: a date replaces it only when it compares strictly earlier. */
  function Earliest(start: Date, dates: seq<Date>): (r: Date)
    ensures r.Some? <==> start.Some?
    ensures r == start || r in dates
  {
    if |dates| == 0 then start
    else
      var current := Earliest(start, dates[..|dates| - 1]);
      if Before(dates[|dates| - 1], current) then dates[|dates| - 1] else current
  }

  /** The running maximum, updated when a date compares strictly later. */
  function Latest(start: Date, dates: seq<Date>): (r: Date)
    ensures r.Some? <==> start.Some?
    ensures r == start || r in dates
  {
    if |dates| == 0 then start
    else
      var current := Latest(start, dates[..|dates| - 1]);
      if Before(current, dates[|dates| - 1]) then dates[|dates| - 1] else current
  }

  /** `String(d.getMonth() + 1).padStart(2, '0') + "/" + String(d.getFullYear() - 2000).padStart(2, '0')`.
      Both getters of an Invalid Date return NaN, which prints as "NaN". */
  function FormatDate(d: Date): string {
    if d.None? then "NaN/NaN"
    else
      Field(d.value % 12 + 1) + "/" + Field(d.value / 12 - 2000)
  }

  /** `String(n).padStart(2, '0')` */
  function Field(n: int): string {
    PadStart(IntToString(n), 2, '0')
  }

  /** A month of the years 2000 to 2099 prints as "MM/YY": two decimal digits of the
      month from 1 to 12, '/', and two decimal digits of the year after 2000. */
  lemma FormatDateDigits(v: int)
    requires 2000 * 12 <= v < 2100 * 12
    ensures var r := FormatDate(Some(v));
      && |r| == 5 && r[2] == '/' && IsDecimal(r[..2]) && IsDecimal(r[3..])
      && DigitsValue(r[..2], 10) == v % 12 + 1 && DigitsValue(r[3..], 10) == v / 12 - 2000
  {
    var m, y := v % 12 + 1, v / 12 - 2000;
    assert 1 <= m <= 12 && 0 <= y < 100;
    FieldDigits(m);
    FieldDigits(y);
    FormatDateFields(v);
    SlashJoin(Field(m), Field(y));
  }

  /** Two two-character fields joined by '/' can be cut apart again. */
  lemma SlashJoin(a: string, b: string)
    requires |a| == 2 && |b| == 2
    ensures var r := a + "/" + b; |r| == 5 && r[2] == '/' && r[..2] == a && r[3..] == b
  {
    var r := a + "/" + b;
    assert r[..2] == a && r[3..] == b;
  }

  /** A readable date is formatted field by field. */
  lemma FormatDateFields(v: int)
    ensures FormatDate(Some(v)) == Field(v % 12 + 1) + "/" + Field(v / 12 - 2000)
  {
  }

  /** A number below 100 prints as two decimal digits of that value. */
  lemma FieldDigits(n: nat)
    requires n < 100
    ensures |Field(n)| == 2 && IsDecimal(Field(n)) && DigitsValue(Field(n), 10) == n
  {
    PaddedDecimal(n, 2);
    assert n >= 10 ==> NatToString(n / 10) == [DigitChar(n / 10)];
  }

  /** `getDateRange`: both running bounds start at the first entry's date, every entry
      is visited in order, and both are formatted. Reading the first entry of an
      empty list throws. */
  method GetDateRange(entries: seq<MagazineEntry>) returns (r: Eval<DateSpan>)
    ensures r.Thrown? <==> |entries| == 0
    ensures |entries| > 0 ==>
      var first := ParseDate(entries[0].pubDate);
      r.v == DateSpan(FormatDate(Earliest(first, DatesOf(entries))), FormatDate(Latest(first, DatesOf(entries))))
  {
    if |entries| == 0 {
      return Thrown;
    }
    var first := ParseDate(entries[0].pubDate);
    var earliestDate, latestDate := first, first;
    for i := 0 to |entries|
      invariant earliestDate == Earliest(first, DatesOf(entries[..i]))
      invariant latestDate == Latest(first, DatesOf(entries[..i]))
    {
      var entryDate := ParseDate(entries[i].pubDate);
      assert DatesOf(entries[..i + 1]) == DatesOf(entries[..i]) + [entryDate];
      if Before(entryDate, earliestDate) {
        earliestDate := entryDate;
      }
      if Before(latestDate, entryDate) {
        latestDate := entryDate;
      }
    }
    assert entries[..|entries|] == entries;
    r := Value(DateSpan(FormatDate(earliestDate), FormatDate(latestDate)));
  }

  /** Once the running minimum is Invalid Date it stays so; otherwise it is a date no
      later than the start or any valid date visited, and it is the start or one of them. */
  lemma {:induction false} EarliestIsLeast(start: Date, dates: seq<Date>)
    ensures start.None? ==> Earliest(start, dates).None?
    ensures start.Some? ==>
      var r := Earliest(start, dates);
      && r.Some? && r.value <= start.value
      && (forall i :: 0 <= i < |dates| && dates[i].Some? ==> r.value <= dates[i].value)
      && (r == start || r in dates)
    decreases |dates|
  {
    if |dates| > 0 {
      var n := |dates| - 1;
      EarliestIsLeast(start, dates[..n]);
      assert forall i :: 0 <= i < n ==> dates[..n][i] == dates[i];
    }
  }

  /** The running maximum, symmetrically. */
  lemma {:induction false} LatestIsGreatest(start: Date, dates: seq<Date>)
    ensures start.None? ==> Latest(start, dates).None?
    ensures start.Some? ==>
      var r := Latest(start, dates);
      && r.Some? && r.value >= start.value
      && (forall i :: 0 <= i < |dates| && dates[i].Some? ==> r.value >= dates[i].value)
      && (r == start || r in dates)
    decreases |dates|
  {
    if |dates| > 0 {
      var n := |dates| - 1;
      LatestIsGreatest(start, dates[..n]);
      assert forall i :: 0 <= i < n ==> dates[..n][i] == dates[i];
    }
  }

  /** When the first entry's date is readable, the range runs from the earliest to the
      latest readable entry date, both taken from some entry; entries whose date does
      not parse are passed over. */
  lemma DateRangeBounds(entries: seq<MagazineEntry>)
    requires |entries| > 0 && ParseDate(entries[0].pubDate).Some?
    ensures var dates := DatesOf(entries);
      var lo, hi := Earliest(dates[0], dates), Latest(dates[0], dates);
      && lo.Some? && hi.Some? && lo in dates && hi in dates
      && (forall i :: 0 <= i < |dates| && dates[i].Some? ==> lo.value <= dates[i].value <= hi.value)
  {
    var dates := DatesOf(entries);
    EarliestIsLeast(dates[0], dates);
    LatestIsGreatest(dates[0], dates);
  }

  /** When the first entry's date does not parse, both bounds print as "NaN/NaN",
      whatever the other entries hold. */
  lemma DateRangeOfUnreadableFirst(dates: seq<Date>)
    ensures FormatDate(Earliest(None, dates)) == "NaN/NaN"
    ensures FormatDate(Latest(None, dates)) == "NaN/NaN"
  {
    EarliestIsLeast(None, dates);
    LatestIsGreatest(None, dates);
  }

  /** A month of the years 2000 to 2099 is printed in a form `parseDate` reads back. */
  lemma FormatDateRoundTrip(month: int)
    requires 2000 * 12 <= month < 2100 * 12
    ensures ParseDate(FormatDate(Some(month))) == Some(month)
  {
    var mo: nat, yr: nat := month % 12 + 1, month / 12 - 2000;
    assert FormatDate(Some(month)) == PaddedPair(mo, yr);
    ParsePaddedPair(mo, yr, month);
  }

  /** Two numbers printed and zero-padded to two digits on either side of '/'. */
  function PaddedPair(month: nat, year: nat): string {
    PadStart(IntToString(month), 2, '0') + "/" + PadStart(IntToString(year), 2, '0')
  }

  lemma ParsePaddedPair(month: nat, year: nat, date: int)
    requires date == (2000 + year) * 12 + month - 1
    ensures ParseDate(PaddedPair(month, year)) == Some(date)
  {
    var ms, ys := PadStart(IntToString(month), 2, '0'), PadStart(IntToString(year), 2, '0');
    assert PaddedPair(month, year) == ms + "/" + ys;
    PaddedDecimal(month, 2);
    PaddedDecimal(year, 2);
    ParseDateOfDecimals(ms, ys, month, year, date);
  }

  // ---------------------------------------------------------------------------
  // The development data set

  /** The mock entries name six different authors, listed in entry order. */
  lemma MockAuthors()
    ensures Seqs.Dedup(AuthorsOf(MockEntries)) ==
      ["Jane Smith", "John Doe", "Alice Johnson", "Mark Williams", "Sarah Brown", "James Wilson"]
  {
    var names := ["Jane Smith", "John Doe", "Alice Johnson", "Mark Williams", "Sarah Brown", "James Wilson"];
    assert AuthorsOf(MockEntries) == names;
    assert names[2][0] != names[3][0];
    assert Seqs.NoDuplicates(names);
    Seqs.DedupOfDistinct(names);
  }

  /** The mock entries' dates are January, May and September of 2020 and of 2021, in
      that order. */
  lemma MockDates()
    ensures forall i :: 0 <= i < |MockEntries| ==> ParseDate(MockEntries[i].pubDate) == Some(24240 + 4 * i)
  {
    forall i | 0 <= i < |MockEntries|
      ensures ParseDate(MockEntries[i].pubDate) == Some(24240 + 4 * i)
    {
      if i < 3 {
        MockDateOf2020(i);
      } else {
        MockDateOf2021(i);
      }
    }
  }

  lemma MockDateOf2020(i: nat)
    requires i < 3
    ensures ParseDate(MockEntries[i].pubDate) == Some(24240 + 4 * i)
  {
    if i == 0 {
      MockDate(MockEntries[i].pubDate, "01", "20", 1, 20, 24240);
    } else if i == 1 {
      MockDate(MockEntries[i].pubDate, "05", "20", 5, 20, 24244);
    } else {
      MockDate(MockEntries[i].pubDate, "09", "20", 9, 20, 24248);
    }
  }

  lemma MockDateOf2021(i: nat)
    requires 3 <= i < 6
    ensures ParseDate(MockEntries[i].pubDate) == Some(24240 + 4 * i)
  {
    if i == 3 {
      MockDate(MockEntries[i].pubDate, "01", "21", 1, 21, 24252);
    } else if i == 4 {
      MockDate(MockEntries[i].pubDate, "05", "21", 5, 21, 24256);
    } else {
      MockDate(MockEntries[i].pubDate, "09", "21", 9, 21, 24260);
    }
  }

  lemma MockDate(text: string, month: string, year: string, m: nat, y: nat, date: int)
    requires text == month + "/" + year
    requires |month| == 2 && IsDecimal(month) && DigitsValue(month, 10) == m
    requires |year| == 2 && IsDecimal(year) && DigitsValue(year, 10) == y
    requires date == (2000 + y) * 12 + m - 1
    ensures ParseDate(text) == Some(date)
  {
    ParseDateOfDecimals(month, year, m, y, date);
  }

  /** Readable dates in strictly increasing order: the running minimum from the first
      stays there and the running maximum ends at the last. */
  lemma AscendingDatesRange(dates: seq<Date>)
    requires |dates| > 0
    requires forall i :: 0 <= i < |dates| ==> dates[i].Some?
    requires forall i, j :: 0 <= i < j < |dates| ==> dates[i].value < dates[j].value
    ensures Earliest(dates[0], dates) == dates[0]
    ensures Latest(dates[0], dates) == dates[|dates| - 1]
  {
    EarliestIsLeast(dates[0], dates);
    LatestIsGreatest(dates[0], dates);
  }

  /** The date range of the mock entries is "01/20" to "09/21". */
  lemma MockDateRange(dates: seq<Date>)
    requires dates == DatesOf(MockEntries)
    ensures DateSpan(FormatDate(Earliest(dates[0], dates)), FormatDate(Latest(dates[0], dates))) ==
      DateSpan("01/20", "09/21")
  {
    assert |dates| == 6 && forall i :: 0 <= i < |dates| ==> dates[i] == Some(24240 + 4 * i) by {
      MockDates();
    }
    FourMonthlyRange(dates);
  }

  /** Six dates four months apart from January 2020 range from "01/20" to "09/21". */
  lemma FourMonthlyRange(dates: seq<Date>)
    requires |dates| == 6 && forall i :: 0 <= i < |dates| ==> dates[i] == Some(24240 + 4 * i)
    ensures DateSpan(FormatDate(Earliest(dates[0], dates)), FormatDate(Latest(dates[0], dates))) ==
      DateSpan("01/20", "09/21")
  {
    FourMonthlyAscending(dates, 24240);
    FormatOfMockDate(dates[0], 24240, 1, 0, "01/20");
    FormatOfMockDate(dates[5], 24260, 9, 1, "09/21");
    AscendingRangeText(dates, "01/20", "09/21");
  }

  /** Dates four months apart rise with the position. */
  lemma FourMonthlyAscending(dates: seq<Date>, base: int)
    requires forall i :: 0 <= i < |dates| ==> dates[i] == Some(base + 4 * i)
    ensures forall i :: 0 <= i < |dates| ==> dates[i].Some?
    ensures forall i, j :: 0 <= i < j < |dates| ==> dates[i].value < dates[j].value
  {
  }

  /** A readable date of 2020 or 2021 printed as "0M/2U". */
  lemma FormatOfMockDate(d: Date, v: int, month: nat, units: nat, text: string)
    requires d == Some(v) && 1 <= month <= 9 && units <= 1
    requires v == (2020 + units) * 12 + month - 1
    requires text == ['0', DigitChar(month), '/', '2', DigitChar(units)]
    ensures FormatDate(d) == text
  {
    assert v % 12 + 1 == month && v / 12 - 2000 == 20 + units;
    assert DigitChar(2) == '2';
    FormatMonthYear(v, month, 2, units, text);
  }

  /** Over ascending readable dates, the range prints as the first and the last date. */
  lemma AscendingRangeText(dates: seq<Date>, lo: string, hi: string)
    requires |dates| > 0
    requires forall i :: 0 <= i < |dates| ==> dates[i].Some?
    requires forall i, j :: 0 <= i < j < |dates| ==> dates[i].value < dates[j].value
    requires FormatDate(dates[0]) == lo && FormatDate(dates[|dates| - 1]) == hi
    ensures DateSpan(FormatDate(Earliest(dates[0], dates)), FormatDate(Latest(dates[0], dates))) == DateSpan(lo, hi)
  {
    AscendingDatesRange(dates);
  }

  /** A date in month 1-9 of a year 2010-2099 formats as "0M/YY". */
  lemma FormatMonthYear(v: int, month: nat, tens: nat, units: nat, text: string)
    requires 1 <= month <= 9 && 1 <= tens <= 9 && units <= 9
    requires v % 12 + 1 == month && v / 12 - 2000 == 10 * tens + units
    requires text == ['0', DigitChar(month), '/', DigitChar(tens), DigitChar(units)]
    ensures FormatDate(Some(v)) == text
  {
    var a, b := ['0', DigitChar(month)], [DigitChar(tens), DigitChar(units)];
    assert FormatDate(Some(v)) == Field(month) + "/" + Field(10 * tens + units) by {
      FormatDateFields(v);
    }
    assert Field(month) == a by { FieldOfOneDigit(month); }
    assert Field(10 * tens + units) == b by { FieldOfTwoDigits(tens, units); }
    SlashJoinDigits(a, b, text);
  }

  lemma SlashJoinDigits(a: string, b: string, text: string)
    requires |a| == 2 && |b| == 2 && |text| == 5 && text[2] == '/'
    requires a == text[..2] && b == text[3..]
    ensures a + "/" + b == text
  {
    assert a + "/" + b == text[..2] + [text[2]] + text[3..];
  }

  /** A single digit is padded with one '0'. */
  lemma FieldOfOneDigit(n: nat)
    requires n <= 9
    ensures Field(n) == ['0', DigitChar(n)]
  {
    var s := IntToString(n);
    assert s == [DigitChar(n)];
    assert PadStart(s, 2, '0') == seq(1, _ => '0') + s;
  }

  /** A two-digit number is written as its two digits. */
  lemma FieldOfTwoDigits(tens: nat, units: nat)
    requires 1 <= tens <= 9 && units <= 9
    ensures Field(10 * tens + units) == [DigitChar(tens), DigitChar(units)]
  {
    var n := 10 * tens + units;
    assert n / 10 == tens && n % 10 == units;
    assert NatToString(tens) == [DigitChar(tens)];
    assert IntToString(n) == [DigitChar(tens), DigitChar(units)];
  }

  // ---------------------------------------------------------------------------
  // Embeddable viewer URL

  const DrivePrefix := "https://drive.google.com/file/d/"

  /** The pattern `/\/d\/([^/]+)/` can match with its group starting at `k`: "/d/" ends
      at `k` and at least one character other than '/' follows. */
  predicate IdStartsAt(s: string, k: int) {
    3 <= k < |s| && s[k - 3] == '/' && s[k - 2] == 'd' && s[k - 1] == '/' && s[k] != '/'
  }

  /** The first group start at or after `k`, or `|s|` when there is none. */
  function FindIdStart(s: string, k: nat): (r: nat)
    ensures r == |s| || (k <= r < |s| && IdStartsAt(s, r))
    ensures forall j :: k <= j < r ==> !IdStartsAt(s, j)
    decreases |s| - k
  {
    if k >= |s| then |s|
    else if IdStartsAt(s, k) then k
    else FindIdStart(s, k + 1)
  }

  /** `getEmbedUrl`: the leftmost match of the pattern gives the file id, the longest
      run of characters other than '/' after "/d/"; the id is placed in the preview
      URL. No match gives "". The group is never empty, so the check that it is
      truthy never fails on its own. */
  function GetEmbedUrl(driveLink: string): (r: string)
    ensures r == "" <==> forall k :: 0 <= k < |driveLink| ==> !IdStartsAt(driveLink, k)
  {
    var k := FindIdStart(driveLink, 3);
    if k == |driveLink| then ""
    else DrivePrefix + driveLink[k..IndexOf(driveLink, '/', k)] + "/preview"
  }

  /** The leftmost, greedy reading of the pattern: when the first group start is `k`
      and `driveLink[k..e]` is the maximal run of characters other than '/', the
      result is the preview URL for that id. */
  lemma EmbedUrlOfMatch(driveLink: string, k: nat, e: nat)
    requires IdStartsAt(driveLink, k)
    requires forall j :: 0 <= j < k ==> !IdStartsAt(driveLink, j)
    requires k < e <= |driveLink| && '/' !in driveLink[k..e]
    requires e == |driveLink| || driveLink[e] == '/'
    ensures GetEmbedUrl(driveLink) == DrivePrefix + driveLink[k..e] + "/preview"
  {
    assert FindIdStart(driveLink, 3) == k;
    var i := IndexOf(driveLink, '/', k);
    assert i == e by {
      assert forall t :: k <= t < e ==> driveLink[t] == driveLink[k..e][t - k] && driveLink[t] != '/';
    }
  }

  /** A link of the usual shape, the prefix, an id without '/', then nothing or a path
      starting with '/', embeds as that id's preview URL. */
  lemma EmbedUrlOfDriveLink(id: string, rest: string)
    requires |id| > 0 && '/' !in id
    requires rest == "" || rest[0] == '/'
    ensures GetEmbedUrl(DrivePrefix + id + rest) == DrivePrefix + id + "/preview"
  {
    var s := DrivePrefix + id + rest;
    var k := |DrivePrefix|;
    assert s[..k] == DrivePrefix;
    assert forall j :: 0 <= j < k ==> !IdStartsAt(s, j) by {
      forall j | 0 <= j < k ensures !IdStartsAt(s, j) {
        assert forall t :: 0 <= t < k ==> s[t] == DrivePrefix[t];
      }
    }
    var e := k + |id|;
    assert s[k..e] == id;
    assert IdStartsAt(s, k) by { assert s[k] == id[0]; }
    if rest != "" {
      assert s[e] == rest[0];
    }
    EmbedUrlOfMatch(s, k, e);
  }

  /** Embedding an embed URL changes nothing. */
  lemma EmbedUrlIdempotent(driveLink: string)
    requires GetEmbedUrl(driveLink) != ""
    ensures GetEmbedUrl(GetEmbedUrl(driveLink)) == GetEmbedUrl(driveLink)
  {
    var k := FindIdStart(driveLink, 3);
    var id := driveLink[k..IndexOf(driveLink, '/', k)];
    assert id[0] == driveLink[k];
    EmbedUrlOfDriveLink(id, "/preview");
  }

  /** The archive's sample link embeds as the preview URL of its file id. */
  lemma EmbedUrlOfSampleLink()
    ensures GetEmbedUrl(DriveLink) == DrivePrefix + SampleFileId + "/preview"
  {
    EmbedUrlOfDriveLink(SampleFileId, "/view?usp=sharing");
  }
}
