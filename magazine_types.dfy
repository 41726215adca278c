/** The records shared by the archive's services (src/types/magazine.ts). */
module MagazineTypes {
  import opened Wrappers

  /** One archive entry. `pubDate` is written "MM/YY"; `id` is optional. */
  datatype MagazineEntry = MagazineEntry(
    pubDate: string,
    linkToPdf: string,
    volume: int,
    issue: int,
    author: string,
    title: string,
    page: int,
    id: Option<string>)

  /** A date range whose bounds may each be null (`None`). */
  datatype DateRange = DateRange(startDate: Option<string>, endDate: Option<string>)

  /** User filters: an optional date range and an optional list of author names. */
  datatype SearchFilters = SearchFilters(dateRange: Option<DateRange>, authors: Option<seq<string>>)

  /** A `string | null` bound is truthy: present and not the empty string. */
  predicate IsSet(bound: Option<string>) {
    bound.Some? && bound.value != ""
  }

  /** `filters.authors && filters.authors.length > 0` */
  predicate HasAuthors(filters: SearchFilters) {
    filters.authors.Some? && |filters.authors.value| > 0
  }
}
