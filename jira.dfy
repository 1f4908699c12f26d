/** The records the Jira search endpoint returns, as the program reads them
    (the DTO classes `JiraSearchResult`, `Issue`, `Fields`, `Changelog`,
    `History` and `Item`). Timestamps are already parsed and converted to the
    local time zone, and are modelled as integer instants. */
module Jira {

  /** C#'s `int`. */
  newtype int32 = x: int | -0x8000_0000 <= x <= 0x7FFF_FFFF

  const Int32Max: int := 0x7FFF_FFFF

  /** A value the JSON payload may leave out (a C# `string?`). */
  datatype Option<+T> = None | Some(value: T)

  /** One changed field inside a history entry (`fromString`, `toString`). */
  datatype Item = Item(field: string, fromString: Option<string>, toValue: Option<string>)

  /** One timestamped batch of field changes. */
  datatype History = History(created: int, items: seq<Item>)

  datatype Changelog = Changelog(histories: seq<History>)

  /** The current-state snapshot of an issue. */
  datatype Fields = Fields(summary: string, created: int)

  datatype Issue = Issue(key: string, fields: Fields, changelog: Changelog)

  /** One page of the search result. */
  datatype SearchResult = SearchResult(issues: seq<Issue>, total: int32)
}
