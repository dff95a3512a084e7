/** The ways one ingestion step can fail. In the scraper each of these is a
    Python exception that propagates to the caller. */
module Failures {

  datatype Error =
    | FetchFailed(url: string)              // the page request failed (raised by the fetcher)
    | TableNotFound(tableId: string)        // no <table> with this id on the page
    | MissingHeader(tableId: string)        // the table has no header row
    | ColumnCountMismatch(tableId: string)  // header labels and body cells disagree in number
    | DuplicateLabel(tableId: string)       // two header cells carry the same data-stat label
    | MissingLink                           // a body row holds no hyperlink
    | MalformedHref(href: string)           // the hyperlink has fewer than five "/"-separated segments
    | MissingCountry                        // a roster row has no country cell
    | EmptyCountry                          // the country cell holds no word
    | UnknownCountry(code: string)          // the country code is not one of the five mapped codes
    | DuplicateColumns(category: string)    // suffixing in the merge produced a column name twice
}
