/** The errors the scraper can report, one constructor per kind of failure.
    The values each one carries identify the failure in the model; they are
    not the Go message texts, which mention only some of them. */
module Errors {

  datatype ScrapeError =
    | MalformedPrelude(description: string, subCategory: string, title: string, raw: string)
    | IncompletePrelude(description: string, subCategory: string, title: string)
    | ConfigParseFailure(snippet: string)
    | ConflictingReference(resource: string, attribute: string, oldRef: string, newRef: string)
    | ConversionFailure(blockKey: string)
}
