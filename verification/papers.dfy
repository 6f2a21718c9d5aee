/** The two paper records the bot passes between its stages. */
module Papers {
  import opened Wrappers

  /** A search-feed entry after `parseEntry` (lib/arxiv-search.js). */
  datatype Candidate = Candidate(
    id: string,
    title: string,
    authors: seq<string>,
    abstractText: string,
    categories: seq<string>,
    published: Option<string>,
    updated: Option<string>,
    pdfUrl: string,
    absUrl: string)

  /**
   * The record `processSinglePaper` builds (lib/paper-processor.js) and the
   * table writer renders (lib/github-operations.js). Absent optional fields
   * are the empty string, as in the source.
   */
  datatype Processed = Processed(
    title: string,
    arxivId: string,
    authors: seq<string>,
    abstractText: string,
    categories: seq<string>,
    published: Option<string>,
    updated: Option<string>,
    pdfUrl: string,
    absUrl: string,
    codeUrl: string,
    models: string,
    dataset: string,
    projectPage: string,
    date: string)
}
