/**
 * What the two GitHub endpoints the handler calls can answer, as data. The
 * handler's `fetch` and `.json()` calls are replaced by these values: an
 * outcome that threw (network failure, unparsable body) or the parsed JSON
 * in the shape the handler reads it.
 */
module Upstream {
  import opened Wrappers

  /** One element of the commit-list array: its `sha` and `commit.committer.date` (absent when any step of that path is). */
  datatype CommitRef = CommitRef(sha: string, committerDate: Option<string>)

  /** One element of a commit's `files` list. */
  datatype FileEntry = FileEntry(filename: string, sha: string, patch: Option<string>)

  /** Fetching and parsing one commit's detail: it threw, or gave an object whose `files` may be absent. */
  datatype DetailOutcome =
    | DetailThrew(message: string)
    | Detail(files: Option<seq<FileEntry>>)

  /** Fetching and parsing the commit list: it threw, gave JSON that is not an array, or gave an array. */
  datatype ListOutcome =
    | ListThrew(message: string)
    | NotAnArray
    | CommitList(commits: seq<CommitRef>)

  /** Everything the upstream service answers for one request. */
  datatype Upstream = Upstream(list: ListOutcome, details: map<string, DetailOutcome>)

  /**
   * The detail answered for a sha. A sha with no entry is answered the way
   * GitHub answers an unknown commit: a JSON error object, which has no `files`.
   */
  function DetailFor(details: map<string, DetailOutcome>, sha: string): DetailOutcome
  {
    if sha in details then details[sha] else Detail(None)
  }
}
