# git-diff-viewer: the diff endpoint, modelled in Dafny

The repository serves one HTTP endpoint, `GET /api/diff?repo=R&file=F&since=D`.
It answers "what changed in file F of GitHub repository R since date D" as one
text of unified-diff blocks. The handler asks GitHub for the commits that touched
the path since the date. It then fetches each commit's detail and keeps the patch
for F. It wraps each patch in a `diff --git` header, joins the blocks oldest
commit first, and answers JSON with HTTP caching headers: a one-week
`Cache-Control`, an `ETag`, `Vary` and `Last-Modified`. A thrown fetch or
parse error gets a 500 that must not be cached; a missing parameter gets a 400.

This project models that handler's decision logic. GitHub's answers are input
data rather than network calls:

- `Upstream.ListOutcome` is the commit-list outcome. The fetch or parse threw,
  or the JSON is not an array (for example GitHub's error object), or it is an
  array of `{sha, commit.committer.date?}`.
- `Upstream.DetailOutcome` is one commit's outcome. The fetch or parse threw, or
  the JSON is an object with an optional `files` list of `{filename, sha, patch?}`.
  Details are looked up by sha.

Given the query string and those answers, the handler is a function to a
`Http.Response`: a status, a body (`ErrorBody`, `ErrorWithDetails` or
`DiffBody`) and a header map. `DiffHandler.Handle` states that function: it checks the parameters and hands the rest to `DiffHandler.Respond`.
`DiffHandler.Get` computes it the way the handler does. It copies the list into
an array, reverses it in place (`commits.reverse()`), and runs the commit loop
(`AccumulateDiff`), which grows `diffText` one block at a time. Its loop
invariant ties the text to the blocks of the commits processed so far. Then it
reads `commits[0]` and `commits[length - 1]` of the reversed array for the
validators. `Get` is proved to return exactly `Handle`'s response.

The ETag is `"` + Base64(UTF-8(pre-image)) + `"`, as
`Buffer.from(...).toString('base64')` computes it. Both encodings are
implemented: UTF-8 in `Utf8`, and Base64 in `Base64` as section 4 of RFC 4648
defines it, with `=` padding. Each comes with a decoder and a round-trip proof.
So two ETags are equal exactly when their pre-images are. The pre-image itself,
`repo|file|since|oldestSha|newestSha` (or `repo|file|since|no-changes`), does
NOT determine the query, because `|` may occur inside a parameter.
`DiffProperties.EtagCollides` exhibits two queries that share one pre-image.

Files: `wrappers.dfy` (Option, Result, Byte), `upstream.dfy` (GitHub's answers),
`http.dfy` (response shapes and header constants), `utf8.dfy`, `base64.dfy`,
`search.dfy` (the first-match search behind `files.find` and
`searchParams.get`), `diff_assembly.dfy` (patch lookup, block text, blocks of a
commit sequence),
`diff_handler.dfy` (parameters, responses, ETag, `Handle`, `Get`),
`diff_properties.dfy` (the handler's properties across requests).

Behaviour followed where it departs from what one might expect:

- After `commits.reverse()` the array is oldest first. So the ETag's first sha is
  the OLDEST commit and its last sha the NEWEST. `Last-Modified` comes from the
  oldest commit's committer date, not the most recent one.
- The `index` line uses the sha of the commit's FIRST `files` entry, whichever
  entry matched the file (`IndexLineNamesFirstEntry`). The line has no
  placeholder for a missing blob sha.
- A JSON error object from the commit-list endpoint (a 404 message, a rate-limit
  message) is not an array. It therefore yields the 200 "No changes since given
  date." answer, not a 500.
- A patch that is present but empty counts as absent (`fileEntry?.patch` is
  falsy). So does an empty committer date, which makes `Last-Modified` fall back
  to the request clock.
- A sha whose detail is not in the input map is answered as GitHub answers an
  unknown commit: a JSON object without `files`. That commit is skipped.
- A non-2xx answer from GitHub is parsed as JSON like any other answer. It is
  not turned into a 500; only a thrown fetch or parse error is.
- The code has no storage-level cache and no per-commit record output. Caching
  is left entirely to the HTTP headers.

## Model

| member | source | states |
|---|---|---|
| `Utf8.EncodeChar` | src/pages/api/diff.ts:77 | each character takes one to four bytes, one byte exactly for ASCII, and every byte after the first is a continuation byte |
| `Utf8.DecodeEncode` | src/pages/api/diff.ts:77 | decoding the UTF-8 bytes of any string gives the string back |
| `Utf8.EncodeInjective` | src/pages/api/diff.ts:77 | distinct strings have distinct UTF-8 bytes |
| `Base64.ValueOf` | src/pages/api/diff.ts:77 | a character the decoder accepts has a 6-bit value whose alphabet character is that character |
| `Base64.Encode` | src/pages/api/diff.ts:77 | n bytes become 4·⌈n/3⌉ characters |
| `Base64.EncodeAlphabet` | src/pages/api/diff.ts:77 | every character of the text is in the 64-character alphabet, except '=' in the last two places |
| `Base64.EncodePadded` | src/pages/api/diff.ts:77 | the text contains '=' exactly when the byte count is not a multiple of three |
| `Base64.EncodePaddingLength` | src/pages/api/diff.ts:77 | when the byte count is not a multiple of three the text ends in '='; it ends in two '=' exactly when one byte is left over |
| `Base64.DecodeEncode` | src/pages/api/diff.ts:77 | decoding the Base64 text of any bytes gives the bytes back |
| `Base64.EncodeInjective` | src/pages/api/diff.ts:77 | distinct byte sequences have distinct Base64 texts |
| `Search.FirstIndex` | src/pages/api/diff.ts:59 | the position of the first element satisfying the predicate, and None exactly when no element does |
| `DiffAssembly.FindEntry` | src/pages/api/diff.ts:59 | `files.find` by filename: the index of the first entry named `file`, and None exactly when no entry is named `file` |
| `DiffAssembly.Block` | src/pages/api/diff.ts:63-67 | every block starts and ends with a newline, so a contributing commit never adds empty text |
| `DiffAssembly.StepFor` | src/pages/api/diff.ts:58-67 | a commit aborts exactly when its detail threw, with that message. It emits a block exactly when its `files` list's first entry for `file` has a non-empty patch. The block is the header for `file`, the index line with the first entry's sha, and that patch |
| `DiffAssembly.SkipsWithoutPatch` | src/pages/api/diff.ts:59-61 | `!fileEntry?.patch`: a detail without `files`, without an entry for the file, or whose first entry for the file has an absent or empty patch is skipped, not failed |
| `DiffAssembly.Blocks` | src/pages/api/diff.ts:53-68 | the commits in processing order emit no more blocks than there are commits (one per contributing commit is `BlockCount`) |
| `DiffAssembly.FirstFailure` | src/pages/api/diff.ts:53-58 | the commit loop meets no thrown error exactly when no commit's detail threw |
| `DiffAssembly.FirstFailureIsEarliest` | src/pages/api/diff.ts:53-58 | when some commit's detail threw, the failure is the message of the earliest such commit in processing order |
| `DiffAssembly.FirstFailureOfPrefix` | src/pages/api/diff.ts:53-58 | once a commit has thrown, the commits after it do not change the outcome |
| `DiffAssembly.BlocksAppend` | src/pages/api/diff.ts:53-68 | the blocks of two consecutive runs of commits are the first run's blocks followed by the second's |
| `DiffAssembly.ConcatAppend` | src/pages/api/diff.ts:63-67 | `Concat`, the text `+=` builds from a list of parts: joining two lists of parts joins their texts in the same order |
| `DiffAssembly.BlockCount` | src/pages/api/diff.ts:59-61 | the number of blocks equals the number of contributing commits |
| `DiffAssembly.BlockOfCommit` | src/pages/api/diff.ts:53-68 | a contributing commit's block stands at the position given by the number of contributing commits before it |
| `DiffAssembly.BlocksStartWithNewline` | src/pages/api/diff.ts:63 | every block the commits emit is non-empty and starts with a newline |
| `DiffAssembly.ConcatOfBlocksEmpty` | src/pages/api/diff.ts:70 | `Concat` of non-empty parts is empty exactly when there are no parts |
| `DiffAssembly.DiffEmptyIff` | src/pages/api/diff.ts:70-72 | the accumulated diff text is empty exactly when no commit contributes |
| `DiffHandler.FirstNamed` | src/pages/api/diff.ts:11-13 | `searchParams.get`: the position of the first pair with the name, and None exactly when no pair has it |
| `DiffHandler.Param` | src/pages/api/diff.ts:11-13 | `url.searchParams.get(name) \|\| ""`: the value of the first pair with the name, or "" when no pair has the name |
| `DiffHandler.Etag` | src/pages/api/diff.ts:77 | the ETag is a quoted strong entity tag: a double quote, the Base64 text (no double quote inside), a double quote |
| `DiffProperties.PreimageBars` | src/pages/api/diff.ts:77 | `EtagPreimage`, the text encoded into the ETag: its '\|' characters are those of the parameters and the tail plus the three separators |
| `DiffHandler.LastModifiedSource` | src/pages/api/diff.ts:93 | Last-Modified is the committer date exactly when it is present and non-empty, and the request clock otherwise |
| `DiffHandler.EtagRoundTrip` | src/pages/api/diff.ts:77 | `EtagContents` (strip the quotes, decode Base64, decode UTF-8) recovers the pre-image from its ETag |
| `DiffHandler.EtagInjective` | src/pages/api/diff.ts:77 | two ETag values are equal exactly when their pre-images are equal |
| `DiffHandler.Reversed` | src/pages/api/diff.ts:53 | the reverse has the same length, and position k holds the element k places from the end |
| `DiffHandler.ReversedAppend` | src/pages/api/diff.ts:53 | reversing a concatenation reverses the order of its parts |
| `DiffHandler.ReverseInPlace` | src/pages/api/diff.ts:53 | `commits.reverse()`: afterwards the array holds the reverse of its old contents |
| `DiffHandler.AssembleStep` | src/pages/api/diff.ts:58-67 | one pass of the loop over a commit that did not throw appends exactly that commit's block, or nothing |
| `DiffHandler.AssembleThrow` | src/pages/api/diff.ts:53-58 | when the loop meets a commit whose detail threw, with none before it, the whole outcome is that commit's error message |
| `DiffHandler.AccumulateDiff` | src/pages/api/diff.ts:50-68 | the commit loop yields the first thrown message, or else the joined blocks of the contributing commits in array order |
| `DiffHandler.Handle` | src/pages/api/diff.ts:10-20 | the status is 200, 400 or 500. It is 400 exactly when `MissingParameter` holds (repo, file or since is absent or empty), and then the answer is `{error: "Missing parameters"}` whatever upstream says |
| `DiffHandler.Respond` | src/pages/api/diff.ts:24-107 | with the parameters present the status is 200 or 500. A 500 has the "Error fetching diff" body and no-store caching. A 200 has a non-empty diff, one-week `Cache-Control`, `Vary: Accept-Encoding` and an ETag |
| `DiffHandler.Answer` | src/pages/api/diff.ts:53-107 | after the loop over the commits in processing order: the status is 200 or 500, and 500 exactly when some commit's detail threw. A 200 carries an ETag that decodes back to repo\|file\|since\|first sha\|last sha of the commits processed. Its Last-Modified is the first commit's committer date exactly when that date is present and non-empty |
| `DiffHandler.AnswerByCommits` | src/pages/api/diff.ts:53-107 | a 500 carries the message of the earliest commit whose detail threw. A 200 carries "No diff available for this file." exactly when no commit contributes a block, and otherwise the joined blocks |
| `DiffHandler.Get` | src/pages/api/diff.ts:10-108 | the handler with its in-place reverse and its accumulating loop returns exactly `Handle`'s response |
| `DiffProperties.NoChangesIgnoresDetails` | src/pages/api/diff.ts:31-48 | with the parameters present and a list that is not an array or is empty, the answer is 200 "No changes since given date." with the ETag of `repo\|file\|since\|no-changes` and no Last-Modified, whatever the commit details |
| `DiffProperties.FailureIff` | src/pages/api/diff.ts:24-107 | with the parameters present, the status is 500 exactly when the list fetch threw or some listed commit's detail threw; a thrown list fetch answers with its own message |
| `DiffProperties.FailingCommit` | src/pages/api/diff.ts:53-58 | when listed commits threw, the 500 carries the message of the failing commit listed last upstream, which is fetched first |
| `DiffProperties.DiffText` | src/pages/api/diff.ts:50-72 | when nothing threw, the diff is "No diff available for this file." if no commit contributes, and otherwise the joined blocks of the reversed list |
| `DiffProperties.Validators` | src/pages/api/diff.ts:75-94 | a diff answer's headers are exactly Content-Type, one-week Cache-Control, an ETag over the sha of the last listed (oldest) and the first listed (newest) commit, Vary, and Last-Modified from the oldest commit's date or the clock |
| `DiffProperties.OlderCommitsFirst` | src/pages/api/diff.ts:53 | for any split of the upstream list, the blocks of the later (older) part come before those of the earlier part |
| `DiffProperties.ReplaysOldestFirst` | src/pages/api/diff.ts:53-68 | upstream [B, A] with a patch each answers A's block followed by B's |
| `DiffProperties.IndexLineNamesFirstEntry` | src/pages/api/diff.ts:64 | when the matched entry is not the first in `files`, the index line names the first entry's sha |
| `DiffProperties.NoChangesEtagDistinct` | src/pages/api/diff.ts:42 | for the same query, the "no changes" ETag differs from every diff answer's ETag (its pre-image has one '\|' fewer) |
| `DiffProperties.EtagSeparatesSinceAndCommits` | src/pages/api/diff.ts:77 | for one repo and file, and a since date and shas without '\|', two diff ETags are equal exactly when the since date and both shas are |
| `DiffProperties.EtagCollides` | src/pages/api/diff.ts:77 | two different (repo, file) pairs can give the same ETag, so the ETag does not identify the query |

## Left out

- The `fetch` calls, the GitHub URLs they build (with `per_page=100` and no pagination) and `await res.json()` are not modelled (src/pages/api/diff.ts:26-30, 54-58). Their results are the `Upstream` input.
- `console.log` is not modelled (src/pages/api/diff.ts:22, 28, 56). It is logging only.
- Reading `GITHUB_TOKEN` and building the Authorization header are not modelled (src/pages/api/diff.ts:5-8). They are configuration that does not change the logic.
- Date parsing, `Date.now()` and `toUTCString()` are not modelled (src/pages/api/diff.ts:93). `Last-Modified` is kept as its source: the committer date's raw text or the request clock.
- `JSON.stringify`, the `Response` object, the `APIRoute` type and `prerender` are framework plumbing. The body and headers are Dafny datatypes.
- JSON values outside the input shapes are not modelled. Examples are a `null` commit detail, a `files` that is not an array, a list element that is not an object, a commit without a `sha`, and a `files[0]` entry without a `sha` (the code would write `index undefined..undefined`; `FileEntry.sha` is always a string here). In JavaScript these throw a TypeError or print "undefined".
- Commit details are a map from sha to one outcome, while the code fetches once per list entry (src/pages/api/diff.ts:53-58). Two list entries with the same sha therefore get the same outcome here: a repeat fetch that fails after an earlier fetch of that sha succeeded cannot be represented.
- A thrown value without a `message` is not modelled. `JSON.stringify` would drop `details`; the model always carries a message.
- Strings are sequences of Unicode scalar values, not UTF-16 code units. Query values are decoded as UTF-8 by `URLSearchParams`, so they hold no lone surrogates.
- astro.config.mjs is not part of this model. It holds only site and adapter configuration.
