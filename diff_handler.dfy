/**
 * The GET handler of the diff endpoint: given the query string and what the
 * upstream service answers, the response it returns. `Handle` states it as a
 * function; `Get` computes it the way the handler does, reversing the commit
 * array in place and accumulating the diff text in a loop.
 */
module DiffHandler {
  import opened Wrappers
  import opened Upstream
  import opened Http
  import opened DiffAssembly
  import Utf8
  import Base64
  import Search

  const MissingParametersMessage := "Missing parameters"
  const FetchErrorMessage := "Error fetching diff"
  const NoChangesMessage := "No changes since given date."
  /** Stands in the ETag pre-image for the commit shas when the list is empty. */
  const NoChangesMarker := "no-changes"

  // ---------------------------------------------------------------------
  // Query parameters

  /** `URLSearchParams.get(name)`: the position of the first pair with that name. */
  function FirstNamed(query: seq<(string, string)>, name: string): (r: Option<nat>)
    ensures r.Some? ==> r.value < |query| && query[r.value].0 == name
                        && forall j :: 0 <= j < r.value ==> query[j].0 != name
    ensures r.None? ==> forall i :: 0 <= i < |query| ==> query[i].0 != name
  {
    Search.FirstIndex(query, (pair: (string, string)) => pair.0 == name)
  }

  /** `url.searchParams.get(name) || ""`: the first value given for the name, "" when there is none. */
  function Param(query: seq<(string, string)>, name: string): (r: string)
    ensures || (exists i :: 0 <= i < |query| && query[i].0 == name && query[i].1 == r
                            && forall j :: 0 <= j < i ==> query[j].0 != name)
            || (r == "" && forall i :: 0 <= i < |query| ==> query[i].0 != name)
  {
    match FirstNamed(query, name)
    case Some(i) => query[i].1
    case None => ""
  }

  /** A request is answered 400 when any of the three parameters is absent or empty. */
  predicate MissingParameter(query: seq<(string, string)>) {
    Param(query, "repo") == "" || Param(query, "file") == "" || Param(query, "since") == ""
  }

  // ---------------------------------------------------------------------
  // Entity tag

  /** The text that is encoded into the ETag: the query triple and a tail, joined with '|'. */
  function EtagPreimage(repo: string, file: string, since: string, tail: string): string {
    repo + "|" + file + "|" + since + "|" + tail
  }

  /** `"${Buffer.from(preimage).toString('base64')}"`: the UTF-8 bytes in Base64, in double quotes. */
  function Etag(preimage: string): (e: string)
    ensures |e| >= 2 && e[0] == '"' && e[|e| - 1] == '"'
    ensures forall i :: 0 < i < |e| - 1 ==> e[i] != '"'
  {
    Base64.EncodeAlphabet(Utf8.Encode(preimage));
    "\"" + Base64.Encode(Utf8.Encode(preimage)) + "\""
  }

  /** What a client reads back from an ETag: strip the quotes, then decode Base64, then UTF-8. */
  function EtagContents(tag: string): Option<string> {
    if |tag| < 2 || tag[0] != '"' || tag[|tag| - 1] != '"' then None
    else match Base64.Decode(tag[1..|tag| - 1])
      case None => None
      case Some(bytes) => Utf8.Decode(bytes)
  }

  /** The ETag gives back its pre-image: nothing of repo, file, since or the shas is lost. */
  lemma EtagRoundTrip(preimage: string)
    ensures EtagContents(Etag(preimage)) == Some(preimage)
  {
    var tag := Etag(preimage);
    assert tag[1..|tag| - 1] == Base64.Encode(Utf8.Encode(preimage));
    Base64.DecodeEncode(Utf8.Encode(preimage));
    Utf8.DecodeEncode(preimage);
  }

  /** Two ETags are equal exactly when their pre-images are: the encoding loses nothing. */
  lemma EtagInjective(p1: string, p2: string)
    ensures Etag(p1) == Etag(p2) <==> p1 == p2
  {
    if Etag(p1) == Etag(p2) {
      EtagRoundTrip(p1);
      EtagRoundTrip(p2);
    }
  }

  // ---------------------------------------------------------------------
  // Responses

  function ClientError(): Response {
    Response(400, ErrorBody(MissingParametersMessage), map[ContentType := Text(JsonContent)])
  }

  /** The uniform answer to anything thrown while fetching or parsing; never cached. */
  function FetchFailed(details: string): Response {
    Response(500, ErrorWithDetails(FetchErrorMessage, details),
             map[ContentType := Text(JsonContent), CacheControl := Text(DoNotCache)])
  }

  /** The answer when the commit list is not an array or is empty. */
  function NoChanges(repo: string, file: string, since: string): Response {
    Response(200, DiffBody(NoChangesMessage),
             map[ContentType := Text(JsonContent),
                 CacheControl := Text(CacheOneWeek),
                 ETag := Text(Etag(EtagPreimage(repo, file, since, NoChangesMarker))),
                 Vary := Text(VaryOnEncoding)])
  }

  /** The answer carrying assembled diff text, with its validators. */
  function DiffFound(diff: string, etag: string, modified: DateSource): Response {
    Response(200, DiffBody(diff),
             map[ContentType := Text(JsonContent),
                 CacheControl := Text(CacheOneWeek),
                 ETag := Text(etag),
                 Vary := Text(VaryOnEncoding),
                 LastModified := HttpDate(modified)])
  }

  /** `commits[0]?.commit?.committer?.date || Date.now()`: a present, non-empty committer date, else the clock. */
  function LastModifiedSource(c: CommitRef): (d: DateSource)
    ensures d.CommitterDate? <==> c.committerDate.Some? && c.committerDate.value != ""
    ensures d.CommitterDate? ==> d.raw == c.committerDate.value
  {
    if c.committerDate.Some? && c.committerDate.value != "" then CommitterDate(c.committerDate.value)
    else RequestClock
  }

  // ---------------------------------------------------------------------
  // Reversal, as `Array.prototype.reverse` does it

  /** The reverse of a sequence: position k holds the element k places from the end. */
  function Reversed<T>(s: seq<T>): (r: seq<T>)
    ensures |r| == |s|
    ensures forall k :: 0 <= k < |s| ==> r[k] == s[|s| - 1 - k]
    decreases |s|
  {
    if |s| == 0 then [] else [s[|s| - 1]] + Reversed(s[..|s| - 1])
  }

  /** Reversing a concatenation reverses the order of the parts. */
  lemma ReversedAppend<T>(a: seq<T>, b: seq<T>)
    ensures Reversed(a + b) == Reversed(b) + Reversed(a)
  {
    var r, t := Reversed(a + b), Reversed(b) + Reversed(a);
    forall k | 0 <= k < |r|
      ensures r[k] == t[k]
    {
      if k < |b| {
        assert r[k] == b[|b| - 1 - k];
      } else {
        assert r[k] == a[|a| - 1 - (k - |b|)];
      }
    }
  }

  /** `commits.reverse()`: reverses the array in place. */
  method ReverseInPlace(a: array<CommitRef>)
    modifies a
    ensures a[..] == Reversed(old(a[..]))
  {
    ghost var before := a[..];
    var lo, hi := 0, a.Length - 1;
    while lo < hi
      invariant 0 <= lo && hi == a.Length - 1 - lo && 2 * lo <= a.Length
      invariant forall k :: 0 <= k < lo ==> a[k] == before[a.Length - 1 - k] && a[a.Length - 1 - k] == before[k]
      invariant forall k :: lo <= k <= hi ==> a[k] == before[k]
    {
      a[lo], a[hi] := a[hi], a[lo];
      lo, hi := lo + 1, hi - 1;
    }
    MirrorIsReversed(before, a[..]);
  }

  /** A sequence that holds another's elements mirrored is its reverse. */
  lemma MirrorIsReversed<T>(s: seq<T>, r: seq<T>)
    requires |r| == |s| && forall k :: 0 <= k < |s| ==> r[k] == s[|s| - 1 - k]
    ensures r == Reversed(s)
  {
  }

  // ---------------------------------------------------------------------
  // The handler

  /** The outcome of the commit loop over commits in processing order: the first thrown error, or the joined blocks. */
  function Assembled(file: string, commits: seq<CommitRef>, details: map<string, DetailOutcome>): Result<string, string> {
    match FirstFailure(file, commits, details)
    case Some(m) => Err(m)
    case None => Ok(Concat(Blocks(file, commits, details)))
  }

  /** One pass of the commit loop over a commit that did not throw: the text grows by its block, if it has one. */
  lemma AssembleStep(file: string, commits: seq<CommitRef>, details: map<string, DetailOutcome>, i: int)
    requires 0 <= i < |commits|
    requires FirstFailure(file, commits[..i], details).None?
    requires !Throws(details, commits[i])
    ensures FirstFailure(file, commits[..i + 1], details).None?
    ensures var step := CommitStep(file, details, commits[i]);
      Concat(Blocks(file, commits[..i + 1], details))
      == Concat(Blocks(file, commits[..i], details)) + (if step.Emitted? then step.block else "")
  {
    assert commits[..i + 1][..i] == commits[..i];
    assert commits[..i + 1] == commits[..i] + [commits[i]];
    BlocksSnoc(file, commits[..i], commits[i], details);
    var added := StepBlocks(file, details, commits[i]);
    ConcatAppend(Blocks(file, commits[..i], details), added);
    if |added| == 1 {
      assert added[..0] == [];
    }
  }

  /** The commit loop meeting a commit whose detail threw: the whole outcome is that commit's error. */
  lemma AssembleThrow(file: string, commits: seq<CommitRef>, details: map<string, DetailOutcome>, i: int)
    requires 0 <= i < |commits|
    requires FirstFailure(file, commits[..i], details).None?
    requires Throws(details, commits[i])
    ensures Assembled(file, commits, details) == Err(DetailFor(details, commits[i].sha).message)
  {
    assert commits[..i + 1][..i] == commits[..i];
    FirstFailureOfPrefix(file, commits[..i + 1], commits[i + 1..], details);
    assert commits[..i + 1] + commits[i + 1..] == commits;
  }

  /**
   * The handler's commit loop: for each commit in array order, look up its
   * detail, rethrow a failure, skip a commit without a usable patch, and
   * append the block of one that has one.
   */
  method AccumulateDiff(commits: array<CommitRef>, file: string, details: map<string, DetailOutcome>)
    returns (outcome: Result<string, string>)
    ensures outcome == Assembled(file, commits[..], details)
  {
    var diffText := "";
    var i := 0;
    while i < commits.Length
      invariant 0 <= i <= commits.Length
      invariant FirstFailure(file, commits[..i], details).None?
      invariant diffText == Concat(Blocks(file, commits[..i], details))
    {
      var commit := commits[i];
      var detail := DetailFor(details, commit.sha);
      if detail.DetailThrew? {
        AssembleThrow(file, commits[..], details, i);
        return Err(detail.message);
      }
      if detail.files.Some? {
        var files := detail.files.value;
        var found := FindEntry(files, file);
        if found.Some? && HasPatch(files[found.value]) {
          diffText := diffText + Block(file, files[0].sha, files[found.value].patch.value);
        }
      }
      AssembleStep(file, commits[..], details, i);
      i := i + 1;
    }
    assert commits[..i] == commits[..];
    return Ok(diffText);
  }

  /**
   * The response to a GET request: 400 exactly when a parameter is missing,
   * whatever the upstream says; otherwise the response to the upstream's answers.
   */
  function Handle(query: seq<(string, string)>, upstream: Upstream): (r: Response)
    ensures r.status == 200 || r.status == 400 || r.status == 500
    ensures r.status == 400 <==> MissingParameter(query)
    ensures r.status == 400 ==> r == ClientError()
  {
    if MissingParameter(query) then ClientError()
    else Respond(Param(query, "repo"), Param(query, "file"), Param(query, "since"), upstream)
  }

  /**
   * The response once the parameters are known to be present. The success
   * and failure shapes are told apart by status alone; every success may be
   * cached for a week and no failure may be cached.
   */
  function Respond(repo: string, file: string, since: string, upstream: Upstream): (r: Response)
    ensures r.status == 200 || r.status == 500
    ensures r.status == 500 ==>
      && r.body.ErrorWithDetails? && r.body.error == FetchErrorMessage
      && CacheControl in r.headers && r.headers[CacheControl] == Text(DoNotCache)
    ensures r.status == 200 ==>
      && r.body.DiffBody? && r.body.diff != ""
      && CacheControl in r.headers && r.headers[CacheControl] == Text(CacheOneWeek)
      && Vary in r.headers && r.headers[Vary] == Text(VaryOnEncoding)
      && ETag in r.headers
  {
    match upstream.list
    case ListThrew(m) => FetchFailed(m)
    case NotAnArray => NoChanges(repo, file, since)
    case CommitList(listed) =>
      if |listed| == 0 then NoChanges(repo, file, since)
      else Answer(repo, file, since, Reversed(listed), upstream.details)
  }

  /**
   * The response after the commit loop, over the commits in processing
   * order: the failure it met, or its diff text (the fallback message when
   * empty) with an ETag over the first and the last commit processed and
   * Last-Modified from the first.
   */
  function Answer(repo: string, file: string, since: string, commits: seq<CommitRef>,
                  details: map<string, DetailOutcome>): (r: Response)
    requires |commits| > 0
    ensures r.status == 200 || r.status == 500
    ensures r.status == 500 <==> exists k :: 0 <= k < |commits| && Throws(details, commits[k])
    ensures r.status == 200 ==>
      && ETag in r.headers && r.headers[ETag].Text?
      && EtagContents(r.headers[ETag].text)
         == Some(repo + "|" + file + "|" + since + "|" + (commits[0].sha + "|" + commits[|commits| - 1].sha))
    ensures r.status == 200 ==>
      && LastModified in r.headers && r.headers[LastModified].HttpDate?
      && (r.headers[LastModified].source.CommitterDate?
          <==> commits[0].committerDate.Some? && commits[0].committerDate.value != "")
      && (r.headers[LastModified].source.CommitterDate? ==>
          r.headers[LastModified].source.raw == commits[0].committerDate.value)
  {
    var preimage := EtagPreimage(repo, file, since, commits[0].sha + "|" + commits[|commits| - 1].sha);
    EtagRoundTrip(preimage);
    var tag := Etag(preimage);
    assert EtagContents(tag) == Some(repo + "|" + file + "|" + since + "|" + (commits[0].sha + "|" + commits[|commits| - 1].sha));
    match Assembled(file, commits, details)
    case Err(m) => FetchFailed(m)
    case Ok(text) =>
      DiffFound(if text == "" then NoDiffMessage else text, tag, LastModifiedSource(commits[0]))
  }

  /**
   * What `Answer` says in terms of the commits themselves: a failure carries
   * the message of the earliest commit that threw, and a success carries the
   * joined blocks, or the fallback message exactly when no commit contributes.
   */
  lemma AnswerByCommits(repo: string, file: string, since: string, commits: seq<CommitRef>,
                        details: map<string, DetailOutcome>)
    requires |commits| > 0
    ensures forall k :: 0 <= k < |commits| && Throws(details, commits[k])
                        && (forall j :: 0 <= j < k ==> !Throws(details, commits[j])) ==>
      Answer(repo, file, since, commits, details) == FetchFailed(DetailFor(details, commits[k].sha).message)
    ensures Answer(repo, file, since, commits, details).status == 200 ==>
      Answer(repo, file, since, commits, details).body
      == DiffBody(if Contributing(file, commits, details) == {} then NoDiffMessage
                  else Concat(Blocks(file, commits, details)))
  {
    FirstFailureIsEarliest(file, commits, details);
    DiffEmptyIff(file, commits, details);
  }

  /**
   * The handler as it runs: the list is copied into an array, reversed in
   * place, and its commits are processed oldest first, `diffText` growing by
   * one block per contributing commit.
   */
  method Get(query: seq<(string, string)>, upstream: Upstream) returns (resp: Response)
    ensures resp == Handle(query, upstream)
  {
    var repo := Param(query, "repo");
    var file := Param(query, "file");
    var since := Param(query, "since");
    if repo == "" || file == "" || since == "" {
      return ClientError();
    }
    var listed: seq<CommitRef>;
    match upstream.list {
      case ListThrew(m) =>
        return FetchFailed(m);
      case NotAnArray =>
        return NoChanges(repo, file, since);
      case CommitList(cs) =>
        listed := cs;
    }
    if |listed| == 0 {
      return NoChanges(repo, file, since);
    }
    var commits := new CommitRef[|listed|](i requires 0 <= i < |listed| => listed[i]);
    assert commits[..] == listed;
    ReverseInPlace(commits);
    assert Handle(query, upstream) == Answer(repo, file, since, commits[..], upstream.details);

    var assembled := AccumulateDiff(commits, file, upstream.details);
    if assembled.Err? {
      return FetchFailed(assembled.error);
    }
    var diffText := assembled.value;
    if diffText == "" {
      diffText := NoDiffMessage;
    }
    var firstSha := commits[0].sha;
    var lastSha := commits[commits.Length - 1].sha;
    var etag := Etag(EtagPreimage(repo, file, since, firstSha + "|" + lastSha));
    resp := DiffFound(diffText, etag, LastModifiedSource(commits[0]));
  }
}
