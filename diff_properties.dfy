/**
 * What the handler promises across requests and upstream answers: which
 * inputs give which status, what the diff text and the validators are, the
 * order of the blocks, and what the ETag can and cannot tell apart.
 */
module DiffProperties {
  import opened Wrappers
  import opened Upstream
  import opened Http
  import opened DiffAssembly
  import opened DiffHandler

  /** With the three parameters present and a list that is not an array or is empty, the answer is "no changes" and no detail is read. */
  lemma NoChangesIgnoresDetails(repo: string, file: string, since: string, list: ListOutcome,
                                d1: map<string, DetailOutcome>, d2: map<string, DetailOutcome>)
    requires list.NotAnArray? || (list.CommitList? && |list.commits| == 0)
    ensures Respond(repo, file, since, Upstream(list, d1)) == Respond(repo, file, since, Upstream(list, d2))
    ensures var r := Respond(repo, file, since, Upstream(list, d1));
      && r.status == 200 && r.body == DiffBody(NoChangesMessage)
      && r.headers[ETag] == Text(Etag(EtagPreimage(repo, file, since, NoChangesMarker)))
      && LastModified !in r.headers
  {
  }

  /**
   * With the parameters present, the answer is 500 exactly when the list
   * fetch threw or some listed commit's detail threw; a thrown list fetch
   * answers with its own message.
   */
  lemma FailureIff(repo: string, file: string, since: string, u: Upstream)
    ensures Respond(repo, file, since, u).status == 500 <==>
      || u.list.ListThrew?
      || (u.list.CommitList? && exists k :: 0 <= k < |u.list.commits| && Throws(u.details, u.list.commits[k]))
    ensures u.list.ListThrew? ==> Respond(repo, file, since, u) == FetchFailed(u.list.message)
  {
    if u.list.CommitList? && |u.list.commits| > 0 {
      var cs := u.list.commits;
      var n := |cs|;
      var ordered := Reversed(cs);
      if exists k :: 0 <= k < n && Throws(u.details, cs[k]) {
        var k :| 0 <= k < n && Throws(u.details, cs[k]);
        assert ordered[n - 1 - k] == cs[k];
      }
    }
  }

  /**
   * When several listed commits threw, the 500 carries the message of the
   * one listed last upstream: it is the oldest, so the first one fetched.
   */
  lemma FailingCommit(repo: string, file: string, since: string, u: Upstream, k: int)
    requires u.list.CommitList? && 0 <= k < |u.list.commits|
    requires Throws(u.details, u.list.commits[k])
    requires forall j :: k < j < |u.list.commits| ==> !Throws(u.details, u.list.commits[j])
    ensures Respond(repo, file, since, u) == FetchFailed(DetailFor(u.details, u.list.commits[k].sha).message)
  {
    var cs := u.list.commits;
    var n := |cs|;
    var ordered := Reversed(cs);
    FirstFailureIsEarliest(file, ordered, u.details);
    assert ordered[n - 1 - k] == cs[k];
  }

  /** When no listed commit's detail threw, processing the reversed list meets no failure. */
  lemma NothingThrows(file: string, listed: seq<CommitRef>, details: map<string, DetailOutcome>)
    requires forall k :: 0 <= k < |listed| ==> !Throws(details, listed[k])
    ensures FirstFailure(file, Reversed(listed), details) == None
  {
    var ordered := Reversed(listed);
    forall i | 0 <= i < |listed|
      ensures !Throws(details, ordered[i])
    {
    }
  }

  /**
   * When nothing threw, the diff text is "No diff available for this file."
   * if no commit contributes, and otherwise the blocks of the contributing
   * commits, oldest first.
   */
  lemma DiffText(repo: string, file: string, since: string, u: Upstream)
    requires u.list.CommitList? && |u.list.commits| > 0
    requires forall k :: 0 <= k < |u.list.commits| ==> !Throws(u.details, u.list.commits[k])
    ensures var ordered := Reversed(u.list.commits);
      && Respond(repo, file, since, u).status == 200
      && Respond(repo, file, since, u).body == DiffBody(
           if Contributing(file, ordered, u.details) == {} then NoDiffMessage
           else Concat(Blocks(file, ordered, u.details)))
  {
    NothingThrows(file, u.list.commits, u.details);
    DiffEmptyIff(file, Reversed(u.list.commits), u.details);
  }

  /**
   * A diff answer is `DiffFound`, whose headers are Content-Type, the
   * one-week Cache-Control, the ETag, Vary and Last-Modified. The ETag covers
   * the oldest and the newest sha (the list is newest first, so its last and
   * its first element) and Last-Modified comes from the oldest commit.
   */
  lemma Validators(repo: string, file: string, since: string, u: Upstream)
    requires u.list.CommitList? && |u.list.commits| > 0
    requires forall k :: 0 <= k < |u.list.commits| ==> !Throws(u.details, u.list.commits[k])
    ensures var cs := u.list.commits;
      var oldest, newest := cs[|cs| - 1], cs[0];
      && Respond(repo, file, since, u).body.DiffBody?
      && Respond(repo, file, since, u) == DiffFound(
           Respond(repo, file, since, u).body.diff,
           Etag(EtagPreimage(repo, file, since, oldest.sha + "|" + newest.sha)),
           LastModifiedSource(oldest))
  {
    var cs := u.list.commits;
    NothingThrows(file, cs, u.details);
  }

  /**
   * Commits listed later upstream are older and their blocks come first: for
   * any split of the list, the blocks of the later part precede those of the
   * earlier part.
   */
  lemma OlderCommitsFirst(file: string, newer: seq<CommitRef>, older: seq<CommitRef>, details: map<string, DetailOutcome>)
    ensures Blocks(file, Reversed(newer + older), details)
            == Blocks(file, Reversed(older), details) + Blocks(file, Reversed(newer), details)
  {
    ReversedAppend(newer, older);
    BlocksAppend(file, Reversed(older), Reversed(newer), details);
  }

  /** A commit whose only file entry is the requested file, with a patch, emits that entry's block. */
  lemma SingleEntryEmits(file: string, indexSha: string, patch: string)
    requires patch != ""
    ensures StepFor(file, Detail(Some([FileEntry(file, indexSha, Some(patch))]))) == Emitted(Block(file, indexSha, patch))
  {
    assert IsFirstMatch([FileEntry(file, indexSha, Some(patch))], file, 0);
  }

  lemma TwoStepsNoFailure(file: string, a: CommitRef, b: CommitRef, details: map<string, DetailOutcome>)
    requires CommitStep(file, details, a).Emitted? && CommitStep(file, details, b).Emitted?
    ensures FirstFailure(file, [a, b], details) == None
  {
    assert [a, b][..1] == [a] && [a][..0] == [];
    assert FirstFailure(file, [a], details) == None;
  }

  lemma TwoStepsBlocks(file: string, a: CommitRef, b: CommitRef, details: map<string, DetailOutcome>)
    requires CommitStep(file, details, a).Emitted? && CommitStep(file, details, b).Emitted?
    ensures Blocks(file, [a, b], details) == [CommitStep(file, details, a).block, CommitStep(file, details, b).block]
  {
    assert [a, b][..1] == [a] && [a][..0] == [];
    assert Blocks(file, [a], details) == [CommitStep(file, details, a).block];
  }

  lemma ConcatTwo(x: string, y: string)
    ensures Concat([x, y]) == x + y
  {
    assert [x, y][..1] == [x] && [x][..0] == [];
    assert Concat([x]) == Concat([]) + x;
  }

  /** Two commits in processing order, each emitting a block, assemble to the first block then the second. */
  lemma TwoBlocksInOrder(file: string, a: CommitRef, b: CommitRef, details: map<string, DetailOutcome>)
    requires CommitStep(file, details, a).Emitted? && CommitStep(file, details, b).Emitted?
    ensures Assembled(file, [a, b], details)
            == Ok(CommitStep(file, details, a).block + CommitStep(file, details, b).block)
  {
    TwoStepsNoFailure(file, a, b, details);
    TwoStepsBlocks(file, a, b, details);
    ConcatTwo(CommitStep(file, details, a).block, CommitStep(file, details, b).block);
  }

  lemma ReversedTwo<T>(x: T, y: T)
    ensures Reversed([x, y]) == [y, x]
  {
    assert [x, y][..1] == [x] && [x][..0] == [];
    assert Reversed([x]) == [x];
  }

  /** Two commits listed newest first as [b, a], each with a patch: the diff is a's block, then b's. */
  lemma ReplaysOldestFirst(repo: string, file: string, since: string, a: CommitRef, b: CommitRef,
                           indexA: string, indexB: string, patchA: string, patchB: string)
    requires a.sha != b.sha && patchA != "" && patchB != ""
    ensures var details := map[a.sha := Detail(Some([FileEntry(file, indexA, Some(patchA))])),
                         b.sha := Detail(Some([FileEntry(file, indexB, Some(patchB))]))];
      Respond(repo, file, since, Upstream(CommitList([b, a]), details)).body
        == DiffBody(Block(file, indexA, patchA) + Block(file, indexB, patchB))
  {
    var details := map[a.sha := Detail(Some([FileEntry(file, indexA, Some(patchA))])),
                       b.sha := Detail(Some([FileEntry(file, indexB, Some(patchB))]))];
    var blockA, blockB := Block(file, indexA, patchA), Block(file, indexB, patchB);
    ReversedTwo(b, a);
    assert CommitStep(file, details, a) == Emitted(blockA) by {
      assert DetailFor(details, a.sha) == Detail(Some([FileEntry(file, indexA, Some(patchA))]));
      SingleEntryEmits(file, indexA, patchA);
    }
    assert CommitStep(file, details, b) == Emitted(blockB) by {
      assert DetailFor(details, b.sha) == Detail(Some([FileEntry(file, indexB, Some(patchB))]));
      SingleEntryEmits(file, indexB, patchB);
    }
    TwoBlocksInOrder(file, a, b, details);
    assert (blockA + blockB)[0] == '\n';
  }

  /** The index line names the first `files` entry's sha even when another entry is the one that matched. */
  lemma IndexLineNamesFirstEntry(file: string, other: string, firstSha: string, ownSha: string, patch: string)
    requires other != file && patch != ""
    ensures StepFor(file, Detail(Some([FileEntry(other, firstSha, None), FileEntry(file, ownSha, Some(patch))])))
            == Emitted(Block(file, firstSha, patch))
  {
    var files := [FileEntry(other, firstSha, None), FileEntry(file, ownSha, Some(patch))];
    assert IsFirstMatch(files, file, 1);
  }

  // ---------------------------------------------------------------------
  // What the ETag tells apart

  /** The number of '|' characters in a string. */
  function Bars(s: string): nat
    decreases |s|
  {
    if |s| == 0 then 0 else Bars(s[..|s| - 1]) + (if s[|s| - 1] == '|' then 1 else 0)
  }

  lemma {:induction false} BarsAppend(a: string, b: string)
    ensures Bars(a + b) == Bars(a) + Bars(b)
    decreases |b|
  {
    if |b| == 0 {
      assert a + b == a;
    } else {
      assert (a + b)[..|a + b| - 1] == a + b[..|b| - 1];
      BarsAppend(a, b[..|b| - 1]);
    }
  }

  lemma {:induction false} NoBars(s: string)
    requires '|' !in s
    ensures Bars(s) == 0
    decreases |s|
  {
    if |s| > 0 {
      assert s[|s| - 1] in s;
      assert forall c :: c in s[..|s| - 1] ==> c in s;
      NoBars(s[..|s| - 1]);
    }
  }

  lemma PreimageBars(repo: string, file: string, since: string, tail: string)
    ensures Bars(EtagPreimage(repo, file, since, tail)) == Bars(repo) + Bars(file) + Bars(since) + 3 + Bars(tail)
  {
    BarsAppend(repo, "|");
    BarsAppend(repo + "|", file);
    BarsAppend(repo + "|" + file, "|");
    BarsAppend(repo + "|" + file + "|", since);
    BarsAppend(repo + "|" + file + "|" + since, "|");
    BarsAppend(repo + "|" + file + "|" + since + "|", tail);
    assert Bars("|") == 1 by {
      assert "|"[..0] == "";
    }
  }

  /** For the same query, the "no changes" ETag never equals the ETag of a diff answer. */
  lemma NoChangesEtagDistinct(repo: string, file: string, since: string, first: string, last: string)
    ensures Etag(EtagPreimage(repo, file, since, NoChangesMarker))
            != Etag(EtagPreimage(repo, file, since, first + "|" + last))
  {
    PreimageBars(repo, file, since, NoChangesMarker);
    PreimageBars(repo, file, since, first + "|" + last);
    NoBars(NoChangesMarker);
    BarsAppend(first, "|");
    BarsAppend(first + "|", last);
    assert Bars("|") == 1 by {
      assert "|"[..0] == "";
    }
    EtagInjective(EtagPreimage(repo, file, since, NoChangesMarker), EtagPreimage(repo, file, since, first + "|" + last));
  }

  /** In "x|y" with no '|' in x, the first '|' stands right after x. */
  lemma FirstBar(x: string, y: string)
    requires '|' !in x
    ensures (x + "|" + y)[|x|] == '|'
    ensures forall i :: 0 <= i < |x| ==> (x + "|" + y)[i] != '|'
  {
    forall i | 0 <= i < |x|
      ensures (x + "|" + y)[i] != '|'
    {
      assert (x + "|" + y)[i] == x[i] && x[i] in x;
    }
  }

  /** A '|' ends the first field: fields without '|' are read back from "x|y". */
  lemma SplitAtBar(x1: string, y1: string, x2: string, y2: string)
    requires '|' !in x1 && '|' !in x2
    requires x1 + "|" + y1 == x2 + "|" + y2
    ensures x1 == x2 && y1 == y2
  {
    var s := x1 + "|" + y1;
    FirstBar(x1, y1);
    FirstBar(x2, y2);
    assert |x1| == |x2|;
    assert x1 == s[..|x1|] == x2;
    assert y1 == s[|x1| + 1..] == y2;
  }

  /**
   * For the same repo and file, and a since date and commit shas without '|'
   * (shas are hexadecimal), two diff answers have the same ETag exactly when
   * they have the same since date and the same oldest and newest commit.
   */
  lemma EtagSeparatesSinceAndCommits(repo: string, file: string,
                                     since1: string, first1: string, last1: string,
                                     since2: string, first2: string, last2: string)
    requires '|' !in since1 && '|' !in first1 && '|' !in since2 && '|' !in first2
    ensures Etag(EtagPreimage(repo, file, since1, first1 + "|" + last1))
            == Etag(EtagPreimage(repo, file, since2, first2 + "|" + last2))
        <==> since1 == since2 && first1 == first2 && last1 == last2
  {
    var p1 := EtagPreimage(repo, file, since1, first1 + "|" + last1);
    var p2 := EtagPreimage(repo, file, since2, first2 + "|" + last2);
    EtagInjective(p1, p2);
    if p1 == p2 {
      var prefix := repo + "|" + file + "|";
      var t1, t2 := since1 + "|" + (first1 + "|" + last1), since2 + "|" + (first2 + "|" + last2);
      assert p1 == prefix + t1;
      assert p2 == prefix + t2;
      assert t1 == p1[|prefix|..] == t2;
      SplitAtBar(since1, first1 + "|" + last1, since2, first2 + "|" + last2);
      SplitAtBar(first1, last1, first2, last2);
    }
  }

  /** The ETag does not determine the query: a '|' inside a parameter lets two queries share one pre-image. */
  lemma EtagCollides(since: string, tail: string)
    ensures exists repo1, file1, repo2, file2 ::
      && (repo1, file1) != (repo2, file2)
      && Etag(EtagPreimage(repo1, file1, since, tail)) == Etag(EtagPreimage(repo2, file2, since, tail))
  {
    var repo1, file1, repo2, file2 := "octocat", "docs|README.md", "octocat|docs", "README.md";
    assert repo1 + "|" + file1 == repo2 + "|" + file2;
    assert EtagPreimage(repo1, file1, since, tail) == EtagPreimage(repo2, file2, since, tail);
  }
}
