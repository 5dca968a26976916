/**
 * How the handler turns the commits touching a file into diff text: the
 * per-commit patch lookup, the unified-diff block written for it, and the
 * blocks of a whole commit sequence taken in order.
 */
module DiffAssembly {
  import opened Wrappers
  import opened Upstream
  import Search

  /** The text the handler answers when commits exist but none yields a patch. */
  const NoDiffMessage := "No diff available for this file."

  /** `i` is the index of the first entry of `files` named `file`. */
  ghost predicate IsFirstMatch(files: seq<FileEntry>, file: string, i: int) {
    && 0 <= i < |files|
    && files[i].filename == file
    && forall j :: 0 <= j < i ==> files[j].filename != file
  }

  /** `files.find(f => f.filename === file)`, given as the index of the entry it returns. */
  function FindEntry(files: seq<FileEntry>, file: string): (r: Option<nat>)
    ensures r.Some? ==> IsFirstMatch(files, file, r.value)
    ensures r.None? ==> forall i :: 0 <= i < |files| ==> files[i].filename != file
  {
    Search.FirstIndex(files, (e: FileEntry) => e.filename == file)
  }

  /** `fileEntry?.patch` is truthy: present and not the empty string. */
  predicate HasPatch(e: FileEntry) {
    e.patch.Some? && e.patch.value != ""
  }

  /** The unified-diff block written for one commit: a header naming the file twice, an index line, the patch. */
  function Block(file: string, indexSha: string, patch: string): (b: string)
    ensures |b| > 0 && b[0] == '\n' && b[|b| - 1] == '\n'
  {
    "\ndiff --git a/" + file + " b/" + file + "\n"
    + "index " + indexSha + ".." + indexSha + " 100644\n"
    + "--- a/" + file + "\n"
    + "+++ b/" + file + "\n"
    + patch + "\n"
  }

  /** A commit contributes a block: its detail has a `files` list whose first entry for `file` has a patch. */
  ghost predicate Contributes(file: string, d: DetailOutcome) {
    && d.Detail?
    && d.files.Some?
    && exists i :: IsFirstMatch(d.files.value, file, i) && HasPatch(d.files.value[i])
  }

  /** What processing one commit does to the accumulating diff text. */
  datatype Step = Threw(message: string) | Skipped | Emitted(block: string)

  /**
   * One iteration of the handler's commit loop: a thrown fetch or parse
   * aborts, a commit without a usable patch is skipped, and otherwise a block
   * is emitted whose index line names the sha of the FIRST `files` entry,
   * whichever entry matched.
   */
  function StepFor(file: string, d: DetailOutcome): (st: Step)
    ensures st.Threw? <==> d.DetailThrew?
    ensures st.Threw? ==> st.message == d.message
    ensures st.Emitted? <==> Contributes(file, d)
    ensures st.Emitted? ==>
      forall i :: IsFirstMatch(d.files.value, file, i) ==>
        HasPatch(d.files.value[i]) && st.block == Block(file, d.files.value[0].sha, d.files.value[i].patch.value)
  {
    match d
    case DetailThrew(m) => Threw(m)
    case Detail(None) => Skipped
    case Detail(Some(files)) =>
      match FindEntry(files, file)
      case None => Skipped
      case Some(k) =>
        if HasPatch(files[k]) then Emitted(Block(file, files[0].sha, files[k].patch.value)) else Skipped
  }

  /**
   * A commit is skipped, not failed, when its detail has no `files`, when no
   * entry names the file, or when the first entry that does has an absent
   * or empty patch.
   */
  lemma SkipsWithoutPatch(file: string, d: DetailOutcome)
    requires d.Detail?
    requires || d.files.None?
             || (forall i :: 0 <= i < |d.files.value| ==> d.files.value[i].filename != file)
             || (exists i :: IsFirstMatch(d.files.value, file, i) && !HasPatch(d.files.value[i]))
    ensures StepFor(file, d) == Skipped
  {
  }

  /** The step taken for one listed commit, its detail looked up by sha. */
  function CommitStep(file: string, details: map<string, DetailOutcome>, c: CommitRef): Step {
    StepFor(file, DetailFor(details, c.sha))
  }

  /** The blocks the commits emit, in the order the commits are processed. */
  function Blocks(file: string, commits: seq<CommitRef>, details: map<string, DetailOutcome>): (bs: seq<string>)
    ensures |bs| <= |commits|
    decreases |commits|
  {
    if |commits| == 0 then []
    else
      var prior := Blocks(file, commits[..|commits| - 1], details);
      match CommitStep(file, details, commits[|commits| - 1])
      case Emitted(b) => prior + [b]
      case _ => prior
  }

  /** The parts joined end to end, as `+=` builds them. */
  function Concat(parts: seq<string>): string
    decreases |parts|
  {
    if |parts| == 0 then "" else Concat(parts[..|parts| - 1]) + parts[|parts| - 1]
  }

  ghost predicate Throws(details: map<string, DetailOutcome>, c: CommitRef) {
    DetailFor(details, c.sha).DetailThrew?
  }

  /** The message of the first commit, in processing order, whose detail threw; None exactly when none threw. */
  function FirstFailure(file: string, commits: seq<CommitRef>, details: map<string, DetailOutcome>): (r: Option<string>)
    ensures r.None? <==> forall k :: 0 <= k < |commits| ==> !Throws(details, commits[k])
    decreases |commits|
  {
    if |commits| == 0 then None
    else match FirstFailure(file, commits[..|commits| - 1], details)
      case Some(m) => Some(m)
      case None =>
        match CommitStep(file, details, commits[|commits| - 1])
        case Threw(m) => Some(m)
        case _ => None
  }

  /** The positions of the commits that contribute a block (by StepFor, those that satisfy Contributes). */
  ghost function Contributing(file: string, commits: seq<CommitRef>, details: map<string, DetailOutcome>): set<int> {
    set k | 0 <= k < |commits| && CommitStep(file, details, commits[k]).Emitted?
  }

  /**
   * When some detail threw, FirstFailure is the message of the earliest
   * commit whose detail threw.
   */
  lemma {:induction false} FirstFailureIsEarliest(file: string, commits: seq<CommitRef>, details: map<string, DetailOutcome>)
    ensures forall k :: 0 <= k < |commits| && Throws(details, commits[k])
                        && (forall j :: 0 <= j < k ==> !Throws(details, commits[j])) ==>
      FirstFailure(file, commits, details) == Some(DetailFor(details, commits[k].sha).message)
    decreases |commits|
  {
    if |commits| > 0 {
      var prefix := commits[..|commits| - 1];
      FirstFailureIsEarliest(file, prefix, details);
      assert forall k :: 0 <= k < |prefix| ==> prefix[k] == commits[k];
    }
  }

  /** Once a commit has thrown, later commits change nothing: the failure of a prefix is the failure of the whole. */
  lemma {:induction false} FirstFailureOfPrefix(file: string, commits: seq<CommitRef>, more: seq<CommitRef>, details: map<string, DetailOutcome>)
    requires FirstFailure(file, commits, details).Some?
    ensures FirstFailure(file, commits + more, details) == FirstFailure(file, commits, details)
    decreases |more|
  {
    if |more| == 0 {
      assert commits + more == commits;
    } else {
      var all := commits + more;
      assert all[..|all| - 1] == commits + more[..|more| - 1];
      FirstFailureOfPrefix(file, commits, more[..|more| - 1], details);
    }
  }

  /** The blocks one commit adds: its block when it emits one, none otherwise. */
  function StepBlocks(file: string, details: map<string, DetailOutcome>, c: CommitRef): seq<string> {
    match CommitStep(file, details, c)
    case Emitted(b) => [b]
    case _ => []
  }

  /** Adding one commit at the end adds its block, if any, at the end. */
  lemma BlocksSnoc(file: string, commits: seq<CommitRef>, c: CommitRef, details: map<string, DetailOutcome>)
    ensures Blocks(file, commits + [c], details) == Blocks(file, commits, details) + StepBlocks(file, details, c)
  {
    var all := commits + [c];
    assert all[..|all| - 1] == commits;
  }

  /** Order is preserved: the blocks of a concatenation are the blocks of the first part, then those of the second. */
  lemma {:induction false} BlocksAppend(file: string, a: seq<CommitRef>, b: seq<CommitRef>, details: map<string, DetailOutcome>)
    ensures Blocks(file, a + b, details) == Blocks(file, a, details) + Blocks(file, b, details)
    decreases |b|
  {
    if |b| == 0 {
      assert a + b == a;
    } else {
      var init, c := b[..|b| - 1], b[|b| - 1];
      assert b == init + [c];
      assert a + b == (a + init) + [c];
      BlocksAppend(file, a, init, details);
      BlocksSnoc(file, a + init, c, details);
      BlocksSnoc(file, init, c, details);
      assert (Blocks(file, a, details) + Blocks(file, init, details)) + StepBlocks(file, details, c)
          == Blocks(file, a, details) + (Blocks(file, init, details) + StepBlocks(file, details, c));
    }
  }

  lemma {:induction false} ConcatAppend(p: seq<string>, q: seq<string>)
    ensures Concat(p + q) == Concat(p) + Concat(q)
    decreases |q|
  {
    if |q| == 0 {
      assert p + q == p;
    } else {
      var pq := p + q;
      assert pq[..|pq| - 1] == p + q[..|q| - 1];
      ConcatAppend(p, q[..|q| - 1]);
    }
  }

  /** The contributing positions of a sequence are those of its prefix, plus the last position if it contributes. */
  lemma ContributingSnoc(file: string, commits: seq<CommitRef>, details: map<string, DetailOutcome>)
    requires |commits| > 0
    ensures var n := |commits|;
      Contributing(file, commits, details)
      == Contributing(file, commits[..n - 1], details)
         + (if CommitStep(file, details, commits[n - 1]).Emitted? then {n - 1} else {})
  {
    var n := |commits|;
    var prefix := commits[..n - 1];
    forall k | 0 <= k < n - 1
      ensures prefix[k] == commits[k]
    {
    }
  }

  lemma AddFresh(s: set<int>, x: int)
    requires x !in s
    ensures |s + {x}| == |s| + 1
  {
  }

  /** Each contributing commit adds exactly one block and no other commit adds any. */
  lemma {:induction false} BlockCount(file: string, commits: seq<CommitRef>, details: map<string, DetailOutcome>)
    ensures |Blocks(file, commits, details)| == |Contributing(file, commits, details)|
    decreases |commits|
  {
    if |commits| > 0 {
      var n := |commits|;
      var prefix := commits[..n - 1];
      BlockCount(file, prefix, details);
      ContributingSnoc(file, commits, details);
      var before := Contributing(file, prefix, details);
      assert n - 1 !in before;
      AddFresh(before, n - 1);
    }
  }

  /** The k-th commit, when it contributes, supplies the block after those of the contributing commits before it. */
  lemma BlockOfCommit(file: string, commits: seq<CommitRef>, details: map<string, DetailOutcome>, k: int)
    requires 0 <= k < |commits| && Contributes(file, DetailFor(details, commits[k].sha))
    ensures |Contributing(file, commits[..k], details)| < |Blocks(file, commits, details)|
    ensures Blocks(file, commits, details)[|Contributing(file, commits[..k], details)|]
            == CommitStep(file, details, commits[k]).block
  {
    assert commits == commits[..k] + [commits[k]] + commits[k + 1..];
    BlocksAppend(file, commits[..k] + [commits[k]], commits[k + 1..], details);
    BlocksAppend(file, commits[..k], [commits[k]], details);
    assert [commits[k]][..0] == [];
    BlockCount(file, commits[..k], details);
  }

  /** Every block is non-empty and starts with a newline. */
  lemma {:induction false} BlocksStartWithNewline(file: string, commits: seq<CommitRef>, details: map<string, DetailOutcome>)
    ensures forall k :: 0 <= k < |Blocks(file, commits, details)| ==>
      |Blocks(file, commits, details)[k]| > 0 && Blocks(file, commits, details)[k][0] == '\n'
    decreases |commits|
  {
    if |commits| > 0 {
      BlocksStartWithNewline(file, commits[..|commits| - 1], details);
    }
  }

  /** Joined blocks are empty exactly when there are no blocks, since every block starts with a newline. */
  lemma {:induction false} ConcatOfBlocksEmpty(parts: seq<string>)
    requires forall k :: 0 <= k < |parts| ==> |parts[k]| > 0
    ensures (Concat(parts) == "") <==> (|parts| == 0)
    decreases |parts|
  {
    if |parts| > 0 {
      assert |Concat(parts)| >= |parts[|parts| - 1]|;
    }
  }

  /** The diff text is empty exactly when no commit contributes. */
  lemma DiffEmptyIff(file: string, commits: seq<CommitRef>, details: map<string, DetailOutcome>)
    ensures (Concat(Blocks(file, commits, details)) == "") <==> (Contributing(file, commits, details) == {})
  {
    BlocksStartWithNewline(file, commits, details);
    ConcatOfBlocksEmpty(Blocks(file, commits, details));
    BlockCount(file, commits, details);
  }
}
