/** hooks.py: the pretxnchangegroup hook that refuses a push leaving some
    branch with more than one head. */
module Hooks {
  import opened Failures

  /** What the hook gives back: whether to reject the push, and the warning it
      wrote, if any. */
  datatype HookResult = HookResult(reject: bool, warning: Option<string>)

  function HeadsWarning(branch: string): string {
    "trying to push more than one head to branch " + branch + ".\n" +
    "please `hg pull` and then `hg merge` the outstanding heads.\n" +
    "alternately, name your head as a new branch.\n"
  }

  /** A branch offends when it has more than one head. */
  predicate Offends(heads: string -> nat, branch: string) {
    heads(branch) > 1
  }

  /** one_head_per_branch: branches in the order the repository lists its
      branch tags, heads(b) the number of heads of branch b. The first
      offending branch stops the walk with a warning naming it. Nothing in the
      repository is written: the hook only reads. */
  function OneHeadPerBranch(branches: seq<string>, heads: string -> nat): (r: HookResult)
    ensures r.reject <==> r.warning.Some?
    decreases |branches|
  {
    if branches == [] then HookResult(false, None)
    else if Offends(heads, branches[0]) then HookResult(true, Some(HeadsWarning(branches[0])))
    else OneHeadPerBranch(branches[1..], heads)
  }

  /** The push is rejected exactly when some branch has more than one head. */
  lemma {:induction false} RejectIffSomeBranchOffends(branches: seq<string>, heads: string -> nat)
    ensures OneHeadPerBranch(branches, heads).reject <==>
      exists i :: 0 <= i < |branches| && Offends(heads, branches[i])
    decreases |branches|
  {
    if branches != [] && !Offends(heads, branches[0]) {
      RejectIffSomeBranchOffends(branches[1..], heads);
      if exists i :: 0 <= i < |branches| && Offends(heads, branches[i]) {
        var i :| 0 <= i < |branches| && Offends(heads, branches[i]);
        assert branches[1..][i - 1] == branches[i];
      }
      if exists i :: 0 <= i < |branches[1..]| && Offends(heads, branches[1..][i]) {
        var i :| 0 <= i < |branches[1..]| && Offends(heads, branches[1..][i]);
        assert branches[i + 1] == branches[1..][i];
      }
    }
  }

  /** When no branch has more than one head the push goes through and nothing
      is written. */
  lemma AllSingleHeadedAccepted(branches: seq<string>, heads: string -> nat)
    requires forall b :: b in branches ==> heads(b) <= 1
    ensures OneHeadPerBranch(branches, heads) == HookResult(false, None)
  {
    RejectIffSomeBranchOffends(branches, heads);
  }

  /** The warning names the first offending branch in iteration order, and no
      other: one warning, for branch i, when every branch before i is fine. */
  lemma {:induction false} WarnsFirstOffender(branches: seq<string>, heads: string -> nat, i: nat)
    requires i < |branches| && Offends(heads, branches[i])
    requires forall j :: 0 <= j < i ==> !Offends(heads, branches[j])
    ensures OneHeadPerBranch(branches, heads) == HookResult(true, Some(HeadsWarning(branches[i])))
    decreases i
  {
    if i > 0 {
      assert !Offends(heads, branches[0]);
      forall j | 0 <= j < i - 1
        ensures !Offends(heads, branches[1..][j])
      {
        assert branches[1..][j] == branches[j + 1];
      }
      WarnsFirstOffender(branches[1..], heads, i - 1);
    }
  }

  /** Branches after the first offender are never looked at: changing their
      head counts changes nothing. */
  lemma {:induction false} LaterBranchesIgnored(branches: seq<string>, heads: string -> nat, heads': string -> nat, i: nat)
    requires i < |branches| && Offends(heads, branches[i]) && Offends(heads', branches[i])
    requires forall j :: 0 <= j <= i ==> heads(branches[j]) == heads'(branches[j])
    ensures OneHeadPerBranch(branches, heads) == OneHeadPerBranch(branches, heads')
    decreases i
  {
    if i > 0 && !Offends(heads, branches[0]) {
      forall j | 0 <= j <= i - 1
        ensures heads(branches[1..][j]) == heads'(branches[1..][j])
      {
        assert branches[1..][j] == branches[j + 1];
      }
      assert branches[1..][i - 1] == branches[i];
      LaterBranchesIgnored(branches[1..], heads, heads', i - 1);
    }
  }
}
