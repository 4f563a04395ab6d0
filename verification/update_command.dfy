/** The `/pluginloader` command: the choice of sub-command, its effect on the
    loader, and the completion of the sub-command word. */
module Command {
  import opened JavaText
  import opened VersionLedger
  import opened Pipeline

  /** What the command does besides answering true: refuse, show help, start
      a check, start installing, or report an unknown word. */
  datatype Action = Denied | Help | CheckAction | UpdateAction | UnknownWord

  /** The action chosen and the value `onCommand` returns. */
  datatype Outcome = Outcome(action: Action, handled: bool)

  /** `onCommand`'s decision: the permission first, then the number of
      arguments, then the first argument ignoring case. */
  function Dispatch(hasPermission: bool, args: seq<string>): (r: Outcome)
    ensures r.handled
    ensures !hasPermission ==> r.action == Denied
    ensures hasPermission && args == [] ==> r.action == Help
    ensures r.action == CheckAction <==> hasPermission && args != [] && ToLower(args[0]) == "check"
    ensures r.action == UpdateAction <==> hasPermission && args != [] && ToLower(args[0]) == "update"
  {
    if !hasPermission then Outcome(Denied, true)
    else if |args| == 0 then Outcome(Help, true)
    else
      match ToLower(args[0])
      case "check" => Outcome(CheckAction, true)
      case "update" => Outcome(UpdateAction, true)
      case _ => Outcome(UnknownWord, true)
  }

  /** The choice ignores the case of the sub-command word. */
  lemma DispatchIgnoresCase(hasPermission: bool, word: string, rest: seq<string>)
    ensures Dispatch(hasPermission, [word] + rest) == Dispatch(hasPermission, [ToLower(word)] + rest)
  {
    ToLowerIdempotent(word);
  }

  /** `CHECK` starts a check and `Update` starts installing; any other word is
      unknown and only answered with a message. */
  lemma DispatchExamples()
    ensures Dispatch(true, ["CHECK"]).action == CheckAction
    ensures Dispatch(true, ["Update", "now"]).action == UpdateAction
    ensures Dispatch(true, ["status"]).action == UnknownWord
    ensures Dispatch(false, ["check"]).action == Denied
  {
    Lowered("CHECK", "check");
    Lowered("Update", "update");
    Lowered("status", "status");
  }

  /** `t` is `s` lower-cased, checked one character at a time. */
  lemma Lowered(s: string, t: string)
    requires |s| == |t| && forall i :: 0 <= i < |s| ==> ToLowerChar(s[i]) == t[i]
    ensures ToLower(s) == t
  {
  }

  /** The sub-commands offered for completion, in this order. */
  const SubCommands: seq<string> := ["check", "update"]

  /** A candidate stays when, lower-cased, it starts with the lower-cased
      argument. */
  predicate Completes(arg: string, candidate: string)
  {
    StartsWith(ToLower(candidate), ToLower(arg))
  }

  /** `xs` appears in `ys` in the same order, possibly with gaps. */
  predicate Subsequence(xs: seq<string>, ys: seq<string>)
    decreases |ys|
  {
    if xs == [] then true
    else if ys == [] then false
    else if xs[0] == ys[0] then Subsequence(xs[1..], ys[1..])
    else Subsequence(xs, ys[1..])
  }

  /** The candidates that stay, in their original order. */
  function Kept(candidates: seq<string>, arg: string): (r: seq<string>)
    ensures forall c :: c in r <==> c in candidates && Completes(arg, c)
    ensures Subsequence(r, candidates)
    decreases |candidates|
  {
    if candidates == [] then []
    else if Completes(arg, candidates[0]) then [candidates[0]] + Kept(candidates[1..], arg)
    else
      var r := Kept(candidates[1..], arg);
      SubsequenceSkip(r, candidates[0], candidates[1..]);
      r
  }

  /** Putting an element in front keeps a subsequence a subsequence. */
  lemma {:induction false} SubsequenceSkip(xs: seq<string>, y: string, ys: seq<string>)
    requires Subsequence(xs, ys)
    ensures Subsequence(xs, [y] + ys)
    decreases |ys|, 1
  {
    assert ([y] + ys)[1..] == ys;
    if xs != [] && xs[0] == y {
      SubsequenceDropHead(xs, ys);
    }
  }

  /** Dropping the first element keeps a subsequence a subsequence. */
  lemma {:induction false} SubsequenceDropHead(xs: seq<string>, ys: seq<string>)
    requires xs != [] && Subsequence(xs, ys)
    ensures Subsequence(xs[1..], ys)
    decreases |ys|, 0
  {
    assert ys != [];
    if xs[0] != ys[0] {
      SubsequenceDropHead(xs, ys[1..]);
    }
    SubsequenceSkip(xs[1..], ys[0], ys[1..]);
    assert [ys[0]] + ys[1..] == ys;
  }

  class UpdateCommand {
    const plugin: MainLoader

    constructor (plugin: MainLoader)
      ensures this.plugin == plugin
    {
      this.plugin := plugin;
    }

    /** `onTabComplete`: with exactly one argument, the sub-commands that the
        argument completes, in order; otherwise nothing. The list is built
        and then filtered in place, as `removeIf` does. */
    method OnTabComplete(args: seq<string>) returns (completions: seq<string>)
      ensures |args| == 1 ==> completions == Kept(SubCommands, args[0])
      ensures |args| != 1 ==> completions == []
    {
      if |args| != 1 {
        return [];
      }
      completions := RemoveIfNotCompleting(SubCommands, args[0]);
    }

    /** `onCommand`, with the scheduled task run to completion: a check does
        not download, an update installs every pending entry. Returns true on
        every path. */
    method OnCommand(hasPermission: bool, args: seq<string>, repos: seq<RepoConfig>, github: GitHub, keys: seq<string>)
      returns (handled: bool)
      requires plugin.Valid()
      requires forall i :: 0 <= i < |repos| ==> NoDot(repos[i].key)
      requires Enumerates(keys, plugin.pendingUpdates)
      modifies plugin, plugin.versionTracker
      ensures handled
      ensures plugin.Valid()
      ensures var action := Dispatch(hasPermission, args).action;
        && (action == CheckAction ==> plugin.State() == AfterCheck(old(plugin.State()), repos, github, false))
        && (action == UpdateAction ==> plugin.State() == AfterInstallAll(old(plugin.State()), keys, github))
        && (action != CheckAction && action != UpdateAction ==> plugin.State() == old(plugin.State()))
    {
      var outcome := Dispatch(hasPermission, args);
      if outcome.action == CheckAction {
        var updates := plugin.CheckForUpdates(repos, github, false);
      } else if outcome.action == UpdateAction {
        plugin.DownloadAllPendingUpdates(keys, github);
      }
      return outcome.handled;
    }
  }

  /** `removeIf` with the completion test negated: the list is filtered in
      place, an index advancing past the candidates that stay. */
  method RemoveIfNotCompleting(all: seq<string>, arg: string) returns (list: seq<string>)
    ensures list == Kept(all, arg)
  {
    list := all;
    var i := 0;
    ghost var seen := 0;
    while i < |list|
      invariant 0 <= seen <= |all|
      invariant i == |Kept(all[..seen], arg)|
      invariant list == Kept(all[..seen], arg) + all[seen..]
      decreases |list| - i
    {
      RemoveIfStep(all, seen, arg);
      if !Completes(arg, list[i]) {
        list := list[..i] + list[i + 1..];
      } else {
        i := i + 1;
      }
      seen := seen + 1;
    }
    assert all[..seen] == all;
  }

  /** One turn of the in-place filter: the candidate at the boundary between
      the filtered part and the rest is either dropped or kept. */
  lemma RemoveIfStep(all: seq<string>, seen: nat, arg: string)
    requires seen < |all|
    ensures var kept := Kept(all[..seen], arg);
      var list := kept + all[seen..];
      && list[|kept|] == all[seen]
      && (Completes(arg, all[seen]) ==> Kept(all[..seen + 1], arg) + all[seen + 1..] == list)
      && (!Completes(arg, all[seen]) ==> Kept(all[..seen + 1], arg) + all[seen + 1..] == list[..|kept|] + list[|kept| + 1..])
  {
    assert all[..seen + 1] == all[..seen] + [all[seen]];
    KeptAppend(all[..seen], all[seen], arg);
    assert all[seen..] == [all[seen]] + all[seen + 1..];
    DropAt(Kept(all[..seen], arg), all[seen], all[seen + 1..]);
  }

  /** Removing the element between two parts of a list leaves the two parts. */
  lemma DropAt(front: seq<string>, x: string, back: seq<string>)
    ensures var list := front + ([x] + back);
      && list[|front|] == x
      && list[..|front|] + list[|front| + 1..] == front + back
      && list == front + [x] + back
  {
    var list := front + ([x] + back);
    assert list[..|front|] == front;
    assert list[|front| + 1..] == back;
  }

  /** Filtering one more candidate at the end extends the result by it or by
      nothing. */
  lemma {:induction false} KeptAppend(xs: seq<string>, x: string, arg: string)
    ensures Kept(xs + [x], arg) == Kept(xs, arg) + (if Completes(arg, x) then [x] else [])
    decreases |xs|
  {
    if xs == [] {
      assert [x][1..] == [];
    } else {
      assert (xs + [x])[0] == xs[0] && (xs + [x])[1..] == xs[1..] + [x];
      KeptAppend(xs[1..], x, arg);
    }
  }

  /** Completion examples: an empty argument keeps both sub-commands, `UP`
      keeps `update`, and a word neither starts with keeps nothing. */
  lemma CompletionExamples()
    ensures Kept(SubCommands, "") == ["check", "update"]
    ensures Kept(SubCommands, "UP") == ["update"]
    ensures Kept(SubCommands, "x") == []
  {
    KeptEmptyArgument();
    KeptUp();
    KeptX();
  }

  lemma KeptEmptyArgument()
    ensures Kept(SubCommands, "") == ["check", "update"]
  {
    SubCommandsLower();
    assert ToLower("") == "";
    assert SubCommands[1..][1..] == [];
  }

  lemma KeptUp()
    ensures Kept(SubCommands, "UP") == ["update"]
  {
    CompletesUp();
    assert SubCommands[1..][1..] == [];
  }

  lemma KeptX()
    ensures Kept(SubCommands, "x") == []
  {
    SubCommandsLower();
    Lowered("x", "x");
    assert SubCommands[1..][1..] == [];
  }

  lemma SubCommandsLower()
    ensures ToLower("check") == "check" && ToLower("update") == "update"
  {
    Lowered("check", "check");
    Lowered("update", "update");
  }

  lemma CompletesUp()
    ensures Completes("UP", "update") && !Completes("UP", "check")
  {
    SubCommandsLower();
    Lowered("UP", "up");
    assert "check"[..2] == "ch" && "update"[..2] == "up";
  }

  /** Completion ignores the case of the argument. */
  lemma {:induction false} CompletionIgnoresCase(candidates: seq<string>, arg: string)
    ensures Kept(candidates, arg) == Kept(candidates, ToLower(arg))
    decreases |candidates|
  {
    ToLowerIdempotent(arg);
    if candidates != [] {
      CompletionIgnoresCase(candidates[1..], arg);
    }
  }
}
