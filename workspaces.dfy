/**
 * The workspace manager: every task gets a git branch `feat/<task id>`, a
 * worktree directory holding that branch, a copy of `.env` and a META.yml
 * record committed on the branch.
 *
 * The repository is an abstract value (`Repo`): the set of branches, the
 * worktrees and the branch each has checked out, the META.yml text in each
 * worktree and at each branch tip, HEAD of the main checkout, and the git
 * commands issued. Each git command is a function from one `Repo` to the
 * next that may fail; `create`, `remove`, `update_meta`, `get_meta` and
 * `list_workspaces` are functions over `Repo` built from those steps, and
 * the class `WorkspaceManager` runs the same steps on its fields, proved
 * equal to them. A failure oracle (`faults`) says which steps fail for
 * reasons outside the model (git errors, a full disk).
 */
module Workspaces {
  import opened Wrappers
  import opened Dicts
  import opened Codec

  // ---------------------------------------------------------------------
  // Names

  function BranchName(taskId: string): string
  {
    "feat/" + taskId
  }

  /** `s.replace(from, to)` for single characters. */
  function Replace(s: string, from: char, to: char): (r: string)
    ensures |r| == |s|
    ensures forall i :: 0 <= i < |s| ==> r[i] == if s[i] == from then to else s[i]
  {
    seq(|s|, i requires 0 <= i < |s| => if s[i] == from then to else s[i])
  }

  /** The worktree directory of a task: the branch name with every `/` turned into `-`. */
  function WorktreePath(base: string, taskId: string): string
  {
    base + "/" + Replace(BranchName(taskId), '/', '-')
  }

  /** The directory name is `feat-` and the task id with `/` replaced, and holds no `/`. */
  lemma WorktreePathShape(base: string, taskId: string)
    ensures WorktreePath(base, taskId) == base + "/feat-" + Replace(taskId, '/', '-')
    ensures forall i :: |base| < i < |WorktreePath(base, taskId)| ==> WorktreePath(base, taskId)[i] != '/'
  {
    var r := Replace(BranchName(taskId), '/', '-');
    assert r == "feat-" + Replace(taskId, '/', '-');
  }

  /** Two task ids share a worktree directory exactly when they agree once `/` is replaced by `-`. */
  lemma SameWorktree(base: string, a: string, b: string)
    ensures WorktreePath(base, a) == WorktreePath(base, b) <==> Replace(a, '/', '-') == Replace(b, '/', '-')
  {
    WorktreePathShape(base, a);
    WorktreePathShape(base, b);
    var pa, pb := WorktreePath(base, a), WorktreePath(base, b);
    if pa == pb {
      var ra, rb := Replace(a, '/', '-'), Replace(b, '/', '-');
      assert |ra| == |rb|;
      forall i | 0 <= i < |ra| ensures ra[i] == rb[i] {
        assert pa[|base| + 6 + i] == ra[i];
        assert pb[|base| + 6 + i] == rb[i];
      }
    }
  }

  /** Task ids `a/b` and `a-b` get different branches but the same worktree directory. */
  lemma SlashAndDashCollide(base: string)
    ensures BranchName("a/b") != BranchName("a-b")
    ensures WorktreePath(base, "a/b") == WorktreePath(base, "a-b")
  {
    assert BranchName("a/b")[6] != BranchName("a-b")[6];
    assert Replace("a/b", '/', '-') == Replace("a-b", '/', '-');
    SameWorktree(base, "a/b", "a-b");
  }

  // ---------------------------------------------------------------------
  // Outcomes

  /** The steps that can fail for reasons outside the model. */
  datatype Step =
    | ProbeMain      // git rev-parse --verify main
    | NewBranch      // git branch <branch> <main>
    | AddWorktree    // git worktree add <dir> <branch>
    | CopyEnv        // copying .env into the worktree
    | ReadHead       // git rev-parse HEAD
    | WriteMeta      // writing META.yml
    | StageMeta      // git -C <dir> add META.yml
    | CommitMeta     // git -C <dir> commit -m <message>
    | RemoveWorktree // git worktree remove [--force] <dir>
    | DeleteBranch   // git branch -D <branch>

  /**
   * What an operation raises: the four `WorkspaceError` subclasses, a git
   * failure that escapes as `CalledProcessError`, or a file error (`OSError`).
   */
  datatype Failure =
    | WorkspaceExists
    | WorkspaceNotFound
    | WorkspaceCreation
    | WorkspaceRemoval
    | GitFailed
    | FileFailed

  /** A git command line: in the main repository, or with `-C <dir>`. */
  datatype GitCall = Git(args: seq<string>) | GitIn(dir: string, args: seq<string>)

  // ---------------------------------------------------------------------
  // The repository

  datatype Repo = Repo(
    branches: set<string>,
    worktrees: map<string, string>,  // worktree directory -> branch checked out there
    files: map<string, string>,      // worktree directory -> its META.yml text
    tips: map<string, string>,       // branch -> META.yml text committed at its tip
    head: string,                    // HEAD commit of the main checkout
    envTemplate: bool,               // whether `.env` exists
    envCopies: set<string>,          // worktree directories holding a `.env` copy
    log: seq<GitCall>)               // git commands issued, in order

  /** What git itself guarantees of a repository. */
  predicate Valid(s: Repo)
  {
    && (forall d :: d in s.worktrees ==> s.worktrees[d] in s.branches)
    && (forall d1, d2 :: d1 in s.worktrees && d2 in s.worktrees && d1 != d2 ==>
          s.worktrees[d1] != s.worktrees[d2])
    && s.files.Keys <= s.worktrees.Keys
    && s.tips.Keys <= s.branches
    && s.envCopies <= s.worktrees.Keys
  }

  function FileAt(s: Repo, d: string): Option<string>
  {
    if d in s.files then Some(s.files[d]) else None
  }

  function TipOf(s: Repo, b: string): Option<string>
  {
    if b in s.tips then Some(s.tips[b]) else None
  }

  /** A worktree whose META.yml differs from the one committed on its branch. */
  predicate Dirty(s: Repo, d: string)
    requires d in s.worktrees
  {
    FileAt(s, d) != TipOf(s, s.worktrees[d])
  }

  /** The repository after one command, and whether the command succeeded. */
  datatype Run = Run(repo: Repo, ok: bool)

  /** `git branch <b> <from>`: a new branch at the commit of `from`. */
  function GitBranch(s: Repo, b: string, from: string, fault: bool): (r: Run)
    ensures Valid(s) ==> Valid(r.repo)
    ensures r.repo.log == s.log + [Git(["branch", b, from])]
  {
    var s' := s.(log := s.log + [Git(["branch", b, from])]);
    if b in s.branches || from !in s.branches || fault then Run(s', false)
    else
      Run(s'.(branches := s.branches + {b},
              tips := if from in s.tips then s.tips[b := s.tips[from]] else s.tips), true)
  }

  /** `git worktree add <d> <b>`: checks `b` out in a new directory `d`. */
  function GitWorktreeAdd(s: Repo, d: string, b: string, fault: bool): (r: Run)
    ensures Valid(s) ==> Valid(r.repo)
    ensures r.repo.log == s.log + [Git(["worktree", "add", d, b])]
  {
    var s' := s.(log := s.log + [Git(["worktree", "add", d, b])]);
    if d in s.worktrees || b !in s.branches || b in s.worktrees.Values || fault then Run(s', false)
    else
      Run(s'.(worktrees := s.worktrees[d := b],
              files := if b in s.tips then s.files[d := s.tips[b]] else s.files - {d}), true)
  }

  /** The `worktree remove` command line, with `--force` inserted as its third word. */
  function RemoveCommand(d: string, force: bool): (cmd: seq<string>)
    ensures force ==> cmd == ["worktree", "remove", "--force", d]
    ensures !force ==> cmd == ["worktree", "remove", d]
  {
    var cmd := ["worktree", "remove", d];
    if force then cmd[..2] + ["--force"] + cmd[2..] else cmd
  }

  /** `git worktree remove [--force] <d>`: refuses a dirty worktree unless forced. */
  function GitWorktreeRemove(s: Repo, d: string, force: bool, fault: bool): (r: Run)
    ensures Valid(s) ==> Valid(r.repo)
    ensures r.repo.log == s.log + [Git(RemoveCommand(d, force))]
  {
    var s' := s.(log := s.log + [Git(RemoveCommand(d, force))]);
    if d !in s.worktrees || fault || (!force && Dirty(s, d)) then Run(s', false)
    else
      Run(s'.(worktrees := s.worktrees - {d}, files := s.files - {d},
              envCopies := s.envCopies - {d}), true)
  }

  /** `git branch -D <b>`: refuses a branch checked out in a worktree. */
  function GitBranchDelete(s: Repo, b: string, fault: bool): (r: Run)
    ensures Valid(s) ==> Valid(r.repo)
    ensures r.repo.log == s.log + [Git(["branch", "-D", b])]
  {
    var s' := s.(log := s.log + [Git(["branch", "-D", b])]);
    if b !in s.branches || b in s.worktrees.Values || fault then Run(s', false)
    else Run(s'.(branches := s.branches - {b}, tips := s.tips - {b}), true)
  }

  /** `git -C <d> add META.yml`. */
  function GitStage(s: Repo, d: string, fault: bool): (r: Run)
    ensures Valid(s) ==> Valid(r.repo)
    ensures r.repo.log == s.log + [GitIn(d, ["add", "META.yml"])]
  {
    var s' := s.(log := s.log + [GitIn(d, ["add", "META.yml"])]);
    var known := d in s.worktrees && (d in s.files || s.worktrees[d] in s.tips);
    Run(s', known && !fault)
  }

  /** `git -C <d> commit -m <msg>`: records the worktree's META.yml on its branch. */
  function GitCommit(s: Repo, d: string, msg: string, fault: bool): (r: Run)
    ensures Valid(s) ==> Valid(r.repo)
    ensures r.repo.log == s.log + [GitIn(d, ["commit", "-m", msg])]
    ensures r.ok ==> d in s.worktrees && r.repo.tips == UpdatedTips(s, d)
  {
    var s' := s.(log := s.log + [GitIn(d, ["commit", "-m", msg])]);
    if d !in s.worktrees || !Dirty(s, d) || fault then Run(s', false)
    else Run(s'.(tips := UpdatedTips(s, d)), true)
  }

  /** The branch tips once the META.yml of worktree `d` is committed. */
  function UpdatedTips(s: Repo, d: string): map<string, string>
    requires d in s.worktrees
  {
    var b := s.worktrees[d];
    if d in s.files then s.tips[b := s.files[d]] else s.tips - {b}
  }

  // ---------------------------------------------------------------------
  // The operations, on the repository value

  /** `_get_main_branch`: `main` when `rev-parse --verify main` succeeds, else `master`. */
  function MainBranch(s: Repo, faults: set<Step>): (m: string)
    ensures m == "main" || m == "master"
    ensures m == "main" <==> "main" in s.branches && ProbeMain !in faults
  {
    if "main" in s.branches && ProbeMain !in faults then "main" else "master"
  }

  /** The META.yml record `create` writes. */
  function InitialMeta(taskId: string, title: string, agent: string, skill: Option<string>,
                       parent: string, created: string, updated: string): Record
  {
    [ Entry("task_id", Str(taskId)),
      Entry("title", Str(title)),
      Entry("agent", Str(agent)),
      Entry("status", Str("backlog")),
      Entry("skill", if skill.Some? then Str(skill.value) else Null),
      Entry("xp_reward", Int(0)),
      Entry("parent_commit", Str(parent)),
      Entry("created_at", Str(created)),
      Entry("updated_at", Str(updated)) ]
  }

  /**
   * `_cleanup_failed_workspace`: force-remove the worktree if its directory
   * exists, then delete the task's branch; failures of either are ignored.
   */
  function Cleanup(s: Repo, base: string, taskId: string, faults: set<Step>): (s': Repo)
    ensures Valid(s) ==> Valid(s')
    ensures s'.envTemplate == s.envTemplate && s.log <= s'.log
  {
    var d := WorktreePath(base, taskId);
    var s1 := if d in s.worktrees then GitWorktreeRemove(s, d, true, RemoveWorktree in faults).repo else s;
    GitBranchDelete(s1, BranchName(taskId), DeleteBranch in faults).repo
  }

  /** The outcome of an operation: the repository after it, and what it returned or raised. */
  datatype Outcome<T> = Outcome(repo: Repo, result: Result<T, Failure>)

  /** `create`: on any git failure the workspace is cleaned up and `WorkspaceCreationError` raised. */
  function CreateSpec(s: Repo, base: string, taskId: string, title: string, agent: string,
                      skill: Option<string>, created: string, updated: string,
                      faults: set<Step>): (o: Outcome<string>)
    ensures Valid(s) ==> Valid(o.repo)
    ensures o.result.Ok? ==> o.result.value == WorktreePath(base, taskId)
    ensures o.result.Err? ==> o.result.error in {WorkspaceExists, WorkspaceCreation, FileFailed}
    ensures o.result == Err(WorkspaceExists) <==> WorktreePath(base, taskId) in s.worktrees
    ensures o.result == Err(WorkspaceExists) ==> o.repo == s
  {
    var b, d := BranchName(taskId), WorktreePath(base, taskId);
    if d in s.worktrees then Outcome(s, Err(WorkspaceExists))
    else
      var r1 := GitBranch(s, b, MainBranch(s, faults), NewBranch in faults);
      if !r1.ok then Outcome(Cleanup(r1.repo, base, taskId, faults), Err(WorkspaceCreation))
      else
        var r2 := GitWorktreeAdd(r1.repo, d, b, AddWorktree in faults);
        if !r2.ok then Outcome(Cleanup(r2.repo, base, taskId, faults), Err(WorkspaceCreation))
        else Populate(r2.repo, base, taskId, title, agent, skill, created, updated, faults)
  }

  /** The steps of `create` once the worktree exists: `.env`, META.yml, the first commit. */
  function Populate(s: Repo, base: string, taskId: string, title: string, agent: string,
                    skill: Option<string>, created: string, updated: string,
                    faults: set<Step>): (o: Outcome<string>)
    requires WorktreePath(base, taskId) in s.worktrees
    ensures Valid(s) ==> Valid(o.repo)
    ensures o.result.Ok? ==> o.result.value == WorktreePath(base, taskId)
    ensures o.result.Err? ==> o.result.error in {WorkspaceCreation, FileFailed}
  {
    var d := WorktreePath(base, taskId);
    if s.envTemplate && CopyEnv in faults then Outcome(s, Err(FileFailed))
    else
      var s1 := if s.envTemplate then s.(envCopies := s.envCopies + {d}) else s;
      EnvCopyValid(s, d);
      WriteInitial(s1, base, taskId, title, agent, skill, created, updated, faults)
  }

  /** Copying `.env` into an existing worktree keeps the repository valid. */
  lemma EnvCopyValid(s: Repo, d: string)
    requires d in s.worktrees
    ensures Valid(s) ==> Valid(s.(envCopies := s.envCopies + {d}))
  {
  }

  /** The steps of `create` after `.env`: read HEAD, write META.yml, the first commit. */
  function WriteInitial(s: Repo, base: string, taskId: string, title: string, agent: string,
                        skill: Option<string>, created: string, updated: string,
                        faults: set<Step>): (o: Outcome<string>)
    requires WorktreePath(base, taskId) in s.worktrees
    ensures Valid(s) ==> Valid(o.repo)
    ensures o.result.Ok? ==> o.result.value == WorktreePath(base, taskId)
    ensures o.result.Err? ==> o.result.error in {WorkspaceCreation, FileFailed}
  {
    var d := WorktreePath(base, taskId);
    if ReadHead in faults then Outcome(Cleanup(s, base, taskId, faults), Err(WorkspaceCreation))
    else if WriteMeta in faults then Outcome(s, Err(FileFailed))
    else
      var meta := InitialMeta(taskId, title, agent, skill, s.head, created, updated);
      CommitNew(s.(files := s.files[d := Encode(meta)]), base, taskId, "init: " + title, faults)
  }

  /** The last steps of `create`: stage and commit the new META.yml. */
  function CommitNew(s: Repo, base: string, taskId: string, msg: string,
                     faults: set<Step>): (o: Outcome<string>)
    requires WorktreePath(base, taskId) in s.worktrees
    ensures Valid(s) ==> Valid(o.repo)
    ensures o.result.Ok? ==> o.result.value == WorktreePath(base, taskId)
    ensures o.result.Err? ==> o.result.error == WorkspaceCreation
  {
    var d := WorktreePath(base, taskId);
    var r1 := GitStage(s, d, StageMeta in faults);
    if !r1.ok then Outcome(Cleanup(r1.repo, base, taskId, faults), Err(WorkspaceCreation))
    else
      var r2 := GitCommit(r1.repo, d, msg, CommitMeta in faults);
      if !r2.ok then Outcome(Cleanup(r2.repo, base, taskId, faults), Err(WorkspaceCreation))
      else Outcome(r2.repo, Ok(d))
  }

  /** `get_meta`: the parsed META.yml of the task's worktree. */
  function GetMetaSpec(s: Repo, base: string, taskId: string): (r: Result<Record, Failure>)
    ensures r.Err? <==> WorktreePath(base, taskId) !in s.files
    ensures r.Err? ==> r.error == WorkspaceNotFound
    ensures r.Ok? ==> Writable(r.value)
  {
    var d := WorktreePath(base, taskId);
    if d in s.files then
      DecodeWritable(s.files[d]);
      Ok(Decode(s.files[d]))
    else Err(WorkspaceNotFound)
  }

  /** `meta.update(updates)` followed by `meta["updated_at"] = now`. */
  function Merge(meta: Record, updates: Record, now: string): Record
  {
    Set(Update(meta, updates), "updated_at", Str(now))
  }

  /** The commit message of `update_meta`: the update keys joined by `, `. */
  function UpdateMessage(updates: Record): string
  {
    "update: " + Join(Keys(updates), ", ")
  }

  /**
   * `update_meta`: read, merge, write, and with `commit` stage and commit.
   * A missing META.yml surfaces as the file error of reading it; git
   * failures escape unchanged.
   */
  function UpdateMetaSpec(s: Repo, base: string, taskId: string, updates: Record, commit: bool,
                          now: string, faults: set<Step>): (o: Outcome<()>)
    ensures Valid(s) ==> Valid(o.repo)
    ensures o.result.Err? ==> o.result.error in {FileFailed, GitFailed}
  {
    var d := WorktreePath(base, taskId);
    if d !in s.files || WriteMeta in faults then Outcome(s, Err(FileFailed))
    else
      var s1 := s.(files := s.files[d := Encode(Merge(Decode(s.files[d]), updates, now))]);
      if !commit then Outcome(s1, Ok(())) else CommitUpdate(s1, d, UpdateMessage(updates), faults)
  }

  /** The `commit=True` tail of `update_meta`: stage and commit; a git failure is `GitError`. */
  function CommitUpdate(s: Repo, d: string, msg: string, faults: set<Step>): (o: Outcome<()>)
    ensures Valid(s) ==> Valid(o.repo)
    ensures o.result.Err? ==> o.result.error == GitFailed
    ensures o.repo.files == s.files
  {
    var r1 := GitStage(s, d, StageMeta in faults);
    if !r1.ok then Outcome(r1.repo, Err(GitFailed))
    else
      var r2 := GitCommit(r1.repo, d, msg, CommitMeta in faults);
      if !r2.ok then Outcome(r2.repo, Err(GitFailed)) else Outcome(r2.repo, Ok(()))
  }

  /** `remove`: the worktree, then the branch; any git failure is `WorkspaceRemovalError`. */
  function RemoveSpec(s: Repo, base: string, taskId: string, force: bool,
                      faults: set<Step>): (o: Outcome<()>)
    ensures Valid(s) ==> Valid(o.repo)
    ensures o.result.Err? ==> o.result.error == WorkspaceRemoval
  {
    var r1 := GitWorktreeRemove(s, WorktreePath(base, taskId), force, RemoveWorktree in faults);
    if !r1.ok then Outcome(r1.repo, Err(WorkspaceRemoval))
    else
      var r2 := GitBranchDelete(r1.repo, BranchName(taskId), DeleteBranch in faults);
      if !r2.ok then Outcome(r2.repo, Err(WorkspaceRemoval)) else Outcome(r2.repo, Ok(()))
  }

  /** The record listed for one branch: its META.yml with `branch` set. */
  function Listed(s: Repo, b: string): Record
    requires b in s.tips
  {
    Set(Decode(s.tips[b]), "branch", Str(b))
  }

  /** The records listed for the branch lines, skipping those whose `git show` fails. */
  function ListLines(s: Repo, lines: seq<string>, showFaults: set<string>): seq<Record>
  {
    if lines == [] then []
    else
      var rest := ListLines(s, lines[..|lines| - 1], showFaults);
      var b := lines[|lines| - 1];
      if b in s.tips && b !in showFaults then rest + [Listed(s, b)] else rest
  }

  /**
   * `list_workspaces` given the output of `git for-each-ref` (`None` when it
   * fails) and the branches whose `git show <branch>:META.yml` fails.
   */
  function ListSpec(s: Repo, refs: Option<string>, showFaults: set<string>): seq<Record>
  {
    if refs.None? || Strip(refs.value) == [] then []
    else ListLines(s, SplitLines(Strip(refs.value)), showFaults)
  }

  // ---------------------------------------------------------------------
  // create

  /** The META.yml text `create` commits. */
  function InitialText(s: Repo, taskId: string, title: string, agent: string, skill: Option<string>,
                       created: string, updated: string): string
  {
    Encode(InitialMeta(taskId, title, agent, skill, s.head, created, updated))
  }

  /**
   * When `create` succeeds: the directory and the branch are new, the main
   * branch exists, no step fails, and the new META.yml differs from the one
   * on the main branch (otherwise `git commit` has nothing to commit).
   */
  predicate CreateSucceeds(s: Repo, base: string, taskId: string, title: string, agent: string,
                           skill: Option<string>, created: string, updated: string,
                           faults: set<Step>)
  {
    var m := MainBranch(s, faults);
    && WorktreePath(base, taskId) !in s.worktrees
    && BranchName(taskId) !in s.branches
    && m in s.branches
    && NewBranch !in faults && AddWorktree !in faults
    && !(s.envTemplate && CopyEnv in faults)
    && ReadHead !in faults && WriteMeta !in faults
    && StageMeta !in faults && CommitMeta !in faults
    && TipOf(s, m) != Some(InitialText(s, taskId, title, agent, skill, created, updated))
  }

  /** A step outside git fails once the worktree exists: copying `.env`, or writing META.yml. */
  predicate InitFileFails(s: Repo, faults: set<Step>)
  {
    (s.envTemplate && CopyEnv in faults) || (ReadHead !in faults && WriteMeta in faults)
  }

  /** `create` gets as far as the worktree, and then a step outside git fails. */
  predicate CreateFileFails(s: Repo, base: string, taskId: string, faults: set<Step>)
  {
    && WorktreePath(base, taskId) !in s.worktrees
    && BranchName(taskId) !in s.branches
    && MainBranch(s, faults) in s.branches
    && NewBranch !in faults && AddWorktree !in faults
    && InitFileFails(s, faults)
  }

  /** The two commands of the first commit in worktree `d`. */
  function CommitCalls(d: string, msg: string): seq<GitCall>
  {
    [GitIn(d, ["add", "META.yml"]), GitIn(d, ["commit", "-m", msg])]
  }

  /** Staging and committing a META.yml that is present in its worktree. */
  lemma CommitNewOutcome(s: Repo, base: string, taskId: string, msg: string, faults: set<Step>)
    requires WorktreePath(base, taskId) in s.files && WorktreePath(base, taskId) in s.worktrees
    ensures var d := WorktreePath(base, taskId);
      var o := CommitNew(s, base, taskId, msg, faults);
      && (o.result.Ok? <==> StageMeta !in faults && CommitMeta !in faults && Dirty(s, d))
      && (o.result.Ok? ==>
            o.repo == s.(tips := s.tips[s.worktrees[d] := s.files[d]], log := s.log + CommitCalls(d, msg)))
  {
  }

  /** The steps of `create` after the worktree exists, when they all succeed. */
  lemma PopulateOutcome(s: Repo, base: string, taskId: string, title: string, agent: string,
                        skill: Option<string>, created: string, updated: string, faults: set<Step>)
    requires WorktreePath(base, taskId) in s.worktrees
    ensures var o := Populate(s, base, taskId, title, agent, skill, created, updated, faults);
      var d := WorktreePath(base, taskId);
      var text := InitialText(s, taskId, title, agent, skill, created, updated);
      && (o.result.Ok? <==>
            && !(s.envTemplate && CopyEnv in faults)
            && ReadHead !in faults && WriteMeta !in faults
            && StageMeta !in faults && CommitMeta !in faults
            && TipOf(s, s.worktrees[d]) != Some(text))
      && (o.result.Ok? ==>
            o.repo == s.(files := s.files[d := text],
                         tips := s.tips[s.worktrees[d] := text],
                         envCopies := if s.envTemplate then s.envCopies + {d} else s.envCopies,
                         log := s.log + CommitCalls(d, "init: " + title)))
  {
    var d := WorktreePath(base, taskId);
    var text := InitialText(s, taskId, title, agent, skill, created, updated);
    if !(s.envTemplate && CopyEnv in faults) && ReadHead !in faults && WriteMeta !in faults {
      var s1 := if s.envTemplate then s.(envCopies := s.envCopies + {d}) else s;
      var s2 := s1.(files := s1.files[d := text]);
      CommitNewOutcome(s2, base, taskId, "init: " + title, faults);
    }
  }

  /** The first two steps of `create`: the branch, then the worktree. */
  lemma BranchAndWorktree(s: Repo, base: string, taskId: string, faults: set<Step>)
    requires Valid(s) && WorktreePath(base, taskId) !in s.worktrees
    ensures var b, d, m := BranchName(taskId), WorktreePath(base, taskId), MainBranch(s, faults);
      var r1 := GitBranch(s, b, m, NewBranch in faults);
      var r2 := GitWorktreeAdd(r1.repo, d, b, AddWorktree in faults);
      && (r1.ok && r2.ok <==> b !in s.branches && m in s.branches && NewBranch !in faults && AddWorktree !in faults)
      && (r1.ok && r2.ok ==>
            && r2.repo.worktrees == s.worktrees[d := b]
            && r2.repo.branches == s.branches + {b}
            && TipOf(r2.repo, b) == TipOf(s, m)
            && (m in s.tips ==> r2.repo.tips == s.tips[b := s.tips[m]])
            && (m !in s.tips ==> r2.repo.tips == s.tips)
            && r2.repo.head == s.head && r2.repo.envTemplate == s.envTemplate
            && r2.repo.envCopies == s.envCopies
            && r2.repo.tips - {b} == s.tips && r2.repo.files - {d} == s.files
            && r2.repo.log == s.log + [Git(["branch", b, m]), Git(["worktree", "add", d, b])])
  {
    var b, d, m := BranchName(taskId), WorktreePath(base, taskId), MainBranch(s, faults);
    if b !in s.branches {
      assert b !in s.worktrees.Values;
      assert b !in s.tips && d !in s.files;
      var r1 := GitBranch(s, b, m, NewBranch in faults);
      if r1.ok {
        var t1 := r1.repo.tips;
        assert t1 == if m in s.tips then s.tips[b := s.tips[m]] else s.tips;
        if m in s.tips { UpdateThenRemove(s.tips, b, s.tips[m]); } else { RemoveAbsent(s.tips, b); }
        var r2 := GitWorktreeAdd(r1.repo, d, b, AddWorktree in faults);
        if r2.ok {
          if b in t1 { UpdateThenRemove(s.files, d, t1[b]); } else { RemoveAbsent(s.files, d); }
        }
      }
    }
  }

  lemma UpdateThenRemove<K, V>(m: map<K, V>, k: K, v: V)
    requires k !in m
    ensures m[k := v] - {k} == m
  {
  }

  lemma RemoveAbsent<K, V>(m: map<K, V>, k: K)
    requires k !in m
    ensures m - {k} == m
  {
  }

  /** The steps of `create` after the branch and worktree are made, stated against the repository before the call. */
  lemma PopulateAfterWorktree(s: Repo, s2: Repo, base: string, taskId: string, title: string, agent: string,
                              skill: Option<string>, created: string, updated: string, faults: set<Step>)
    requires s2.worktrees == s.worktrees[WorktreePath(base, taskId) := BranchName(taskId)]
    requires s2.branches == s.branches + {BranchName(taskId)}
    requires TipOf(s2, BranchName(taskId)) == TipOf(s, MainBranch(s, faults))
    requires s2.tips - {BranchName(taskId)} == s.tips && s2.files - {WorktreePath(base, taskId)} == s.files
    requires s2.head == s.head && s2.envTemplate == s.envTemplate && s2.envCopies == s.envCopies
    requires s2.log == s.log + [Git(["branch", BranchName(taskId), MainBranch(s, faults)]),
                                Git(["worktree", "add", WorktreePath(base, taskId), BranchName(taskId)])]
    ensures var o := Populate(s2, base, taskId, title, agent, skill, created, updated, faults);
      var b, d := BranchName(taskId), WorktreePath(base, taskId);
      var text := InitialText(s, taskId, title, agent, skill, created, updated);
      && (o.result.Ok? <==>
            && !(s.envTemplate && CopyEnv in faults)
            && ReadHead !in faults && WriteMeta !in faults
            && StageMeta !in faults && CommitMeta !in faults
            && TipOf(s, MainBranch(s, faults)) != Some(text))
      && (o.result.Ok? ==>
            o.repo == s.(branches := s.branches + {b},
                         worktrees := s.worktrees[d := b],
                         files := s.files[d := text],
                         tips := s.tips[b := text],
                         envCopies := if s.envTemplate then s.envCopies + {d} else s.envCopies,
                         log := s.log + [Git(["branch", b, MainBranch(s, faults)]),
                                         Git(["worktree", "add", d, b])] + CommitCalls(d, "init: " + title)))
  {
    var b, d := BranchName(taskId), WorktreePath(base, taskId);
    var text := InitialText(s, taskId, title, agent, skill, created, updated);
    PopulateOutcome(s2, base, taskId, title, agent, skill, created, updated, faults);
    assert InitialText(s2, taskId, title, agent, skill, created, updated) == text;
    assert s2.worktrees[d] == b;
    SameAfterWrite(s.tips, s2.tips, b, text);
    SameAfterWrite(s.files, s2.files, d, text);
    assert s2.log + CommitCalls(d, "init: " + title) ==
      s.log + [Git(["branch", b, MainBranch(s, faults)]), Git(["worktree", "add", d, b])] + CommitCalls(d, "init: " + title);
  }

  /** Two maps that agree away from `k` agree once `k` is written. */
  lemma SameAfterWrite<K, V>(m: map<K, V>, m2: map<K, V>, k: K, v: V)
    requires m2 - {k} == m
    ensures m2[k := v] == m[k := v]
  {
  }

  /**
   * `create` succeeds exactly under `CreateSucceeds`, and then adds the
   * branch at the new META.yml, the worktree holding it, the `.env` copy
   * when there is a template, and four git commands; HEAD is untouched.
   */
  lemma CreateOutcome(s: Repo, base: string, taskId: string, title: string, agent: string,
                      skill: Option<string>, created: string, updated: string, faults: set<Step>)
    requires Valid(s)
    ensures var o := CreateSpec(s, base, taskId, title, agent, skill, created, updated, faults);
      var b, d := BranchName(taskId), WorktreePath(base, taskId);
      var text := InitialText(s, taskId, title, agent, skill, created, updated);
      && (o.result.Ok? <==> CreateSucceeds(s, base, taskId, title, agent, skill, created, updated, faults))
      && (o.result.Ok? ==>
            o.repo == s.(branches := s.branches + {b},
                         worktrees := s.worktrees[d := b],
                         files := s.files[d := text],
                         tips := s.tips[b := text],
                         envCopies := if s.envTemplate then s.envCopies + {d} else s.envCopies,
                         log := s.log + [Git(["branch", b, MainBranch(s, faults)]),
                                         Git(["worktree", "add", d, b])] + CommitCalls(d, "init: " + title)))
  {
    var b, d := BranchName(taskId), WorktreePath(base, taskId);
    var m := MainBranch(s, faults);
    var o := CreateSpec(s, base, taskId, title, agent, skill, created, updated, faults);
    if d !in s.worktrees {
      BranchAndWorktree(s, base, taskId, faults);
      var r1 := GitBranch(s, b, m, NewBranch in faults);
      if r1.ok {
        var r2 := GitWorktreeAdd(r1.repo, d, b, AddWorktree in faults);
        if r2.ok {
          var s2 := r2.repo;
          assert o == Populate(s2, base, taskId, title, agent, skill, created, updated, faults);
          PopulateAfterWorktree(s, s2, base, taskId, title, agent, skill, created, updated, faults);
        }
      }
    }
  }

  /**
   * A cleanup whose own commands succeed removes the task's worktree and
   * its branch and nothing else.
   */
  lemma CleanupRemoves(s: Repo, base: string, taskId: string, faults: set<Step>)
    requires Valid(s)
    requires RemoveWorktree !in faults && DeleteBranch !in faults
    requires BranchName(taskId) in s.worktrees.Values ==>
      WorktreePath(base, taskId) in s.worktrees && s.worktrees[WorktreePath(base, taskId)] == BranchName(taskId)
    ensures var s' := Cleanup(s, base, taskId, faults);
      var b, d := BranchName(taskId), WorktreePath(base, taskId);
      && s'.branches == s.branches - {b}
      && s'.tips == s.tips - {b}
      && s'.worktrees == s.worktrees - {d}
      && s'.files == s.files - {d}
      && s'.envCopies == s.envCopies - {d}
      && s'.head == s.head
  {
    var b, d := BranchName(taskId), WorktreePath(base, taskId);
    var s1 := if d in s.worktrees then GitWorktreeRemove(s, d, true, false).repo else s;
    if d !in s.worktrees {
      assert d !in s.files && d !in s.envCopies;
      RemoveAbsent(s.worktrees, d);
      RemoveAbsent(s.files, d);
      assert s.envCopies - {d} == s.envCopies;
    }
    assert b !in s1.worktrees.Values;
    if b !in s1.branches {
      assert b !in s.tips;
      RemoveAbsent(s.tips, b);
    }
  }

  /** The repository `s'` is `s` without the task's branch. */
  predicate RolledBack(s: Repo, s': Repo, taskId: string)
  {
    && s'.branches == s.branches - {BranchName(taskId)}
    && s'.tips == s.tips - {BranchName(taskId)}
    && s'.worktrees == s.worktrees
    && s'.files == s.files
    && s'.envCopies == s.envCopies
    && s'.head == s.head
    && s'.envTemplate == s.envTemplate
    && s.log <= s'.log
  }

  /**
   * Rollback: when a git step of `create` fails and cleanup's own commands
   * succeed, the repository is as before except that `feat/<task id>` is
   * gone, even when that branch existed before the call.
   */
  lemma CreateRollsBack(s: Repo, base: string, taskId: string, title: string, agent: string,
                        skill: Option<string>, created: string, updated: string, faults: set<Step>)
    requires Valid(s)
    requires RemoveWorktree !in faults && DeleteBranch !in faults
    requires BranchName(taskId) !in s.worktrees.Values
    ensures var o := CreateSpec(s, base, taskId, title, agent, skill, created, updated, faults);
      o.result == Err(WorkspaceCreation) ==> RolledBack(s, o.repo, taskId)
    ensures var o := CreateSpec(s, base, taskId, title, agent, skill, created, updated, faults);
      && WorktreePath(base, taskId) !in s.worktrees
      && !CreateSucceeds(s, base, taskId, title, agent, skill, created, updated, faults)
      && !CreateFileFails(s, base, taskId, faults)
      ==> o.result == Err(WorkspaceCreation) && RolledBack(s, o.repo, taskId)
  {
    var b, d := BranchName(taskId), WorktreePath(base, taskId);
    CreateErrorCause(s, base, taskId, title, agent, skill, created, updated, faults);
    if d !in s.worktrees {
      var r1 := GitBranch(s, b, MainBranch(s, faults), NewBranch in faults);
      if !r1.ok {
        BranchStepRollsBack(s, base, taskId, title, agent, skill, created, updated, faults);
      } else {
        WorktreeStepRollsBack(s, base, taskId, title, agent, skill, created, updated, faults);
      }
    }
  }

  /**
   * Which error `create` raises, from the step that fails: a failed `.env`
   * copy or META.yml write escapes as a file error, and any other failure
   * of a fresh task (a git step, reading HEAD, nothing to commit) is
   * `WorkspaceCreationError`.
   */
  lemma CreateErrorCause(s: Repo, base: string, taskId: string, title: string, agent: string,
                         skill: Option<string>, created: string, updated: string, faults: set<Step>)
    requires Valid(s)
    ensures var o := CreateSpec(s, base, taskId, title, agent, skill, created, updated, faults);
      o.result == Err(FileFailed) <==> CreateFileFails(s, base, taskId, faults)
    ensures var o := CreateSpec(s, base, taskId, title, agent, skill, created, updated, faults);
      o.result == Err(WorkspaceCreation) <==>
        && WorktreePath(base, taskId) !in s.worktrees
        && !CreateSucceeds(s, base, taskId, title, agent, skill, created, updated, faults)
        && !CreateFileFails(s, base, taskId, faults)
  {
    if WorktreePath(base, taskId) !in s.worktrees {
      BranchAndWorktree(s, base, taskId, faults);
    }
    CreateOutcome(s, base, taskId, title, agent, skill, created, updated, faults);
  }

  /** Rollback when `git branch` fails. */
  lemma BranchStepRollsBack(s: Repo, base: string, taskId: string, title: string, agent: string,
                            skill: Option<string>, created: string, updated: string, faults: set<Step>)
    requires Valid(s)
    requires RemoveWorktree !in faults && DeleteBranch !in faults
    requires BranchName(taskId) !in s.worktrees.Values
    requires WorktreePath(base, taskId) !in s.worktrees
    requires !GitBranch(s, BranchName(taskId), MainBranch(s, faults), NewBranch in faults).ok
    ensures var o := CreateSpec(s, base, taskId, title, agent, skill, created, updated, faults);
      RolledBack(s, o.repo, taskId)
  {
    var r1 := GitBranch(s, BranchName(taskId), MainBranch(s, faults), NewBranch in faults);
    CleanupAfterFailedStep(s, r1.repo, base, taskId, faults);
  }

  /** Rollback when `git branch` succeeds and a later step fails. */
  lemma WorktreeStepRollsBack(s: Repo, base: string, taskId: string, title: string, agent: string,
                              skill: Option<string>, created: string, updated: string, faults: set<Step>)
    requires Valid(s)
    requires RemoveWorktree !in faults && DeleteBranch !in faults
    requires BranchName(taskId) !in s.worktrees.Values
    requires WorktreePath(base, taskId) !in s.worktrees
    requires GitBranch(s, BranchName(taskId), MainBranch(s, faults), NewBranch in faults).ok
    ensures var o := CreateSpec(s, base, taskId, title, agent, skill, created, updated, faults);
      o.result == Err(WorkspaceCreation) ==> RolledBack(s, o.repo, taskId)
  {
    var b, d := BranchName(taskId), WorktreePath(base, taskId);
    var r1 := GitBranch(s, b, MainBranch(s, faults), NewBranch in faults);
    var r2 := GitWorktreeAdd(r1.repo, d, b, AddWorktree in faults);
    if !r2.ok {
      CleanupAfterFailedStep(s, r2.repo, base, taskId, faults);
    } else {
      PopulateRollsBackTo(s, r2.repo, base, taskId, title, agent, skill, created, updated, faults);
    }
  }

  /** Rollback from the steps after the worktree exists, back to the repository before `create`. */
  lemma PopulateRollsBackTo(s: Repo, s2: Repo, base: string, taskId: string, title: string, agent: string,
                            skill: Option<string>, created: string, updated: string, faults: set<Step>)
    requires Valid(s2)
    requires RemoveWorktree !in faults && DeleteBranch !in faults
    requires WorktreePath(base, taskId) !in s.worktrees && WorktreePath(base, taskId) !in s.envCopies
    requires s2.worktrees == s.worktrees[WorktreePath(base, taskId) := BranchName(taskId)]
    requires s2.files - {WorktreePath(base, taskId)} == s.files
    requires s2.envCopies == s.envCopies && s2.head == s.head
    requires s2.envTemplate == s.envTemplate && s.log <= s2.log
    requires s2.branches - {BranchName(taskId)} == s.branches - {BranchName(taskId)}
    requires s2.tips - {BranchName(taskId)} == s.tips - {BranchName(taskId)}
    ensures var o := Populate(s2, base, taskId, title, agent, skill, created, updated, faults);
      o.result == Err(WorkspaceCreation) ==> RolledBack(s, o.repo, taskId)
  {
    var d := WorktreePath(base, taskId);
    PopulateRollsBack(s2, base, taskId, title, agent, skill, created, updated, faults);
    assert s.envCopies - {d} == s.envCopies;
    assert s2.worktrees - {d} == s.worktrees;
  }

  /** Cleanup after `git branch` or `git worktree add` failed, before the worktree exists. */
  lemma CleanupAfterFailedStep(s: Repo, s1: Repo, base: string, taskId: string, faults: set<Step>)
    requires Valid(s) && Valid(s1)
    requires RemoveWorktree !in faults && DeleteBranch !in faults
    requires WorktreePath(base, taskId) !in s.worktrees && BranchName(taskId) !in s.worktrees.Values
    requires s1.worktrees == s.worktrees && s1.files == s.files && s1.envCopies == s.envCopies
    requires s1.head == s.head && s1.branches - {BranchName(taskId)} == s.branches - {BranchName(taskId)}
    requires s1.envTemplate == s.envTemplate && s.log <= s1.log
    requires s1.tips - {BranchName(taskId)} == s.tips - {BranchName(taskId)}
    ensures RolledBack(s, Cleanup(s1, base, taskId, faults), taskId)
  {
    var d := WorktreePath(base, taskId);
    CleanupRemoves(s1, base, taskId, faults);
    assert s.files - {d} == s.files;
    assert s.envCopies - {d} == s.envCopies;
    assert s.worktrees - {d} == s.worktrees;
  }

  /** Rollback from the steps after the worktree exists. */
  lemma PopulateRollsBack(s: Repo, base: string, taskId: string, title: string, agent: string,
                          skill: Option<string>, created: string, updated: string, faults: set<Step>)
    requires Valid(s)
    requires RemoveWorktree !in faults && DeleteBranch !in faults
    requires WorktreePath(base, taskId) in s.worktrees
    requires s.worktrees[WorktreePath(base, taskId)] == BranchName(taskId)
    ensures var o := Populate(s, base, taskId, title, agent, skill, created, updated, faults);
      var b, d := BranchName(taskId), WorktreePath(base, taskId);
      o.result == Err(WorkspaceCreation) ==>
        && o.repo.branches == s.branches - {b}
        && o.repo.tips == s.tips - {b}
        && o.repo.worktrees == s.worktrees - {d}
        && o.repo.files == s.files - {d}
        && o.repo.envCopies == s.envCopies - {d}
        && o.repo.head == s.head
        && o.repo.envTemplate == s.envTemplate && s.log <= o.repo.log
    ensures var o := Populate(s, base, taskId, title, agent, skill, created, updated, faults);
      && (InitFileFails(s, faults) ==> o.result == Err(FileFailed))
      && (o.result.Err? && !InitFileFails(s, faults) ==> o.result == Err(WorkspaceCreation))
  {
    var d := WorktreePath(base, taskId);
    if !(s.envTemplate && CopyEnv in faults) {
      var s1 := if s.envTemplate then s.(envCopies := s.envCopies + {d}) else s;
      assert s1.envCopies - {d} == s.envCopies - {d};
      EnvCopyValid(s, d);
      WriteInitialRollsBack(s1, base, taskId, title, agent, skill, created, updated, faults);
    }
  }

  /** `PopulateRollsBack` for the steps after `.env`. */
  lemma WriteInitialRollsBack(s: Repo, base: string, taskId: string, title: string, agent: string,
                              skill: Option<string>, created: string, updated: string, faults: set<Step>)
    requires Valid(s)
    requires RemoveWorktree !in faults && DeleteBranch !in faults
    requires WorktreePath(base, taskId) in s.worktrees
    requires s.worktrees[WorktreePath(base, taskId)] == BranchName(taskId)
    ensures var o := WriteInitial(s, base, taskId, title, agent, skill, created, updated, faults);
      var b, d := BranchName(taskId), WorktreePath(base, taskId);
      o.result == Err(WorkspaceCreation) ==>
        && o.repo.branches == s.branches - {b}
        && o.repo.tips == s.tips - {b}
        && o.repo.worktrees == s.worktrees - {d}
        && o.repo.files == s.files - {d}
        && o.repo.envCopies == s.envCopies - {d}
        && o.repo.head == s.head
        && o.repo.envTemplate == s.envTemplate && s.log <= o.repo.log
  {
    var d := WorktreePath(base, taskId);
    if ReadHead in faults {
      CleanupRemoves(s, base, taskId, faults);
    } else if WriteMeta !in faults {
      var text := InitialText(s, taskId, title, agent, skill, created, updated);
      var s2 := s.(files := s.files[d := text]);
      assert s2.files - {d} == s.files - {d};
      CommitNewRollsBack(s2, base, taskId, "init: " + title, faults);
    }
  }

  /** A failed first commit, with a working cleanup, leaves the repository less the task's branch and worktree. */
  lemma CommitNewRollsBack(s: Repo, base: string, taskId: string, msg: string, faults: set<Step>)
    requires Valid(s)
    requires RemoveWorktree !in faults && DeleteBranch !in faults
    requires WorktreePath(base, taskId) in s.worktrees
    requires s.worktrees[WorktreePath(base, taskId)] == BranchName(taskId)
    ensures var o := CommitNew(s, base, taskId, msg, faults);
      var b, d := BranchName(taskId), WorktreePath(base, taskId);
      o.result.Err? ==>
        && o.repo.branches == s.branches - {b}
        && o.repo.tips == s.tips - {b}
        && o.repo.worktrees == s.worktrees - {d}
        && o.repo.files == s.files - {d}
        && o.repo.envCopies == s.envCopies - {d}
        && o.repo.head == s.head
        && o.repo.envTemplate == s.envTemplate && s.log <= o.repo.log
  {
    var d := WorktreePath(base, taskId);
    var r1 := GitStage(s, d, StageMeta in faults);
    if !r1.ok {
      CleanupRemoves(r1.repo, base, taskId, faults);
    } else {
      var r2 := GitCommit(r1.repo, d, msg, CommitMeta in faults);
      if !r2.ok {
        CleanupRemoves(r2.repo, base, taskId, faults);
      }
    }
  }

  /** Cleanup deletes `feat/<task id>` even when it existed before `create` was called. */
  lemma CreateDeletesExistingBranch(s: Repo, base: string, taskId: string, title: string, agent: string,
                                    skill: Option<string>, created: string, updated: string, faults: set<Step>)
    requires Valid(s)
    requires RemoveWorktree !in faults && DeleteBranch !in faults
    requires WorktreePath(base, taskId) !in s.worktrees
    requires BranchName(taskId) in s.branches && BranchName(taskId) !in s.worktrees.Values
    ensures var o := CreateSpec(s, base, taskId, title, agent, skill, created, updated, faults);
      && o.result == Err(WorkspaceCreation)
      && BranchName(taskId) !in o.repo.branches
      && o.repo.branches == s.branches - {BranchName(taskId)}
  {
    CreateOutcome(s, base, taskId, title, agent, skill, created, updated, faults);
    CreateRollsBack(s, base, taskId, title, agent, skill, created, updated, faults);
  }

  /**
   * Failures outside git (copying `.env`, writing META.yml) escape without
   * cleanup: the new branch and worktree stay.
   */
  lemma CreateFileFailureKeeps(s: Repo, base: string, taskId: string, title: string, agent: string,
                               skill: Option<string>, created: string, updated: string, faults: set<Step>)
    ensures var o := CreateSpec(s, base, taskId, title, agent, skill, created, updated, faults);
      var b, d := BranchName(taskId), WorktreePath(base, taskId);
      o.result == Err(FileFailed) ==>
        && b in o.repo.branches && b !in s.branches
        && o.repo.worktrees == s.worktrees[d := b] && d !in s.worktrees
    ensures var o := CreateSpec(s, base, taskId, title, agent, skill, created, updated, faults);
      Valid(s) && CreateFileFails(s, base, taskId, faults) ==> o.result == Err(FileFailed)
  {
    var b, d := BranchName(taskId), WorktreePath(base, taskId);
    if Valid(s) {
      CreateErrorCause(s, base, taskId, title, agent, skill, created, updated, faults);
    }
    if d !in s.worktrees {
      var r1 := GitBranch(s, b, MainBranch(s, faults), NewBranch in faults);
      if r1.ok {
        var r2 := GitWorktreeAdd(r1.repo, d, b, AddWorktree in faults);
        if r2.ok {
          PopulateFileFailure(r2.repo, base, taskId, title, agent, skill, created, updated, faults);
        }
      }
    }
  }

  lemma PopulateFileFailure(s: Repo, base: string, taskId: string, title: string, agent: string,
                            skill: Option<string>, created: string, updated: string, faults: set<Step>)
    requires WorktreePath(base, taskId) in s.worktrees
    ensures var o := Populate(s, base, taskId, title, agent, skill, created, updated, faults);
      o.result == Err(FileFailed) ==> o.repo.branches == s.branches && o.repo.worktrees == s.worktrees
  {
  }

  /** A second `create` of the same task raises `WorkspaceExistsError` and changes nothing. */
  lemma CreateTwice(s: Repo, base: string, taskId: string, title: string, agent: string,
                    skill: Option<string>, created: string, updated: string, faults: set<Step>,
                    title': string, agent': string, skill': Option<string>, created': string,
                    updated': string, faults': set<Step>)
    requires Valid(s)
    requires CreateSucceeds(s, base, taskId, title, agent, skill, created, updated, faults)
    ensures var s1 := CreateSpec(s, base, taskId, title, agent, skill, created, updated, faults).repo;
      CreateSpec(s1, base, taskId, title', agent', skill', created', updated', faults') ==
        Outcome(s1, Err(WorkspaceExists))
  {
    CreateOutcome(s, base, taskId, title, agent, skill, created, updated, faults);
  }

  /** A string field the fallback codec reads back unchanged. */
  predicate PlainText(t: string)
  {
    Encodable(Str(t))
  }

  /** A key made of lower-case letters and `_`, as every key the manager writes. */
  predicate WordKey(k: string)
  {
    k != [] && forall j :: 0 <= j < |k| ==> 'a' <= k[j] <= 'z' || k[j] == '_'
  }

  lemma WordKeyPlain(k: string)
    requires WordKey(k)
    ensures PlainKey(k)
  {
  }

  /** A word other than `null` is a value that reads back as written. */
  lemma WordPlain(t: string)
    requires WordKey(t) && t != "null"
    ensures PlainText(t)
  {
    assert !IsDigit(t[0]);
  }

  /** The keys of the record `create` writes, in order. */
  const MetaKeys: seq<string> :=
    ["task_id", "title", "agent", "status", "skill", "xp_reward", "parent_commit", "created_at", "updated_at"]

  lemma MetaKeysPlain()
    ensures forall i :: 0 <= i < |MetaKeys| ==> PlainKey(MetaKeys[i])
  {
    forall i | 0 <= i < |MetaKeys| ensures PlainKey(MetaKeys[i]) {
      assert WordKey(MetaKeys[i]);
      WordKeyPlain(MetaKeys[i]);
    }
  }

  lemma MetaKeysDistinct()
    ensures forall i, j :: 0 <= i < j < |MetaKeys| ==> MetaKeys[i] != MetaKeys[j]
  {
    forall i, j | 0 <= i < j < |MetaKeys| ensures MetaKeys[i] != MetaKeys[j] {
      assert |MetaKeys[i]| != |MetaKeys[j]| || MetaKeys[i][0] != MetaKeys[j][0];
    }
  }

  /** The record `create` writes reads back unchanged when its string fields are plain. */
  lemma InitialMetaWritable(taskId: string, title: string, agent: string, skill: Option<string>,
                            parent: string, created: string, updated: string)
    requires PlainText(taskId) && PlainText(title) && PlainText(agent) && PlainText(parent)
    requires PlainText(created) && PlainText(updated)
    requires skill.Some? ==> PlainText(skill.value)
    ensures Writable(InitialMeta(taskId, title, agent, skill, parent, created, updated))
  {
    var r := InitialMeta(taskId, title, agent, skill, parent, created, updated);
    assert Keys(r) == MetaKeys;
    MetaKeysPlain();
    MetaKeysDistinct();
    assert PlainText("backlog") by {
      assert !IsDigit("backlog"[0]);
      assert "backlog" != "null" by { assert |"backlog"| != |"null"|; }
    }
  }

  /**
   * After a successful `create`, `get_meta` gives back the record written:
   * the task id, title, agent and skill as given, status `backlog`, no XP and
   * HEAD of the main checkout as parent commit.
   */
  lemma CreateThenGetMeta(s: Repo, base: string, taskId: string, title: string, agent: string,
                          skill: Option<string>, created: string, updated: string, faults: set<Step>)
    requires Valid(s)
    requires CreateSucceeds(s, base, taskId, title, agent, skill, created, updated, faults)
    requires PlainText(taskId) && PlainText(title) && PlainText(agent) && PlainText(s.head)
    requires PlainText(created) && PlainText(updated)
    requires skill.Some? ==> PlainText(skill.value)
    ensures var o := CreateSpec(s, base, taskId, title, agent, skill, created, updated, faults);
      var meta := GetMetaSpec(o.repo, base, taskId);
      && meta == Ok(InitialMeta(taskId, title, agent, skill, s.head, created, updated))
      && Get(meta.value, "task_id") == Some(Str(taskId))
      && Get(meta.value, "agent") == Some(Str(agent))
      && Get(meta.value, "status") == Some(Str("backlog"))
      && Get(meta.value, "xp_reward") == Some(Int(0))
      && Get(meta.value, "parent_commit") == Some(Str(s.head))
  {
    var r := InitialMeta(taskId, title, agent, skill, s.head, created, updated);
    var o := CreateSpec(s, base, taskId, title, agent, skill, created, updated, faults);
    CreateOutcome(s, base, taskId, title, agent, skill, created, updated, faults);
    assert o.repo.files[WorktreePath(base, taskId)] == Encode(r);
    InitialMetaWritable(taskId, title, agent, skill, s.head, created, updated);
    DecodeEncode(r);
    InitialMetaFields(taskId, title, agent, skill, s.head, created, updated);
  }

  lemma InitialMetaFields(taskId: string, title: string, agent: string, skill: Option<string>,
                          parent: string, created: string, updated: string)
    ensures var r := InitialMeta(taskId, title, agent, skill, parent, created, updated);
      && Get(r, "task_id") == Some(Str(taskId))
      && Get(r, "agent") == Some(Str(agent))
      && Get(r, "status") == Some(Str("backlog"))
      && Get(r, "xp_reward") == Some(Int(0))
      && Get(r, "parent_commit") == Some(Str(parent))
  {
    InitialMetaGetAt(taskId, title, agent, skill, parent, created, updated, 0);
    InitialMetaGetAt(taskId, title, agent, skill, parent, created, updated, 2);
    InitialMetaGetAt(taskId, title, agent, skill, parent, created, updated, 3);
    InitialMetaGetAt(taskId, title, agent, skill, parent, created, updated, 5);
    InitialMetaGetAt(taskId, title, agent, skill, parent, created, updated, 6);
  }

  lemma InitialMetaGetAt(taskId: string, title: string, agent: string, skill: Option<string>,
                         parent: string, created: string, updated: string, i: nat)
    requires i < |MetaKeys|
    ensures var r := InitialMeta(taskId, title, agent, skill, parent, created, updated);
      Get(r, r[i].key) == Some(r[i].value)
  {
    InitialMetaDistinct(taskId, title, agent, skill, parent, created, updated);
    GetAt(InitialMeta(taskId, title, agent, skill, parent, created, updated), i);
  }

  lemma InitialMetaDistinct(taskId: string, title: string, agent: string, skill: Option<string>,
                            parent: string, created: string, updated: string)
    ensures Distinct(InitialMeta(taskId, title, agent, skill, parent, created, updated))
  {
    var r := InitialMeta(taskId, title, agent, skill, parent, created, updated);
    assert Keys(r) == MetaKeys;
    MetaKeysDistinct();
    forall i, j | 0 <= i < j < |r| ensures r[i].key != r[j].key {
      assert Keys(r)[i] == r[i].key && Keys(r)[j] == r[j].key;
    }
  }

  // ---------------------------------------------------------------------
  // update_meta

  /**
   * The merged record: `updated_at` is the clock value even when `updates`
   * holds it, a key of `updates` takes its value from there, and every other
   * key keeps its old value.
   */
  lemma MergeGet(meta: Record, updates: Record, now: string, k: string)
    requires Distinct(updates)
    ensures Get(Merge(meta, updates, now), k) ==
      if k == "updated_at" then Some(Str(now))
      else if k in Keys(updates) then Get(updates, k)
      else Get(meta, k)
  {
    GetSet(Update(meta, updates), "updated_at", Str(now), k);
    GetUpdate(meta, updates, k);
  }

  /** The text `update_meta` writes. */
  function MergedText(s: Repo, d: string, updates: Record, now: string): string
    requires d in s.files
  {
    Encode(Merge(Decode(s.files[d]), updates, now))
  }

  /** The git commands `update_meta` issues after writing META.yml. */
  function UpdateCalls(d: string, updates: Record, commit: bool, staged: bool): seq<GitCall>
  {
    if !commit then []
    else [GitIn(d, ["add", "META.yml"])] + if staged then [GitIn(d, ["commit", "-m", UpdateMessage(updates)])] else []
  }

  /**
   * What `update_meta` changes: only META.yml of the task's worktree and,
   * with `commit`, its branch tip. A missing META.yml is a file error (not
   * `WorkspaceNotFoundError`) and changes nothing; without `commit` no git
   * command is issued.
   */
  lemma UpdateMetaOutcome(s: Repo, base: string, taskId: string, updates: Record, commit: bool,
                          now: string, faults: set<Step>)
    requires Valid(s)
    ensures var o := UpdateMetaSpec(s, base, taskId, updates, commit, now, faults);
      var d := WorktreePath(base, taskId);
      && o.repo.branches == s.branches && o.repo.worktrees == s.worktrees
      && o.repo.envCopies == s.envCopies && o.repo.head == s.head
      && (o.result == Err(FileFailed) <==> d !in s.files || WriteMeta in faults)
      && (d !in s.files || WriteMeta in faults ==> o.repo == s)
      && (d in s.files && WriteMeta !in faults ==>
            && o.repo.files == s.files[d := MergedText(s, d, updates, now)]
            && o.repo.log == s.log + UpdateCalls(d, updates, commit, StageMeta !in faults)
            && (!commit ==> o.result == Ok(()))
            && (commit ==>
                  (o.result.Ok? <==>
                     && StageMeta !in faults && CommitMeta !in faults
                     && TipOf(s, s.worktrees[d]) != Some(MergedText(s, d, updates, now))))
            && (commit && o.result.Ok? ==>
                  o.repo.tips == s.tips[s.worktrees[d] := MergedText(s, d, updates, now)])
            && (!commit || o.result.Err? ==> o.repo.tips == s.tips))
  {
    var d := WorktreePath(base, taskId);
    if d in s.files && WriteMeta !in faults {
      UpdateMetaWritten(s, base, taskId, updates, commit, now, faults);
    }
  }

  /** `update_meta` once META.yml is read and written: the commit steps. */
  lemma UpdateMetaWritten(s: Repo, base: string, taskId: string, updates: Record, commit: bool,
                          now: string, faults: set<Step>)
    requires Valid(s)
    requires WorktreePath(base, taskId) in s.files && WriteMeta !in faults
    ensures var o := UpdateMetaSpec(s, base, taskId, updates, commit, now, faults);
      var d := WorktreePath(base, taskId);
      var text := MergedText(s, d, updates, now);
      && o.repo.branches == s.branches && o.repo.worktrees == s.worktrees
      && o.repo.envCopies == s.envCopies && o.repo.head == s.head
      && o.result != Err(FileFailed)
      && o.repo.files == s.files[d := text]
      && o.repo.log == s.log + UpdateCalls(d, updates, commit, StageMeta !in faults)
      && (!commit ==> o.result == Ok(()))
      && (commit ==>
            (o.result.Ok? <==>
               && StageMeta !in faults && CommitMeta !in faults
               && TipOf(s, s.worktrees[d]) != Some(text)))
      && (commit && o.result.Ok? ==> o.repo.tips == s.tips[s.worktrees[d] := text])
      && (!commit || o.result.Err? ==> o.repo.tips == s.tips)
  {
    var d := WorktreePath(base, taskId);
    var text := MergedText(s, d, updates, now);
    var s1 := s.(files := s.files[d := text]);
    var o := UpdateMetaSpec(s, base, taskId, updates, commit, now, faults);
    assert d in s.worktrees;
    if !commit {
      assert o == Outcome(s1, Ok(()));
    } else {
      var r2 := GitStage(s1, d, StageMeta in faults);
      assert r2.repo == s1.(log := s.log + [GitIn(d, ["add", "META.yml"])]);
      if !r2.ok {
        assert StageMeta in faults;
        assert o == Outcome(r2.repo, Err(GitFailed));
      } else {
        var msg := UpdateMessage(updates);
        var r3 := GitCommit(r2.repo, d, msg, CommitMeta in faults);
        assert Dirty(r2.repo, d) <==> TipOf(s, s.worktrees[d]) != Some(text);
        assert r3.repo.log == s.log + UpdateCalls(d, updates, commit, true);
        if r3.ok {
          assert o == Outcome(r3.repo, Ok(()));
        } else {
          assert o == Outcome(r3.repo, Err(GitFailed));
        }
      }
    }
  }

  /**
   * Once META.yml is written, `get_meta` gives the merged record, whether or
   * not the commit that follows succeeds.
   */
  lemma UpdateThenGet(s: Repo, base: string, taskId: string, updates: Record, commit: bool,
                      now: string, faults: set<Step>)
    requires WorktreePath(base, taskId) in s.files && WriteMeta !in faults
    requires Writable(updates) && PlainText(now)
    ensures var o := UpdateMetaSpec(s, base, taskId, updates, commit, now, faults);
      var d := WorktreePath(base, taskId);
      GetMetaSpec(o.repo, base, taskId) == Ok(Merge(Decode(s.files[d]), updates, now))
  {
    var d := WorktreePath(base, taskId);
    var merged := Merge(Decode(s.files[d]), updates, now);
    UpdateWritesMerged(s, base, taskId, updates, commit, now, faults);
    DecodeWritable(s.files[d]);
    MergeWritable(Decode(s.files[d]), updates, now);
    DecodeEncode(merged);
  }

  lemma UpdateWritesMerged(s: Repo, base: string, taskId: string, updates: Record, commit: bool,
                           now: string, faults: set<Step>)
    requires WorktreePath(base, taskId) in s.files && WriteMeta !in faults
    ensures var o := UpdateMetaSpec(s, base, taskId, updates, commit, now, faults);
      var d := WorktreePath(base, taskId);
      d in o.repo.files && o.repo.files[d] == MergedText(s, d, updates, now)
  {
    var d := WorktreePath(base, taskId);
    var s1 := s.(files := s.files[d := MergedText(s, d, updates, now)]);
    var o := UpdateMetaSpec(s, base, taskId, updates, commit, now, faults);
    assert o == if !commit then Outcome(s1, Ok(())) else CommitUpdate(s1, d, UpdateMessage(updates), faults);
  }

  /** Merging writable updates and a plain time stamp keeps a record writable. */
  lemma MergeWritable(meta: Record, updates: Record, now: string)
    requires Writable(meta) && Writable(updates) && PlainText(now)
    ensures Writable(Merge(meta, updates, now))
  {
    UpdateWritable(meta, updates);
    UpdatedAtPlain();
    SetWritable(Update(meta, updates), "updated_at", Str(now));
  }

  lemma UpdatedAtPlain()
    ensures PlainKey("updated_at")
  {
    assert WordKey("updated_at");
    WordKeyPlain("updated_at");
  }

  /** The updates the board sends when a task moves to `in_progress` with 100 XP. */
  const StatusXpUpdates: Record := [Entry("status", Str("in_progress")), Entry("xp_reward", Int(100))]

  lemma StatusXpWritable()
    ensures Writable(StatusXpUpdates)
  {
    assert WordKey("status") && WordKey("xp_reward");
    WordKeyPlain("status");
    WordKeyPlain("xp_reward");
    assert !IsDigit("in_progress"[0]);
    assert "in_progress" != "null" by { assert |"in_progress"| != |"null"|; }
    assert "status" != "xp_reward" by { assert |"status"| != |"xp_reward"|; }
  }

  lemma StatusXpMerge(meta: Record, now: string)
    ensures Get(Merge(meta, StatusXpUpdates, now), "status") == Some(Str("in_progress"))
    ensures Get(Merge(meta, StatusXpUpdates, now), "xp_reward") == Some(Int(100))
  {
    var u := StatusXpUpdates;
    assert Keys(u) == ["status", "xp_reward"];
    assert "status" != "xp_reward" by { assert |"status"| != |"xp_reward"|; }
    assert "status" != "updated_at" by { assert |"status"| != |"updated_at"|; }
    assert "xp_reward" != "updated_at" by { assert "xp_reward"[0] != "updated_at"[0]; }
    MergeGet(meta, u, now, "status");
    MergeGet(meta, u, now, "xp_reward");
    GetAt(u, 0);
    GetAt(u, 1);
  }

  /** `status` and `xp_reward` read back as the board set them. */
  lemma UpdateStatusAndXp(s: Repo, base: string, taskId: string, commit: bool, now: string, faults: set<Step>)
    requires WorktreePath(base, taskId) in s.files && WriteMeta !in faults && PlainText(now)
    ensures var o := UpdateMetaSpec(s, base, taskId, StatusXpUpdates, commit, now, faults);
      var meta := GetMetaSpec(o.repo, base, taskId);
      && meta.Ok?
      && Get(meta.value, "status") == Some(Str("in_progress"))
      && Get(meta.value, "xp_reward") == Some(Int(100))
  {
    StatusXpWritable();
    UpdateThenGet(s, base, taskId, StatusXpUpdates, commit, now, faults);
    StatusXpMerge(Decode(s.files[WorktreePath(base, taskId)]), now);
  }

  // ---------------------------------------------------------------------
  // remove

  /**
   * `remove` succeeds exactly when the worktree exists, is clean or `force`
   * is given, the branch exists and is checked out nowhere else, and neither
   * command fails; it then drops the worktree, its files and the branch.
   */
  lemma RemoveOutcome(s: Repo, base: string, taskId: string, force: bool, faults: set<Step>)
    requires Valid(s)
    ensures var o := RemoveSpec(s, base, taskId, force, faults);
      var b, d := BranchName(taskId), WorktreePath(base, taskId);
      && (o.result.Ok? <==>
            && d in s.worktrees && (force || !Dirty(s, d))
            && b in s.branches && (s.worktrees[d] == b || b !in s.worktrees.Values)
            && RemoveWorktree !in faults && DeleteBranch !in faults)
      && (o.result.Ok? ==>
            o.repo == s.(branches := s.branches - {b}, tips := s.tips - {b},
                         worktrees := s.worktrees - {d}, files := s.files - {d},
                         envCopies := s.envCopies - {d},
                         log := s.log + [Git(RemoveCommand(d, force)), Git(["branch", "-D", b])]))
  {
    var b, d := BranchName(taskId), WorktreePath(base, taskId);
    var r1 := GitWorktreeRemove(s, d, force, RemoveWorktree in faults);
    if r1.ok {
      ValuesWithout(s.worktrees, d, b);
    }
  }

  /** In a map without repeated values, a value remains after removing key `d` exactly when `d` did not hold it. */
  lemma ValuesWithout(w: map<string, string>, d: string, b: string)
    requires d in w
    requires forall d1, d2 :: d1 in w && d2 in w && d1 != d2 ==> w[d1] != w[d2]
    ensures b in (w - {d}).Values <==> w[d] != b && b in w.Values
  {
    var w' := w - {d};
    if b in w'.Values {
      var d' :| d' in w' && w'[d'] == b;
      assert w[d'] == b && d' != d;
    }
    if w[d] != b && b in w.Values {
      var d' :| d' in w && w[d'] == b;
      assert d' in w';
    }
  }

  /** When the worktree cannot be removed, the branch stays and `branch -D` is not run. */
  lemma RemoveKeepsBranch(s: Repo, base: string, taskId: string, force: bool, faults: set<Step>)
    ensures var o := RemoveSpec(s, base, taskId, force, faults);
      var d := WorktreePath(base, taskId);
      !GitWorktreeRemove(s, d, force, RemoveWorktree in faults).ok ==>
        && o.result == Err(WorkspaceRemoval)
        && o.repo == s.(log := s.log + [Git(RemoveCommand(d, force))])
  {
  }

  /** Removing a workspace that was already removed fails. */
  lemma RemoveTwice(s: Repo, base: string, taskId: string, force: bool, faults: set<Step>,
                    force': bool, faults': set<Step>)
    requires Valid(s)
    requires RemoveSpec(s, base, taskId, force, faults).result.Ok?
    ensures var s1 := RemoveSpec(s, base, taskId, force, faults).repo;
      RemoveSpec(s1, base, taskId, force', faults').result == Err(WorkspaceRemoval)
  {
    RemoveOutcome(s, base, taskId, force, faults);
  }

  /** After a successful `remove`, `get_meta` raises `WorkspaceNotFoundError`. */
  lemma RemoveThenGetMeta(s: Repo, base: string, taskId: string, force: bool, faults: set<Step>)
    requires Valid(s)
    requires RemoveSpec(s, base, taskId, force, faults).result.Ok?
    ensures var s1 := RemoveSpec(s, base, taskId, force, faults).repo;
      GetMetaSpec(s1, base, taskId) == Err(WorkspaceNotFound)
  {
    RemoveOutcome(s, base, taskId, force, faults);
  }

  // ---------------------------------------------------------------------
  // list_workspaces

  /** The loop of `list_workspaces` takes one branch line at a time. */
  lemma ListLinesStep(s: Repo, lines: seq<string>, i: nat, showFaults: set<string>)
    requires i < |lines|
    ensures ListLines(s, lines[..i + 1], showFaults) ==
      ListLines(s, lines[..i], showFaults) +
      if lines[i] in s.tips && lines[i] !in showFaults then [Listed(s, lines[i])] else []
  {
    assert lines[..i + 1][..i] == lines[..i];
  }

  /** Listing keeps the order of the branch lines: the listing of a concatenation is the concatenation. */
  lemma {:induction false} ListLinesAppend(s: Repo, l1: seq<string>, l2: seq<string>, showFaults: set<string>)
    ensures ListLines(s, l1 + l2, showFaults) == ListLines(s, l1, showFaults) + ListLines(s, l2, showFaults)
    decreases |l2|
  {
    if l2 == [] {
      assert l1 + l2 == l1;
    } else {
      var l, n := l1 + l2, |l2| - 1;
      var b := l2[n];
      assert l[..|l| - 1] == l1 + l2[..n];
      assert l[|l| - 1] == b;
      ListLinesAppend(s, l1, l2[..n], showFaults);
      var front, rest := ListLines(s, l1, showFaults), ListLines(s, l2[..n], showFaults);
      assert ListLines(s, l1 + l2[..n], showFaults) == front + rest;
      if b in s.tips && b !in showFaults {
        assert ListLines(s, l2, showFaults) == rest + [Listed(s, b)];
        assert ListLines(s, l, showFaults) == (front + rest) + [Listed(s, b)];
      } else {
        assert ListLines(s, l2, showFaults) == rest;
        assert ListLines(s, l, showFaults) == front + rest;
      }
    }
  }

  /** A branch whose META.yml can be shown is listed. */
  lemma {:induction false} ListedWhenShown(s: Repo, lines: seq<string>, showFaults: set<string>, b: string)
    requires b in lines && b in s.tips && b !in showFaults
    ensures Listed(s, b) in ListLines(s, lines, showFaults)
    decreases |lines|
  {
    var n := |lines| - 1;
    if lines[n] != b {
      assert b in lines[..n] by {
        var j :| 0 <= j < |lines| && lines[j] == b;
        assert lines[..n][j] == b;
      }
      ListedWhenShown(s, lines[..n], showFaults, b);
    }
  }

  /**
   * Every listed record comes from a branch line whose META.yml can be
   * shown, and there are at most as many records as lines.
   */
  lemma {:induction false} ListedFromLines(s: Repo, lines: seq<string>, showFaults: set<string>)
    ensures |ListLines(s, lines, showFaults)| <= |lines|
    ensures forall r :: r in ListLines(s, lines, showFaults) ==>
      exists b :: b in lines && b in s.tips && b !in showFaults && r == Listed(s, b)
    decreases |lines|
  {
    if lines != [] {
      var n := |lines| - 1;
      ListedFromLines(s, lines[..n], showFaults);
      forall r | r in ListLines(s, lines, showFaults)
        ensures exists b :: b in lines && b in s.tips && b !in showFaults && r == Listed(s, b)
      {
        if r in ListLines(s, lines[..n], showFaults) {
          var b :| b in lines[..n] && b in s.tips && b !in showFaults && r == Listed(s, b);
          assert b in lines;
        } else {
          assert lines[n] in lines;
        }
      }
    }
  }

  /** Each listed record names its branch, and keeps every other field of the branch's META.yml. */
  lemma ListedGet(s: Repo, b: string, k: string)
    requires b in s.tips
    ensures Get(Listed(s, b), k) == if k == "branch" then Some(Str(b)) else Get(Decode(s.tips[b]), k)
  {
    GetSet(Decode(s.tips[b]), "branch", Str(b), k);
  }

  /**
   * A branch the `for-each-ref` pattern `refs/heads/feat/` + `*` names: `feat/` and one more
   * path component, since git's `*` does not match across `/`.
   */
  predicate FeatBranch(b: string)
  {
    |b| > 5 && b[..5] == "feat/" && '/' !in b[5..]
  }

  /** `names` is the `for-each-ref` enumeration of `s`: every feature branch, each once. */
  predicate Enumerates(s: Repo, names: seq<string>)
  {
    && (forall i, j :: 0 <= i < j < |names| ==> names[i] != names[j])
    && (forall i :: 0 <= i < |names| ==> names[i] in s.branches && FeatBranch(names[i]))
    && (forall b :: b in s.branches && FeatBranch(b) ==> b in names)
  }

  /** A task's branch is enumerated exactly when its id is one non-empty path component. */
  lemma FeatBranchName(taskId: string)
    ensures FeatBranch(BranchName(taskId)) <==> taskId != [] && '/' !in taskId
  {
    assert BranchName(taskId)[..5] == "feat/";
    assert BranchName(taskId)[5..] == taskId;
  }

  /**
   * Every record in the listing of a repository names, in its `branch` field,
   * a feature branch of that repository whose META.yml could be shown.
   */
  lemma ListedBranches(s: Repo, names: seq<string>, showFaults: set<string>, r: Record)
    requires forall i :: 0 <= i < |names| ==> PlainLine(names[i])
    requires Enumerates(s, names)
    requires r in ListSpec(s, Some(Join(names, "\n")), showFaults)
    ensures exists b :: b in s.branches && FeatBranch(b) && b !in showFaults && Get(r, "branch") == Some(Str(b))
  {
    SplitJoinStripped(names);
    ListedFromLines(s, names, showFaults);
    var b :| b in names && b in s.tips && b !in showFaults && r == Listed(s, b);
    ListedGet(s, b, "branch");
    var i :| 0 <= i < |names| && names[i] == b;
    assert b in s.branches && FeatBranch(b);
  }

  /**
   * After a successful `create`, the listing of the new repository holds a
   * record with the task's id when the id is one path component, and none
   * for the task's branch when the id holds a `/`.
   */
  lemma ListAfterCreate(s: Repo, base: string, taskId: string, title: string, agent: string,
                        skill: Option<string>, created: string, updated: string, faults: set<Step>,
                        names: seq<string>, showFaults: set<string>)
    requires Valid(s)
    requires CreateSucceeds(s, base, taskId, title, agent, skill, created, updated, faults)
    requires PlainText(taskId) && PlainText(title) && PlainText(agent) && PlainText(s.head)
    requires PlainText(created) && PlainText(updated)
    requires skill.Some? ==> PlainText(skill.value)
    requires forall i :: 0 <= i < |names| ==> PlainLine(names[i])
    requires Enumerates(CreateSpec(s, base, taskId, title, agent, skill, created, updated, faults).repo, names)
    requires BranchName(taskId) !in showFaults
    ensures var o := CreateSpec(s, base, taskId, title, agent, skill, created, updated, faults);
      taskId != [] && '/' !in taskId ==>
        exists r :: r in ListSpec(o.repo, Some(Join(names, "\n")), showFaults) &&
          Get(r, "task_id") == Some(Str(taskId))
    ensures var o := CreateSpec(s, base, taskId, title, agent, skill, created, updated, faults);
      '/' in taskId ==>
        forall r :: r in ListSpec(o.repo, Some(Join(names, "\n")), showFaults) ==>
          Get(r, "branch") != Some(Str(BranchName(taskId)))
  {
    var b := BranchName(taskId);
    var o := CreateSpec(s, base, taskId, title, agent, skill, created, updated, faults);
    FeatBranchName(taskId);
    if taskId != [] && '/' !in taskId {
      var meta := InitialMeta(taskId, title, agent, skill, s.head, created, updated);
      CreateOutcome(s, base, taskId, title, agent, skill, created, updated, faults);
      assert b in o.repo.tips && o.repo.tips[b] == Encode(meta);
      assert b in o.repo.branches;
      ListedWhenJoined(o.repo, names, showFaults, b);
      InitialMetaWritable(taskId, title, agent, skill, s.head, created, updated);
      InitialMetaFields(taskId, title, agent, skill, s.head, created, updated);
      ListedWritten(o.repo, b, meta, "task_id");
      assert "task_id" != "branch" by { assert "task_id"[0] != "branch"[0]; }
    }
    if '/' in taskId {
      forall r | r in ListSpec(o.repo, Some(Join(names, "\n")), showFaults)
        ensures Get(r, "branch") != Some(Str(b))
      {
        ListedBranches(o.repo, names, showFaults, r);
      }
    }
  }

  /** After a successful `remove`, the listing of the new repository holds no record for the task's branch. */
  lemma ListAfterRemove(s: Repo, base: string, taskId: string, force: bool, faults: set<Step>,
                        names: seq<string>, showFaults: set<string>)
    requires Valid(s)
    requires RemoveSpec(s, base, taskId, force, faults).result.Ok?
    requires forall i :: 0 <= i < |names| ==> PlainLine(names[i])
    requires Enumerates(RemoveSpec(s, base, taskId, force, faults).repo, names)
    ensures var o := RemoveSpec(s, base, taskId, force, faults);
      forall r :: r in ListSpec(o.repo, Some(Join(names, "\n")), showFaults) ==>
        Get(r, "branch") != Some(Str(BranchName(taskId)))
  {
    var o := RemoveSpec(s, base, taskId, force, faults);
    RemoveOutcome(s, base, taskId, force, faults);
    assert BranchName(taskId) !in o.repo.branches;
    forall r | r in ListSpec(o.repo, Some(Join(names, "\n")), showFaults)
      ensures Get(r, "branch") != Some(Str(BranchName(taskId)))
    {
      ListedBranches(o.repo, names, showFaults, r);
    }
  }

  /** The listing of a `for-each-ref` output made of plain lines holds every branch that can be shown. */
  lemma ListedWhenJoined(s: Repo, names: seq<string>, showFaults: set<string>, b: string)
    requires forall i :: 0 <= i < |names| ==> PlainLine(names[i])
    requires b in names && b in s.tips && b !in showFaults
    ensures Listed(s, b) in ListSpec(s, Some(Join(names, "\n")), showFaults)
  {
    SplitJoinStripped(names);
    ListedWhenShown(s, names, showFaults, b);
  }

  /** The record listed for a branch whose META.yml was written from a writable record. */
  lemma ListedWritten(s: Repo, b: string, meta: Record, k: string)
    requires b in s.tips && s.tips[b] == Encode(meta) && Writable(meta)
    ensures Get(Listed(s, b), k) == if k == "branch" then Some(Str(b)) else Get(meta, k)
  {
    DecodeEncode(meta);
    ListedGet(s, b, k);
  }
}
