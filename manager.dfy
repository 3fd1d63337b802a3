/**
 * The class `WorkspaceManager`: the repository state as fields, updated in
 * place by the same steps `create`, `remove` and `update_meta` take, each
 * method proved to end in the state (and with the result) the functions of
 * module `Workspaces` give. Git itself is the functions `GitBranch`,
 * `GitWorktreeAdd`, ... of that module; `RunGit` applies one of them to the
 * fields. META.yml is written and read with the fallback writer and parser.
 */
module Manager {
  import opened Wrappers
  import opened Dicts
  import opened Codec
  import opened Workspaces

  class WorkspaceManager {
    const base: string

    var branches: set<string>
    var worktrees: map<string, string>
    var files: map<string, string>
    var tips: map<string, string>
    var head: string
    var envTemplate: bool
    var envCopies: set<string>
    var log: seq<GitCall>

    /** The repository these fields hold. */
    function State(): Repo
      reads this
    {
      Repo(branches, worktrees, files, tips, head, envTemplate, envCopies, log)
    }

    predicate Valid()
      reads this
    {
      Workspaces.Valid(State())
    }

    /** A manager over an existing repository, with worktrees under `base`. */
    constructor (base: string, repo: Repo)
      requires Workspaces.Valid(repo)
      ensures this.base == base && State() == repo && Valid()
    {
      this.base := base;
      branches, worktrees, files, tips := repo.branches, repo.worktrees, repo.files, repo.tips;
      head, envTemplate, envCopies, log := repo.head, repo.envTemplate, repo.envCopies, repo.log;
    }

    /** Issues one git command: the repository becomes what the command leaves. */
    method RunGit(r: Run) returns (ok: bool)
      modifies this
      ensures State() == r.repo && ok == r.ok
    {
      branches, worktrees, files, tips := r.repo.branches, r.repo.worktrees, r.repo.files, r.repo.tips;
      head, envTemplate, envCopies, log := r.repo.head, r.repo.envTemplate, r.repo.envCopies, r.repo.log;
      ok := r.ok;
    }

    /** `_get_main_branch`. */
    method GetMainBranch(faults: set<Step>) returns (m: string)
      ensures m == MainBranch(State(), faults)
    {
      if "main" in branches && ProbeMain !in faults {
        m := "main";
      } else {
        m := "master";
      }
    }

    /** `_cleanup_failed_workspace`: its own failures are ignored. */
    method CleanupFailedWorkspace(taskId: string, worktree: string, faults: set<Step>)
      requires worktree == WorktreePath(base, taskId)
      modifies this
      ensures State() == Cleanup(old(State()), base, taskId, faults)
    {
      if worktree in worktrees {
        var _ := RunGit(GitWorktreeRemove(State(), worktree, true, RemoveWorktree in faults));
      }
      var _ := RunGit(GitBranchDelete(State(), BranchName(taskId), DeleteBranch in faults));
    }

    /** `create`. */
    method Create(taskId: string, title: string, agent: string, skill: Option<string>,
                  created: string, updated: string, faults: set<Step>)
      returns (result: Result<string, Failure>)
      requires Valid()
      modifies this
      ensures Valid()
      ensures Outcome(State(), result) ==
        CreateSpec(old(State()), base, taskId, title, agent, skill, created, updated, faults)
    {
      var branch := BranchName(taskId);
      var worktree := WorktreePath(base, taskId);
      if worktree in worktrees {
        return Err(WorkspaceExists);
      }
      var mainBranch := GetMainBranch(faults);
      var ok := RunGit(GitBranch(State(), branch, mainBranch, NewBranch in faults));
      if !ok {
        CleanupFailedWorkspace(taskId, worktree, faults);
        return Err(WorkspaceCreation);
      }
      ok := RunGit(GitWorktreeAdd(State(), worktree, branch, AddWorktree in faults));
      if !ok {
        CleanupFailedWorkspace(taskId, worktree, faults);
        return Err(WorkspaceCreation);
      }
      result := Populate(taskId, title, agent, skill, created, updated, faults);
    }

    /** The steps of `create` once the worktree exists. */
    method Populate(taskId: string, title: string, agent: string, skill: Option<string>,
                    created: string, updated: string, faults: set<Step>)
      returns (result: Result<string, Failure>)
      requires WorktreePath(base, taskId) in worktrees
      modifies this
      ensures Outcome(State(), result) ==
        Workspaces.Populate(old(State()), base, taskId, title, agent, skill, created, updated, faults)
    {
      var worktree := WorktreePath(base, taskId);
      if envTemplate {
        if CopyEnv in faults {
          return Err(FileFailed);
        }
        envCopies := envCopies + {worktree};
      }
      if ReadHead in faults {
        CleanupFailedWorkspace(taskId, worktree, faults);
        return Err(WorkspaceCreation);
      }
      var meta := InitialMeta(taskId, title, agent, skill, head, created, updated);
      if WriteMeta in faults {
        return Err(FileFailed);
      }
      var text := WriteYaml(meta);
      files := files[worktree := text];
      var ok := RunGit(GitStage(State(), worktree, StageMeta in faults));
      if !ok {
        CleanupFailedWorkspace(taskId, worktree, faults);
        return Err(WorkspaceCreation);
      }
      ok := RunGit(GitCommit(State(), worktree, "init: " + title, CommitMeta in faults));
      if !ok {
        CleanupFailedWorkspace(taskId, worktree, faults);
        return Err(WorkspaceCreation);
      }
      return Ok(worktree);
    }

    /** `remove`. */
    method Remove(taskId: string, force: bool, faults: set<Step>) returns (result: Result<(), Failure>)
      requires Valid()
      modifies this
      ensures Valid()
      ensures Outcome(State(), result) == RemoveSpec(old(State()), base, taskId, force, faults)
    {
      var branch := BranchName(taskId);
      var worktree := WorktreePath(base, taskId);
      var ok := RunGit(GitWorktreeRemove(State(), worktree, force, RemoveWorktree in faults));
      if !ok {
        return Err(WorkspaceRemoval);
      }
      ok := RunGit(GitBranchDelete(State(), branch, DeleteBranch in faults));
      if !ok {
        return Err(WorkspaceRemoval);
      }
      return Ok(());
    }

    /** `get_meta`. */
    method GetMeta(taskId: string) returns (result: Result<Record, Failure>)
      ensures result == GetMetaSpec(State(), base, taskId)
    {
      var worktree := WorktreePath(base, taskId);
      if worktree !in files {
        return Err(WorkspaceNotFound);
      }
      var meta := ParseYaml(files[worktree]);
      return Ok(meta);
    }

    /** `update_meta`. */
    method UpdateMeta(taskId: string, updates: Record, commit: bool, now: string, faults: set<Step>)
      returns (result: Result<(), Failure>)
      requires Valid()
      modifies this
      ensures Valid()
      ensures Outcome(State(), result) ==
        UpdateMetaSpec(old(State()), base, taskId, updates, commit, now, faults)
    {
      var worktree := WorktreePath(base, taskId);
      if worktree !in files {
        return Err(FileFailed);
      }
      var meta := ParseYaml(files[worktree]);
      meta := Update(meta, updates);
      meta := Set(meta, "updated_at", Str(now));
      if WriteMeta in faults {
        return Err(FileFailed);
      }
      var text := WriteYaml(meta);
      files := files[worktree := text];
      if commit {
        result := CommitUpdate(worktree, UpdateMessage(updates), faults);
      } else {
        result := Ok(());
      }
    }

    /** The `commit=True` tail of `update_meta`: `git add`, then `git commit`. */
    method CommitUpdate(worktree: string, msg: string, faults: set<Step>) returns (result: Result<(), Failure>)
      modifies this
      ensures Outcome(State(), result) == Workspaces.CommitUpdate(old(State()), worktree, msg, faults)
    {
      var ok := RunGit(GitStage(State(), worktree, StageMeta in faults));
      if !ok {
        return Err(GitFailed);
      }
      ok := RunGit(GitCommit(State(), worktree, msg, CommitMeta in faults));
      if !ok {
        return Err(GitFailed);
      }
      return Ok(());
    }

    /**
     * `list_workspaces`, given the output of `git for-each-ref` (`None` when
     * it fails) and the branches whose `git show` fails.
     */
    method ListWorkspaces(refs: Option<string>, showFaults: set<string>) returns (result: seq<Record>)
      ensures result == ListSpec(State(), refs, showFaults)
    {
      result := [];
      if refs.None? {
        return;
      }
      var output := Strip(refs.value);
      if output == [] {
        return;
      }
      var lines := SplitLines(output);
      var i := 0;
      while i < |lines|
        invariant 0 <= i <= |lines|
        invariant result == ListLines(State(), lines[..i], showFaults)
      {
        var branch := lines[i];
        ListLinesStep(State(), lines, i, showFaults);
        if branch in tips && branch !in showFaults {
          var meta := ParseYaml(tips[branch]);
          meta := Set(meta, "branch", Str(branch));
          result := result + [meta];
        }
        i := i + 1;
      }
      assert lines[..|lines|] == lines;
    }
  }
}
