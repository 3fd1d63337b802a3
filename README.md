# Git-worktree workspace manager and Kanban board, in Dafny

This project models the core of a task board. It keeps one git workspace per task:

- a branch `feat/<task id>`;
- a worktree directory holding that branch, named `<base>/feat-<task id>` with `/` replaced by `-`;
- a copy of `.env`;
- a `META.yml` record committed on the branch.

The model covers two parts:

- `WorkspaceManager`, which creates, removes, reads, updates and lists workspaces;
- the board API over it. The API holds the status whitelist, the columns, the task responses with their defaults, the mapping of manager errors to HTTP status codes, and the board statistics.

The files:

- `wrappers.dfy`: `Option` and `Result`.
- `dicts.dfy`: Python's insertion-ordered `dict` as a sequence of entries.
  - `d[k] = v` keeps the position of an existing key and appends a new one.
  - `update` assigns the entries of its argument in order.
  - `get` returns an optional value.
- `codec.dfy`: the fallback META.yml writer and parser (`_write_yaml`, `_parse_yaml` without PyYAML).
  - It includes Python's `strip`, `splitlines`, `isdigit` and `str(int)` as far as the parser uses them.
  - `WriteYaml` and `ParseYaml` are the loops of the source. They are proved to compute `Encode` and `Decode`.
  - The round trip `Decode(Encode(r)) == r` is proved for every *writable* record:
    - keys are distinct and plain;
    - strings are one line, do not start or end with `"`, and are neither `null` nor all digits;
    - ints are not negative.
  - The parser always returns a writable record.
  - Lemmas show what goes wrong outside that class: a digit string comes back as an int, and a negative int comes back as a string.
- `workspaces.dfy`: the repository as a value (`Repo`).
  - It holds:
    - the branches;
    - the worktrees and the branch each has checked out;
    - the META.yml text in each worktree and at each branch tip;
    - HEAD;
    - whether `.env` exists and which worktrees hold a copy;
    - the log of git commands issued.
  - Each git command is a function that may fail, either for git's own reasons or because a failure oracle (`faults`) says so.
  - `create`, `remove`, `get_meta`, `update_meta`, `list_workspaces`, `_get_main_branch` and `_cleanup_failed_workspace` are functions over `Repo`. Their exact outcomes are proved as lemmas, including:
    - which error `create` raises for which failing step: a failed `.env` copy or META.yml write escapes as a file error without cleanup, and every other failure of a new task is `WorkspaceCreationError`;
    - the rollback after `WorkspaceCreationError`;
    - create-then-read and update-then-read;
    - remove-twice;
    - listing after create and after remove, for a listing that enumerates the repository.
- `manager.dfy`: the class `WorkspaceManager`.
  - It holds the repository in mutable fields.
  - Its methods run the same steps in place.
  - Each method is proved to end in the state and with the result the functions of `Workspaces` give.
- `board.dfy`: the endpoints of `api/board.py` as functions from a repository to the repository after the call and the reply. The statistics loop is a method proved against the counting functions `Tally` and `SumXp`.

Points where the code's behaviour is easy to misread:

- `update_task_status` has a `WorkspaceNotFoundError` handler that answers 404 (`api/board.py:174-175`). `update_meta` never raises that error: it reads META.yml without checking that it exists, so a missing task surfaces as an `OSError` and the reply is 500 (`Board.UpdateMissingTask`).
- `create` reads the clock twice (`services/workspace_manager.py:104-105`), so `created_at` and `updated_at` are two separate inputs.
- `list_workspaces` asks `for-each-ref` for `refs/heads/feat/*`, and git's `*` does not match across `/`. A task whose id holds a `/` gets its branch and worktree but never appears in the listing (`Workspaces.ListAfterCreate`), although the worktree path at `services/workspace_manager.py:75` is built to handle such ids.
- A docstring says worktrees live in `./worktrees/feat/<id>`. The code replaces `/` by `-` (`services/workspace_manager.py:75`).

## Model

| member | source | states |
|---|---|---|
| Dicts.GetSet | services/workspace_manager.py:313 | after `result[k] = v`, reading `k` gives `v` and every other key gives what it gave before |
| Dicts.SetKeys | services/workspace_manager.py:313 | assigning a key appends it when new and keeps the key order when present; keys stay distinct |
| Dicts.GetUpdate | services/workspace_manager.py:184 | after `meta.update(u)` a key of `u` reads `u`'s value and any other key reads its old value |
| Dicts.UpdateKeys | services/workspace_manager.py:184 | after `update` the keys are the old keys and those of `u`, still distinct |
| Dicts.TotalSet | api/board.py:233-234 | assigning one counter changes the sum of the counters by the difference |
| Codec.Trim | services/workspace_manager.py:305-308 | `strip`: the result is no longer than the input, has no stripped character at either end, and holds no character class the input lacks |
| Codec.TrimLeftCuts | services/workspace_manager.py:305-308 | everything `lstrip` cuts off is a stripped character |
| Codec.TrimRightCuts | services/workspace_manager.py:305-308 | everything `rstrip` cuts off is a stripped character |
| Codec.TrimCuts | services/workspace_manager.py:305-308 | `strip` keeps one slice of the input and everything it cuts off, on either side, is a stripped character |
| Codec.SplitLines | services/workspace_manager.py:305 | `splitlines`: no line in the result holds a line break; the result is empty exactly for the empty string, and a non-empty string without a break is one line |
| Codec.Classify | services/workspace_manager.py:309-312 | a value text stays the same string exactly when it is neither `null` nor all digits |
| Codec.DigitsOfNat | services/workspace_manager.py:290 | `str(n)` of a natural number is all digits and `int()` of it gives `n` back |
| Codec.IntTextShape | services/workspace_manager.py:290 | `str(i)` starts with `-` for a negative int and is all digits with value `i` otherwise |
| Codec.StripQuoted | services/workspace_manager.py:308 | `strip('"')` removes exactly the quotes the writer added when the string has none at its ends |
| Codec.QuotedLoses | services/workspace_manager.py:288-308 | a string beginning or ending with `"` loses characters through write and read |
| Codec.RereadExact | services/workspace_manager.py:285-312 | a one-line value is read back as itself exactly when it is encodable |
| Codec.RereadInt | services/workspace_manager.py:290-311 | an int is read back as itself exactly when it is not negative |
| Codec.WriteYaml | services/workspace_manager.py:282-291 | the writer's loop produces `Encode(data)`: one `key: value` line per entry, in order, joined by newlines |
| Codec.Encode | services/workspace_manager.py:282-291 | no contract; defines the written text, which `DecodeEncode` states the round trip of |
| Codec.ParseYaml | services/workspace_manager.py:303-314 | the parser's loop produces `Decode(content)`, and the result is writable |
| Codec.Decode | services/workspace_manager.py:303-314 | no contract; defines the parsed record, which `DecodeEncode` and `DecodeWritable` state |
| Codec.ParseYamlLine | services/workspace_manager.py:306-313 | one pass of the parser's loop is `ParseLine`: a line with a colon assigns its stripped key, any other line is skipped |
| Codec.ReadYamlValue | services/workspace_manager.py:308-312 | the text after the colon, stripped of blanks and quotes, reads as `null`, a digit string as an int, and anything else as that text |
| Codec.ParseLineAt | services/workspace_manager.py:306-313 | a line splits at its first colon; the stripped key is assigned the value read from the rest |
| Codec.SplitJoin | services/workspace_manager.py:291-305 | `splitlines` undoes `"\n".join` on non-empty lines without line breaks |
| Codec.SplitJoinStripped | services/workspace_manager.py:291-305 | stripping and splitting joined lines that have no outer whitespace gives the lines back |
| Codec.ParseEncodedLines | services/workspace_manager.py:284-313 | parsing the lines written for a writable record rebuilds the record, keys and order kept |
| Codec.DecodeEncode | services/workspace_manager.py:277-314 | round trip: a writable record is read back exactly as written |
| Codec.DecodeEncodeField | services/workspace_manager.py:277-314 | a single field is read back as its value reread |
| Codec.ReadValueEncodable | services/workspace_manager.py:308-312 | whatever text follows a colon, the value read can be written and read back |
| Codec.ParseLinesWritable | services/workspace_manager.py:305-313 | the parser only produces records with distinct plain keys and encodable values |
| Codec.DecodeWritable | services/workspace_manager.py:298-314 | whatever text is parsed, the record returned is writable |
| Codec.DecodeStable | services/workspace_manager.py:277-314 | read, write and read again gives what the first read gave |
| Codec.SetWritable | services/workspace_manager.py:185 | assigning a plain key an encodable value keeps a record writable |
| Codec.UpdateWritable | services/workspace_manager.py:184 | `update` with a writable record keeps a record writable |
| Codec.DigitStringBecomesInt | services/workspace_manager.py:288-312 | a string field that is all digits comes back as an int |
| Codec.NegativeIntBecomesString | services/workspace_manager.py:290-311 | a negative int field comes back as a string |
| Workspaces.Replace | services/workspace_manager.py:75 | `replace` keeps the length and swaps exactly the matching characters |
| Workspaces.WorktreePathShape | services/workspace_manager.py:74-75 | the worktree directory is `<base>/feat-<id>` with `/` replaced, and holds no `/` after the base |
| Workspaces.BranchName | services/workspace_manager.py:74 | no contract; defines the branch name `feat/<task id>` |
| Workspaces.WorktreePath | services/workspace_manager.py:75 | no contract; defines the worktree directory, whose shape `WorktreePathShape` states |
| Workspaces.SameWorktree | services/workspace_manager.py:74-75 | two task ids share a worktree exactly when they agree once `/` becomes `-` |
| Workspaces.SlashAndDashCollide | services/workspace_manager.py:74-78 | ids `a/b` and `a-b` have different branches but the same worktree directory |
| Workspaces.GitBranch | services/workspace_manager.py:83 | `git branch` keeps the repository valid and logs the command |
| Workspaces.GitWorktreeAdd | services/workspace_manager.py:87 | `git worktree add` keeps the repository valid and logs the command |
| Workspaces.RemoveCommand | services/workspace_manager.py:135-137 | the remove command is `worktree remove --force <dir>` when forced and `worktree remove <dir>` otherwise |
| Workspaces.GitWorktreeRemove | services/workspace_manager.py:138 | `git worktree remove` keeps the repository valid and logs the command |
| Workspaces.GitBranchDelete | services/workspace_manager.py:142 | `git branch -D` keeps the repository valid and logs the command |
| Workspaces.GitStage | services/workspace_manager.py:111 | `git add META.yml` (also issued by `update_meta` at line 192) keeps the repository valid and logs the command |
| Workspaces.GitCommit | services/workspace_manager.py:112 | a commit that succeeds records the worktree's META.yml at its branch tip |
| Workspaces.MainBranch | services/workspace_manager.py:261-267 | the main branch is `main` exactly when `rev-parse --verify main` succeeds, else `master` |
| Workspaces.Cleanup | services/workspace_manager.py:316-325 | cleanup keeps the repository valid whatever fails, leaves the `.env` template alone and only appends to the command log |
| Workspaces.CleanupRemoves | services/workspace_manager.py:316-325 | when its commands succeed, cleanup removes the task's branch, tip, worktree, META.yml and `.env` copy and nothing else |
| Workspaces.CreateSpec | services/workspace_manager.py:74-120 | `create` keeps the repository valid, returns the worktree path, and raises only exists, creation or file errors |
| Workspaces.Populate | services/workspace_manager.py:90-115 | the steps after the worktree exists raise only creation or file errors |
| Workspaces.WriteInitial | services/workspace_manager.py:95-120 | the steps after `.env` keep the repository valid, return the worktree path on success and raise only creation or file errors |
| Workspaces.CommitNew | services/workspace_manager.py:110-120 | a failed first commit is cleaned up and raised as `WorkspaceCreationError` |
| Workspaces.CommitNewRollsBack | services/workspace_manager.py:110-120 | a failed first commit, with a working cleanup, leaves the repository as it was less the task's branch, tip, worktree, META.yml and `.env` copy; HEAD and the `.env` template are unchanged and the command log only grows |
| Workspaces.CommitNewOutcome | services/workspace_manager.py:111-112 | the first commit succeeds exactly when its steps do and the file differs from the tip, and then records it at the tip |
| Workspaces.PopulateOutcome | services/workspace_manager.py:90-115 | after the worktree exists, `create` succeeds exactly when no later step fails and the file is new to the branch; the exact resulting repository |
| Workspaces.BranchAndWorktree | services/workspace_manager.py:82-88 | branch and worktree are both made exactly when the branch is new, the main branch exists and neither command fails; the exact resulting repository |
| Workspaces.CreateOutcome | services/workspace_manager.py:74-115 | `create` succeeds exactly under `CreateSucceeds`, and then adds exactly the branch, worktree, META.yml, tip, `.env` copy and four logged commands |
| Workspaces.CreateRollsBack | services/workspace_manager.py:117-120 | when a new task fails for a reason other than a file step, the result is `WorkspaceCreationError`; after it, with a working cleanup, worktrees, META.yml files, `.env` copies and HEAD are as before, and branches and tips are as before less the task's branch; the `.env` template is unchanged and the command log only grows |
| Workspaces.CreateErrorCause | services/workspace_manager.py:74-120 | `create` raises a file error exactly when the branch and worktree are made and then the `.env` copy or the META.yml write fails; it raises `WorkspaceCreationError` exactly when the worktree is new and the call neither succeeds nor fails on a file step |
| Workspaces.PopulateRollsBack | services/workspace_manager.py:90-120 | after the worktree exists, a failed `.env` copy or META.yml write gives a file error; any other failure gives `WorkspaceCreationError` and removes the branch, worktree, META.yml and `.env` copy |
| Workspaces.CreateDeletesExistingBranch | services/workspace_manager.py:80-120 | a pre-existing `feat/<id>` branch without a worktree makes `create` fail, and the cleanup deletes that branch |
| Workspaces.CreateFileFailureKeeps | services/workspace_manager.py:91-117 | a failed `.env` copy or META.yml write after the worktree exists raises a file error; it escapes without cleanup, leaving the new branch and worktree |
| Workspaces.CreateTwice | services/workspace_manager.py:77-78 | a second `create` of the same task raises `WorkspaceExistsError` and changes nothing |
| Workspaces.MetaKeysDistinct | services/workspace_manager.py:96-106 | the nine META.yml keys are distinct |
| Workspaces.InitialMetaWritable | services/workspace_manager.py:96-106 | the initial record is writable when its texts are plain |
| Workspaces.InitialMetaFields | services/workspace_manager.py:96-106 | the initial record holds the task id and agent, status `backlog`, `xp_reward` 0 and the parent commit |
| Workspaces.InitialMeta | services/workspace_manager.py:96-106 | no contract; defines the record `create` writes, whose fields `InitialMetaFields` states |
| Workspaces.CreateThenGetMeta | services/workspace_manager.py:96-165 | after a successful `create`, `get_meta` returns exactly the initial record |
| Workspaces.GetMetaSpec | services/workspace_manager.py:148-165 | `get_meta` raises `WorkspaceNotFoundError` exactly when META.yml is missing, and otherwise returns a writable record |
| Workspaces.MergeGet | services/workspace_manager.py:184-185 | after the merge, `updated_at` is the new time, an updated key reads its new value, and every other key keeps its old value |
| Workspaces.UpdateMessage | services/workspace_manager.py:193 | no contract; defines the commit message `update: <keys>`, which `UpdateMetaOutcome` states through the commands it logs |
| Workspaces.Merge | services/workspace_manager.py:184-185 | no contract; defines `update` then `updated_at`, which `MergeGet` states |
| Workspaces.MergeWritable | services/workspace_manager.py:184-185 | merging writable updates into a writable record keeps it writable |
| Workspaces.UpdateMetaSpec | services/workspace_manager.py:167-195 | `update_meta` keeps the repository valid and raises only file or git errors |
| Workspaces.CommitUpdate | services/workspace_manager.py:191-194 | staging and committing keep the repository valid and the worktree files unchanged; a git failure is the only error |
| Workspaces.UpdateMetaOutcome | services/workspace_manager.py:167-195 | branches and worktrees never change; a missing file or failed write changes nothing; otherwise the merged text is written, and the tip moves exactly when the commit succeeds |
| Workspaces.UpdateWritesMerged | services/workspace_manager.py:181-188 | the worktree's META.yml becomes the encoded merge |
| Workspaces.UpdateThenGet | services/workspace_manager.py:148-188 | after `update_meta`, `get_meta` returns the old record merged with the updates and the new `updated_at`, whether or not the commit succeeds |
| Workspaces.StatusXpMerge | services/workspace_manager.py:184 | merging `status: in_progress, xp_reward: 100` sets both fields |
| Workspaces.UpdateStatusAndXp | services/workspace_manager.py:167-188 | updating status and XP then reading gives the new status and XP |
| Workspaces.RemoveSpec | services/workspace_manager.py:122-146 | `remove` keeps the repository valid and raises only `WorkspaceRemovalError` |
| Workspaces.RemoveOutcome | services/workspace_manager.py:122-146 | `remove` succeeds exactly when the worktree exists, is clean or forced, and the branch is removable; it then removes exactly the worktree, its files and the branch |
| Workspaces.RemoveKeepsBranch | services/workspace_manager.py:138-146 | when the worktree removal fails, the branch is kept and only the command is logged |
| Workspaces.RemoveTwice | services/workspace_manager.py:122-146 | removing a removed workspace fails |
| Workspaces.RemoveThenGetMeta | services/workspace_manager.py:122-165 | after a successful `remove`, `get_meta` raises `WorkspaceNotFoundError` |
| Workspaces.ListLinesAppend | services/workspace_manager.py:217-232 | listing keeps the order of the branch lines |
| Workspaces.ListSpec | services/workspace_manager.py:197-237 | no contract; defines the listing, which `ListedWhenShown`, `ListedFromLines` and `ListedWhenJoined` state |
| Workspaces.Listed | services/workspace_manager.py:220-228 | no contract; defines the record listed for one branch, its META.yml at the tip with `branch` set, which `ListedWhenShown` and `ListedWhenJoined` state |
| Workspaces.ListLines | services/workspace_manager.py:217-232 | no contract; defines the loop over the branch lines, which `ListLinesStep`, `ListLinesAppend` and `ListedFromLines` state |
| Workspaces.ListedWhenShown | services/workspace_manager.py:217-229 | a branch whose META.yml can be shown is listed |
| Workspaces.ListedFromLines | services/workspace_manager.py:217-232 | at most one record per branch line, each from a listed branch whose `git show` succeeded |
| Workspaces.ListedGet | services/workspace_manager.py:227-228 | a listed record is the branch's META.yml with `branch` set |
| Workspaces.ListedWhenJoined | services/workspace_manager.py:207-229 | a branch named in the `for-each-ref` output, whose META.yml can be shown, is listed |
| Workspaces.FeatBranch | services/workspace_manager.py:208 | no contract; defines the branches the `for-each-ref` pattern matches, `feat/` and one path component, which `FeatBranchName` states for task branches |
| Workspaces.Enumerates | services/workspace_manager.py:207-211 | no contract; defines `for-each-ref` output that names every matching branch of the repository once, which `ListedBranches`, `ListAfterCreate` and `ListAfterRemove` assume of the listing text |
| Workspaces.FeatBranchName | services/workspace_manager.py:74 | the branch `feat/<task id>` is enumerated exactly when the id is non-empty and holds no `/` |
| Workspaces.ListedBranches | services/workspace_manager.py:197-237 | when the branch lines are the repository's enumeration, every listed record's `branch` field names a matching branch of the repository whose META.yml could be shown |
| Workspaces.ListAfterCreate | services/workspace_manager.py:197-237 | after a successful `create`, when the branch lines are the new repository's enumeration and the new branch's META.yml can be shown: an id without `/` is listed with its id, and an id holding `/` gives no record for its branch |
| Workspaces.ListAfterRemove | services/workspace_manager.py:122-146 | after a successful `remove`, when the branch lines are the new repository's enumeration, no listed record is for the task's branch |
| Manager.WorkspaceManager.constructor | services/workspace_manager.py:41-52 | a manager over a valid repository with the given base directory |
| Manager.WorkspaceManager.RunGit | services/workspace_manager.py:241-249 | one git command: the fields become the repository the command leaves, and the result says whether it succeeded |
| Manager.WorkspaceManager.GetMainBranch | services/workspace_manager.py:261-267 | returns the main branch the specification function gives |
| Manager.WorkspaceManager.CleanupFailedWorkspace | services/workspace_manager.py:316-325 | the fields become the cleaned-up repository |
| Manager.WorkspaceManager.Create | services/workspace_manager.py:54-120 | the new state and result are those of `CreateSpec`, and the repository stays valid |
| Manager.WorkspaceManager.Populate | services/workspace_manager.py:90-120 | the new state and result are those of `Workspaces.Populate` |
| Manager.WorkspaceManager.Remove | services/workspace_manager.py:122-146 | the new state and result are those of `RemoveSpec` |
| Manager.WorkspaceManager.GetMeta | services/workspace_manager.py:148-165 | the result is that of `GetMetaSpec` |
| Manager.WorkspaceManager.UpdateMeta | services/workspace_manager.py:167-195 | the new state and result are those of `UpdateMetaSpec` |
| Manager.WorkspaceManager.CommitUpdate | services/workspace_manager.py:191-194 | `git add` then `git commit` leave the state and result of `Workspaces.CommitUpdate` |
| Manager.WorkspaceManager.ListWorkspaces | services/workspace_manager.py:197-237 | the loop's result is `ListSpec` |
| Board.GetColumns | api/board.py:199-210 | one column per status, in whitelist order |
| Board.ColumnsAreStatuses | api/board.py:199-210 | a string is a column id exactly when it is a valid status |
| Board.Respond | api/board.py:122-132 | every field shows the stored value when its key is present; otherwise task id, title, agent and status take the endpoint's defaults, `xp_reward` 0, and `skill`, `created_at` and `updated_at` none; the branch is the endpoint's |
| Board.ListResponseDefaults | api/board.py:60-73 | a listed record missing status, XP, title or agent shows `backlog`, 0 and the empty string; present fields show as stored |
| Board.ListResponse | api/board.py:61-71 | the branch shows the listed record's `branch`, or none; the other fields are those of `Respond` with the list defaults |
| Board.ListTasks | api/board.py:47-73 | one response per listed workspace |
| Board.CreateTask | api/board.py:76-109 | `create_task` fails only with 409 or 500 |
| Board.CreateErrorCode | api/board.py:106-109 | `WorkspaceExistsError` is 409, and every other error 500 |
| Board.NotFoundErrorCode | api/board.py:134-137 | `WorkspaceNotFoundError` is 404, and every other error 500 |
| Board.DeleteErrorCode | api/board.py:195-196 | no contract; every error is 500 |
| Board.CreateTaskConflict | api/board.py:106-107 | 409 exactly when the worktree exists, and then nothing changes |
| Board.CreateTaskResponse | api/board.py:90-104 | a successful create answers with the id, the agent, status `backlog`, XP 0 and the task's branch |
| Board.GetTask | api/board.py:112-137 | no contract; defines `get_task`'s reply, whose error cases `GetTaskNotFound` states and whose fields `Respond` states |
| Board.GetTaskNotFound | api/board.py:112-137 | `get_task` fails exactly when META.yml is missing, and then with 404 |
| Board.UpdateTaskStatus | api/board.py:140-177 | an unknown status is refused with 400 and changes nothing; the only codes are 400, 404 and 500 |
| Board.StatusesPlain | api/board.py:149 | every whitelisted status is read back from META.yml as written |
| Board.UpdateMissingTask | api/board.py:158-177 | a PATCH for a task without META.yml answers 500 and changes nothing |
| Board.UpdateTaskOutcome | api/board.py:140-177 | 400 exactly for a status outside the columns; for a column, the task is returned exactly when `update_meta` returns |
| Board.UpdateTaskResponse | api/board.py:158-172 | a PATCH that succeeds answers with the new status |
| Board.DeleteTask | api/board.py:180-196 | `delete_task` fails only with 500 |
| Board.DeleteTaskError | api/board.py:191-196 | 500 exactly when `remove` raises |
| Board.XpOf | api/board.py:231-235 | an int `xp_reward` contributes its value; a missing or non-int one contributes 0 |
| Board.KeyOf | api/board.py:229-230 | the status shows the stored value or `backlog`, the agent the stored value or `unknown` |
| Board.Tally | api/board.py:233-234 | no contract; defines the counters, which `TallyCounts` and `TallyTotal` state |
| Board.SumXp | api/board.py:231-235 | no contract; defines the XP total, the sum of `XpOf` |
| Board.BumpGet | api/board.py:233-234 | one increment raises exactly that key's counter by one |
| Board.TallyTotal | api/board.py:222-234 | the counters sum to the number of workspaces |
| Board.TallyCounts | api/board.py:229-234 | each counter is the number of workspaces with that status (or agent), defaults included, and keys are distinct |
| Board.Tabulate | api/board.py:221-237 | the loop yields the total, the tallies by status and agent, and the XP sum, and each tally sums to the total |
| Board.GetBoardStats | api/board.py:213-237 | the statistics are those of the listed workspaces |

## Left out

- PyYAML: the model takes the branch where `yaml` is not installed, so `_write_yaml` and `_parse_yaml` are their fallbacks. `yaml.dump` and `yaml.safe_load` are not modelled.
- Git, the filesystem and `subprocess` are an abstract repository value.
  - An `OSError` raised by `subprocess` itself (git missing or not executable) is not modelled. It would escape `create` without cleanup, escape `_get_main_branch` rather than fall back to `master`, and escape `list_workspaces` rather than give an empty list; a `faults` step always behaves as a failed git command.
  - Git's own failures are modelled only for the cases listed:
    - an existing branch or worktree;
    - a missing base branch;
    - a branch checked out in another linked worktree;
    - an unforced removal of a dirty worktree;
    - nothing to commit.
  - Every other failure is a `faults` oracle.
  - Command output other than the `for-each-ref` listing is not modelled.
- `_get_current_commit` is the repository's `head` value and its `ReadHead` failure step. The commit hash format is not modelled.
- The staging index is not modelled: a commit records the worktree's current META.yml text.
- `.env`: the copy is recorded but its contents are not. It is assumed ignored by git, so it never makes a worktree dirty.
- Paths are strings: `pathlib` normalisation, `worktree.exists()` for directories that are not worktrees, and the `mkdir` in `__init__` are not modelled.
- `_now_iso` and `datetime` are not modelled: timestamps are inputs.
- `isdigit`: ASCII digits only. Unicode digits that Python accepts are not modelled.
- `Codec.ReadValue`: `int()` of an all-digit string is its decimal value. Python's handling of non-ASCII digits is not modelled.
- Value types: META.yml values are null, strings and ints. Booleans, floats, lists and nested mappings that other callers could pass to `update_meta` are not modelled.
- Exception messages, the `detail` strings of HTTP errors and logging are not modelled.
- FastAPI and pydantic: routing, request parsing, `response_model` validation and coercion of the `TaskResponse` fields are not modelled. A response holds the META.yml values as read.
- `list_workspaces`: the text output of `git for-each-ref` is an input (`None` when the command fails), as is the set of branches whose `git show` fails. The lemmas that relate a listing to the repository assume the text is the repository's enumeration (`Workspaces.Enumerates`) made of lines without surrounding whitespace; git's sorting of that output by name is not modelled.
- The main checkout's branch is not recorded in `Repo`: only linked worktrees block a branch. Git also refuses `git branch -D` and `git worktree add` for the branch the main checkout is on, so `Workspaces.CleanupRemoves`, `Workspaces.CreateDeletesExistingBranch` and `Workspaces.RemoveOutcome` hold only when the main checkout is not on `feat/<task id>`.
- Concurrency: several managers working on one repository at once are not modelled.
- `Board.ListTasks`: its contract states only the number of responses; the defaults of each response are stated by `Board.ListResponseDefaults`.
