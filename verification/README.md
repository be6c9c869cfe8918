# gitdater, modelled in Dafny

gitdater walks a directory tree, finds every directory in it that holds a
`.git` subdirectory (a `.git` file, as in submodules and linked worktrees,
does not count), and updates each one. Each update runs `git pull`, or `git fetch && git merge
--ff-only @{u}` when HEAD is detached. It then reports the new revision or
explains the failure. When the pull would overwrite local changes, it asks
the user whether to discard them. If they agree, it discards the changes
and, when git confirms the reset, runs the update again. In parallel mode the updates run in a thread pool,
and the reports are printed in the order the walk found the repositories.

This project models the decision logic of that tool as pure functions and
proves properties of it:

- `text.dfy` (module `Text`): the string tests the tool relies on.
  - `in` on strings, `str.strip()` and `"\n".join`.
  - The two regular expressions, each written as an explicit scanner and
    proved equal to a declarative definition:
    - `(?i)[0-9a-f]{32}`: 32 hex digits in a row;
    - `error:.*files would be overwritten by merge`: "error:" followed by
      the phrase later on the same line.
- `prompt.dfy` (module `Prompt`): `question`, reading from a finite list of
  typed lines.
- `update.dfy` (module `Update`): `update_repo`.
  - Every git invocation takes the next `(stdout, stderr, code)` outcome of
    a script.
  - The decisions of a run form a trace of attempts (`Attempts`).
  - The returned `(path, success, message)` is computed from that trace
    (`Finish`, `Report`).
  - The message is kept as a list of `Line`s; `Render` gives each line's
    exact text and `Message` joins them.
- `discovery.dfy` (module `Discovery`): `find_git_repos`, as a top-down walk
  over an abstract tree of named files and directories.
- `report.dfy` (module `Report`): the order in which `main` prints the
  results of parallel and sequential mode.
- `wrappers.dfy` (module `Wrappers`): `Option` and `Result`.

A run that cannot finish ends with `Stop`, for one of two reasons:

- `EndOfInput`: the user's input ran out at the prompt, where Python's
  `input()` raises `EOFError`.
- `ScriptExhausted`: the script holds fewer outcomes than the run asks for.
  This reason exists only in the model.

## Model

| member | source | states |
|---|---|---|
| Update.UpdateRepo | gitdater.py:54-131 | A finished update returns a result whose path is `root` and whose message starts with the first attempt's header and ends with the last line of the last attempt. In its trace every attempt but the last retried, and every attempt used the command its probe chose and took the one branch its outcome fits. A local-changes discard only follows a "yes" and a refusal only a "no" at the prompt. Success holds iff the last attempt's update exited with 0. The outcomes consumed are a prefix of the script, and the lines read are a prefix of the input, each attempt's in turn. With `auto_yes` the run never stops at the prompt, reads no input and asks nothing. |
| Update.UpdateRepoComplete | gitdater.py:54-131 | Conversely, whenever some trace of attempts fits the script and the input, the update does not stop: it returns that trace and the result computed from it. |
| Update.ProbeSelectsCommand | gitdater.py:66-73 | The fetch-and-fast-forward command is chosen iff the probe printed DETACHED surrounded only by whitespace; otherwise `git pull` is chosen. |
| Update.RunAttempt | gitdater.py:66-127 | One attempt probes, updates and classifies. Its command and its branch follow the rules, and where it asked, the lines it read settle the prompt on the answer that chose between refusing and discarding. It consumes the probe, update and follow-up outcomes in that order, and exactly the lines it read from the input. |
| Update.RunAttemptComplete | gitdater.py:66-127 | Conversely, any attempt that fits the script and the input is the attempt made. |
| Update.AfterUpdate | gitdater.py:75-127 | After the update exactly one follow-up fits, in priority order: success, the overwrite error, a detached-HEAD marker, anything else. The user is asked iff the overwrite error occurred and `auto_yes` is off, and then the answer decides between "Update skipped by user." and the discard. |
| Update.AfterUpdateComplete | gitdater.py:75-127 | Conversely, any follow-up that fits the update's outcome, the script and the input is the one taken; the updater does not stop early. |
| Update.Recover | gitdater.py:88-108 | `auto_yes or question(root)`: with `auto_yes` the local changes are discarded without asking. Otherwise the prompt reads the input, and the changes are discarded iff its answer is yes and refused iff it is no; a "no" always gives a result. The unread input is what follows the line that settled the prompt. It stops for lack of input iff asking and no typed line is valid, and for lack of outcomes only when a discard is due and the script is empty. The discard uses the command the error output selects. |
| Update.Confirm | gitdater.py:90 | `auto_yes or question(root)`: `auto_yes` gives yes without reading. Otherwise the lines read are exactly those the prompt reads before it settles, its answer is the decision, and the unread lines are what follows them. Input with no valid line ends in `EndOfInput`. |
| Update.SettlesMeaning | gitdater.py:141-152 | The lines a settled prompt read are invalid lines followed by the first valid line of the input, and the answer is yes iff that line is empty, "y" or "Y". |
| Update.RecoveryCommandMeaning | gitdater.py:91-94 | `git clean -df` is chosen iff the error output contains "untracked"; `git reset --hard` is chosen otherwise. |
| Update.Attempts | gitdater.py:96-106 | Retries follow exactly the discards whose output contains "HEAD is now at". The attempts consume consecutive parts of the script, and read consecutive lines of the input, each asked attempt reading exactly the lines its answer needed. |
| Update.AttemptsComplete | gitdater.py:96-106 | Conversely, any trace that fits the script and the input is the trace produced. |
| Update.EachDecisionFromInput | gitdater.py:88-108 | In every attempt of a run that asked, the prompt reading the input the earlier attempts left settles on yes iff that attempt discarded local changes, and on no iff it refused. |
| Update.SucceededMeansLastSucceeded | gitdater.py:75-103 | Along a retry chain, the success flag, which each retry's flag replaces, is the last attempt's exit status being 0. |
| Update.Finish | gitdater.py:131 | The result carries `root`, and its flag is the last attempt's. The message starts with the first header. It ends with the last line of the last attempt, because each retry's message is nested as the final line of the attempt before it. |
| Update.ReportedRevision | gitdater.py:79-81 | The revision is "-" iff the rev-parse output holds no 32 hex digits in a row. Otherwise it is the output's first seven characters. |
| Update.ObjectIdRevision | gitdater.py:79-81 | A 40-digit object id followed by a newline is reported by its first seven digits. |
| Update.StatusLineReports | gitdater.py:77-82 | The status line starts with "Already at" iff the update's output contains "Already", otherwise it starts with "Updated to". It ends with the reported revision in quotes. |
| Update.DetachedMarkerMeaning | gitdater.py:112-117 | The detached-HEAD branch is taken iff the error output contains one of the three git messages. |
| Update.OutputOnlyOutsideOverwrite | gitdater.py:118-129 | Git's own output appears in an attempt's report iff `verbose` is set and the failure was a detached HEAD or unrecognised, never in the overwrite branch. |
| Update.VerboseAddsOnlyOutput | gitdater.py:61-129 | An attempt's verbose report with git's output removed and the header reworded is exactly its quiet report. |
| Update.DeclinedIsSkipped | gitdater.py:107-108 | After a refusal the update fails and its message ends with "Update skipped by user."; with `auto_yes` this never happens. |
| Update.SuccessReportsStatus | gitdater.py:77-82 | A successful update's last attempt read the revision, and its message ends with the status line for that revision. |
| Update.MessageStartsWithHeader | gitdater.py:61-64 | The message starts with the header line of the first attempt. |
| Update.MessageEndsWithFinalLine | gitdater.py:96-131 | Through any number of nested retries, the message ends with the last line of the last attempt. |
| Prompt.Question | gitdater.py:134-152 | The prompt fails iff no line is valid. Otherwise it stops at the first valid line, having skipped only invalid ones, and answers yes iff that line is empty, "y" or "Y". |
| Prompt.InterpretMeaning | gitdater.py:141-152 | A line is understood iff it is "", "y", "Y", "n" or "N", and it means yes iff it is "", "y" or "Y". |
| Prompt.FirstValidLineDecides | gitdater.py:141-152 | Whatever invalid lines come before it and whatever follows it, the first valid line fixes the answer and the number of lines read. |
| Prompt.QuestionReadsPrefix | gitdater.py:141-152 | The prompt given only the lines it reads settles on the same answer. |
| Prompt.QuestionIgnoresLater | gitdater.py:141-152 | Lines typed after the one that settles the prompt are never read: appending them changes nothing. |
| Text.ContainsMeaning | gitdater.py:78 | The `in` test on strings holds iff the substring occurs at some position. |
| Text.Strip | gitdater.py:68 | `strip()` returns the input less its leading and trailing whitespace. The result is empty iff the input is all whitespace, and otherwise starts and ends with non-whitespace. |
| Text.StripSurrounded | gitdater.py:68-70 | A word surrounded only by whitespace strips to itself. |
| Text.HasHexRunMeaning | gitdater.py:80-81 | The hex scanner succeeds iff the text holds n hex digits of either case in a row. |
| Text.OverwriteErrorMeaning | gitdater.py:86 | The overwrite scanner succeeds iff "error:" occurs, the phrase occurs at or after its end, and no newline lies between them. |
| Text.OverwriteErrorByLine | gitdater.py:86 | The overwrite error is found iff some single line of the error output holds "error:" with the phrase after it. |
| Text.LinesJoin | gitdater.py:86 | The lines of a text, joined again with line breaks, give the text back, so the line-by-line reading covers the whole error output. |
| Text.SearchFromMeaning | gitdater.py:86 | Scanning from a position succeeds iff a match starts at or after that position. |
| Text.PhraseFromMeaning | gitdater.py:86 | The phrase is found before the next newline iff it occurs at a later position with no newline in between. |
| Update.MessageIsJoin | gitdater.py:131 | The message, built line by line, is Python's `"\n".join` of the texts of the lines. |
| Text.JoinEndsWithLast | gitdater.py:131 | `sep.join(xs)` ends with the last element. |
| Discovery.WalkMeaning | gitdater.py:159-162 | The walk below a directory yields exactly those paths below it that lead to a directory listing a `.git` subdirectory without passing through any `.git` directory. |
| Discovery.WalkChildrenMeaning | gitdater.py:159-163 | The walk of a directory's entries yields exactly the repositories reached through one of them that is not `.git`. |
| Discovery.FindMeaning | gitdater.py:155-164 | `find_git_repos` reports exactly the directories at or under the top that hold a `.git` subdirectory and are reached without entering a `.git` directory. Nested repositories are therefore reported as well. |
| Discovery.FindAvoidsGit | gitdater.py:163 | No reported path passes through a `.git` directory below the top. |
| Discovery.FindOrdered | gitdater.py:159-164 | When the names within each directory are distinct, no repository is reported twice. A repository is reported before every repository nested inside it. |
| Discovery.WalkOrdered | gitdater.py:159-163 | The same two properties hold for the walk below any directory. |
| Report.FirstFor | gitdater.py:209-212 | The inner loop stops at the first result whose path is the repository, and finds none iff no result has that path. |
| Report.ParallelPrints | gitdater.py:207-212 | When every repository has a result, one print per repository, showing its first matching result, in the order of `repos`. |
| Report.ParallelPrintsMeaning | gitdater.py:207-212 | For any results, parallel mode prints one message per repository that has a result, in the order of `repos`, each the message of the first result whose path is that repository. |
| Report.FirstForFindsOwnResult | gitdater.py:207-212 | When the paths are distinct and the collected results are a permutation of the per-repository results, the result found for a repository is that repository's own. |
| Report.ParallelFollowsRepos | gitdater.py:201-212 | Whatever the completion order, parallel mode prints each repository's message in the order of `repos`. |
| Report.SequentialPrints | gitdater.py:213-217 | Sequential mode prints, for each result in turn, its message and then an empty line. |
| Report.ParallelIsSequentialWithoutBlankLines | gitdater.py:207-217 | Parallel mode prints the same messages in the same order as sequential mode, without the empty line after each. |

## Left out

- Subprocesses: `run_git_command` and `check_git_installed` are outside the model. Each command's result is the next scripted outcome; the model keeps no notion of a working directory or of git itself.
- `parse_args` and `main`'s own printing: the search banner, the count of repositories and the closing summary line.
- The thread pool and `as_completed`: the completion order is any permutation of the per-repository results. Updates running concurrently and sharing one terminal for the prompt are not modelled.
- `print`, `input` and `sys.stdout.write`: the prompt's question text and the "Did not understand your answer!" notice are not modelled. The typed lines are a finite input sequence.
- `os.walk` and `os.path.abspath`: paths are sequences of names from the top of the walk.
  - Symbolic links, unreadable directories and a top that is not a directory (os.walk yields nothing for one) are out of scope.
  - The listing order is the order of a directory's children in the tree.
- Discovery.Walk: skips every child directory named `.git`, where Python removes the first entry named `.git` from the list. The two agree because names within a directory are unique.
- Discovery.FindOrdered: the no-duplicates and top-down properties require `UniqueNames`, a guarantee of real file systems.
- Python's recursion limit, which bounds how often `question` can re-prompt and how many retries `update_repo` can nest, is not modelled. Both recursions are unbounded in the model.
- Prompt.Interpret: lower-cases ASCII letters only. The only lines whose Unicode lower-case form is "y" or "n" are "y", "Y", "n" and "N", so the accepted answers are the same.
- The report is computed from the finished trace of attempts, not line by line while git runs. No output of the model depends on when a line is produced, so the results are the same.
- Update.VerboseAddsOnlyOutput: holds per attempt only. After a retry the nested message is kept as text, so the quiet form of a whole verbose report still carries the retry's verbose header; the model states no property of the nested text.
- Report.ParallelFollowsRepos: the result lists in `main` hold the message as text. The model keeps the `Line` list and renders it through `Message`.
