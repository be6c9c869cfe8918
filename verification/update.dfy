/**
 The per-repository update: the decision logic of `update_repo`.

 Every git invocation is replaced by the next outcome of a script, and
 every line the user types at the confirmation prompt by the next line of
 a list of answers. One attempt probes the branch, pulls (or fetches and
 fast-forwards when HEAD is detached), and then either reports the new
 revision or classifies the failure. The only recursion is the retry after
 local changes were discarded successfully; it ends because each attempt
 consumes at least two outcomes of the finite script.
 */
module Update {

  import opened Wrappers
  import opened Text
  import Prompt

  /** What one git invocation gives back: its two output streams and its
      exit status. */
  datatype Outcome = Outcome(stdout: string, stderr: string, code: int)

  /** The git invocations the updater issues. */
  datatype Command =
    | SymbolicRef   // the branch probe: `git symbolic-ref --short HEAD`, or DETACHED
    | FetchMerge    // update of a detached HEAD: `git fetch && git merge --ff-only @{u}`
    | Pull          // update of a checked-out branch: `git pull`
    | RevParse      // the revision after a successful update: `git rev-parse --verify HEAD`
    | Clean         // discards untracked files: `git clean -df`
    | ResetHard     // discards changes to tracked files: `git reset --hard`
    | Fetch         // refreshes refs only, after a detached-HEAD failure: `git fetch`

  /** The outcomes git will give, in order, and the lines the user will type. */
  datatype World = World(script: seq<Outcome>, answers: seq<string>)

  /** Why a run ended without a result: the script ran out (the model gave
      git fewer outcomes than the run asks for), or the user's input ran
      out at the prompt (Python's `input()` raises `EOFError`). */
  datatype Stop = ScriptExhausted | EndOfInput

  datatype Step = Step(out: Outcome, rest: World)

  /** Runs one command: takes the next outcome of the script. */
  function Run(w: World): (r: Result<Step, Stop>)
    ensures r.Ok? <==> |w.script| > 0
    ensures r.Ok? ==> r.value.out == w.script[0] && r.value.rest == World(w.script[1..], w.answers)
  {
    if |w.script| == 0 then Err(ScriptExhausted)
    else Ok(Step(w.script[0], World(w.script[1..], w.answers)))
  }

  // ---------------------------------------------------------------------
  // The texts the updater looks for

  const DetachedWord: string := "DETACHED"
  const AlreadyMarker: string := "Already"
  const HeadReset: string := "HEAD is now at"
  const UntrackedMarker: string := "untracked"

  /** The three ways git says that HEAD is not on a branch. */
  const NotOnBranch: string := "You are not currently on a branch"
  const NoBranchHead: string := "HEAD does not point to a branch"
  const DetachedHead: string := "detached HEAD"

  // ---------------------------------------------------------------------
  // The lines of a report

  /** One line of the report `update_repo` returns. The fixed texts get a
      constructor each; git output copied into the report in verbose mode
      and the message of a retry are carried as they are. */
  datatype Line =
    | Checking(root: string, verbose: bool)
    | Status(already: bool, revision: string)
    | Problem
    | OverwriteNotice
    | ResetNotice
    | RetryNotice
    | Unable
    | Skipped
    | DetachedNotice
    | Fetched
    | Install
    | Output(text: string)
    | Nested(message: string)

  /** The text of each line. */
  function Render(l: Line): string
  {
    match l
    case Checking(root, verbose) =>
      if verbose then "\"" + root + "\" checking for updates..."
      else "Checking updates for \"" + root + "\"..."
    case Status(already, revision) =>
      (if already then "Already at" else "Updated to")
      + " the latest revision '" + revision + "'."
    case Problem => "Problem occurred while updating repository."
    case OverwriteNotice => "Error: Files would be overwritten by merge."
    case ResetNotice => "\nLocal copy reset to current git branch."
    case RetryNotice => "Attempting to run update again...\n"
    case Unable => "Unable to reset local copy to current git branch."
    case Skipped => "Update skipped by user."
    case DetachedNotice => "Repository is in detached HEAD state."
    case Fetched => "Fetched updates but cannot merge (detached HEAD)."
    case Install => "Please make sure that you have a 'git' package installed."
    case Output(text) => text
    case Nested(message) => message
  }

  /** The texts of a sequence of lines. */
  function Texts(lines: seq<Line>): (r: seq<string>)
    ensures |r| == |lines|
    ensures forall k | 0 <= k < |lines| :: r[k] == Render(lines[k])
  {
    seq(|lines|, k requires 0 <= k < |lines| => Render(lines[k]))
  }

  // ---------------------------------------------------------------------
  // The branch probe

  /** The update command the branch probe selects. */
  function UpdateCommand(probeStdout: string): Command
  {
    if Strip(probeStdout) == DetachedWord then FetchMerge else Pull
  }

  /** The probe selects the fetch-and-fast-forward command exactly when its
      output is the word DETACHED with nothing but whitespace around it, and
      `git pull` otherwise. */
  lemma ProbeSelectsCommand(probeStdout: string)
    ensures UpdateCommand(probeStdout) == FetchMerge <==>
              exists i | 0 <= i <= |probeStdout| ::
                && OccursAt(probeStdout, DetachedWord, i)
                && SpaceBetween(probeStdout, 0, i)
                && SpaceBetween(probeStdout, i + |DetachedWord|, |probeStdout|)
    ensures UpdateCommand(probeStdout) != FetchMerge ==> UpdateCommand(probeStdout) == Pull
  {
    if exists i | 0 <= i <= |probeStdout| ::
         && OccursAt(probeStdout, DetachedWord, i)
         && SpaceBetween(probeStdout, 0, i)
         && SpaceBetween(probeStdout, i + |DetachedWord|, |probeStdout|)
    {
      var i :| 0 <= i <= |probeStdout|
               && OccursAt(probeStdout, DetachedWord, i)
               && SpaceBetween(probeStdout, 0, i)
               && SpaceBetween(probeStdout, i + |DetachedWord|, |probeStdout|);
      StripSurrounded(probeStdout, i, DetachedWord);
    }
  }

  // ---------------------------------------------------------------------
  // The success report

  /** The revision shown after a successful update: the first seven
      characters of `git rev-parse` output that holds 32 hexadecimal digits
      in a row (in either case), `-` otherwise. */
  function ReportedRevision(revParseStdout: string): (r: string)
    ensures r == "-" <==> !HexRunSomewhere(revParseStdout, 32)
    ensures r != "-" ==> |r| == 7 && StartsWith(revParseStdout, r)
  {
    HasHexRunMeaning(revParseStdout, 32);
    if |revParseStdout| > 0 && HasHexRun(revParseStdout, 32) then revParseStdout[..7]
    else "-"
  }

  /** A 40-digit object id printed on its own line is reported by its
      first seven digits. */
  lemma ObjectIdRevision(id: string)
    requires |id| == 40 && AllHex(id)
    ensures ReportedRevision(id + "\n") == id[..7]
  {
    var s := id + "\n";
    assert s[0..32] == id[0..32];
    assert HexRunAt(s, 0, 32);
  }

  /** The line reporting a successful update. */
  function StatusOf(updateStdout: string, revParseStdout: string): Line
  {
    Status(Contains(updateStdout, AlreadyMarker), ReportedRevision(revParseStdout))
  }

  /** The status line says "Already at" exactly when the update's output
      contains "Already", says "Updated to" otherwise, and ends by naming
      the reported revision. */
  lemma StatusLineReports(updateStdout: string, revParseStdout: string)
    ensures StartsWith(Render(StatusOf(updateStdout, revParseStdout)), "Already at") <==>
              Occurs(updateStdout, AlreadyMarker)
    ensures StartsWith(Render(StatusOf(updateStdout, revParseStdout)), "Updated to") <==>
              !Occurs(updateStdout, AlreadyMarker)
    ensures EndsWith(Render(StatusOf(updateStdout, revParseStdout)),
                     "'" + ReportedRevision(revParseStdout) + "'.")
  {
    ContainsMeaning(updateStdout, AlreadyMarker);
    var line := Render(StatusOf(updateStdout, revParseStdout));
    var tail := "'" + ReportedRevision(revParseStdout) + "'.";
    assert line[..10] == (if Contains(updateStdout, AlreadyMarker) then "Already at" else "Updated to");
    assert line[|line| - |tail|..] == tail;
  }

  // ---------------------------------------------------------------------
  // The failure branches

  /** Any of the texts with which git refuses to act without a branch. */
  predicate HasDetachedMarker(stderr: string)
  {
    Contains(stderr, NotOnBranch) || Contains(stderr, NoBranchHead) || Contains(stderr, DetachedHead)
  }

  /** The command that discards local changes. */
  function RecoveryCommand(updateStderr: string): Command
  {
    if Contains(updateStderr, UntrackedMarker) then Clean else ResetHard
  }

  /** The detached-HEAD branch is taken exactly when git's error output
      contains one of the three texts. */
  lemma DetachedMarkerMeaning(stderr: string)
    ensures HasDetachedMarker(stderr) <==>
              Occurs(stderr, NotOnBranch) || Occurs(stderr, NoBranchHead) || Occurs(stderr, DetachedHead)
  {
    ContainsMeaning(stderr, NotOnBranch);
    ContainsMeaning(stderr, NoBranchHead);
    ContainsMeaning(stderr, DetachedHead);
  }

  /** Local changes are discarded with `git clean -df` exactly when the
      error output mentions untracked files, with `git reset --hard`
      otherwise. */
  lemma RecoveryCommandMeaning(updateStderr: string)
    ensures RecoveryCommand(updateStderr) == Clean <==> Occurs(updateStderr, UntrackedMarker)
    ensures RecoveryCommand(updateStderr) == ResetHard <==> !Occurs(updateStderr, UntrackedMarker)
  {
    ContainsMeaning(updateStderr, UntrackedMarker);
  }

  /** What happened after the update command. A refusal and a discard
      keep the lines the user typed at the prompt; none are typed with
      automatic confirmation. */
  datatype Followup =
    | Revised(revParse: Outcome)                                  // success: revision read
    | Declined(read: seq<string>)                                 // the user said no
    | Reset(read: seq<string>, command: Command, reset: Outcome) // local changes discarded
    | DetachedFetch(fetch: Outcome)                               // refs fetched only
    | Unrecognised                                                // nothing more done

  /** The outcomes a followup took from the script. */
  function FollowupConsumed(f: Followup): seq<Outcome>
  {
    match f
    case Revised(v) => [v]
    case Reset(_, _, o) => [o]
    case DetachedFetch(fetch) => [fetch]
    case _ => []
  }

  /** The lines a followup read from the user. */
  function TypedLines(f: Followup): seq<string>
  {
    if f.Declined? || f.Reset? then f.read else []
  }

  /** The user was asked whether to discard local changes. */
  predicate FollowupAsked(f: Followup)
  {
    |TypedLines(f)| > 0
  }

  /** The prompt, given the lines read, settles on the last of them, and its
      answer is "yes" exactly when local changes were discarded. */
  predicate AnswerDecides(f: Followup)
  {
    FollowupAsked(f) ==> Prompt.Question(TypedLines(f)) == Some(Prompt.Answer(f.Reset?, |TypedLines(f)|))
  }

  /** The followup of an update outcome, in priority order: success, then
      the overwrite error (ask, then discard only on "yes"), then the
      detached-HEAD markers (fetch only), then anything else. */
  predicate FollowupFits(autoYes: bool, u: Outcome, f: Followup)
  {
    var failed := u.code != 0;
    var overwrite := failed && OverwriteError(u.stderr);
    && (f.Revised? <==> !failed)
    && (f.Declined? || f.Reset? <==> overwrite)
    && (f.DetachedFetch? <==> failed && !overwrite && HasDetachedMarker(u.stderr))
    && (f.Unrecognised? <==> failed && !overwrite && !HasDetachedMarker(u.stderr))
    && (f.Reset? ==> f.command == RecoveryCommand(u.stderr))
    && (FollowupAsked(f) <==> overwrite && !autoYes)
    && (f.Declined? ==> FollowupAsked(f))
    && AnswerDecides(f)
  }

  /** The user's decision on discarding local changes, the lines read to
      reach it, and the lines left unread. */
  datatype Confirmation = Confirmation(yes: bool, read: seq<string>, unread: seq<string>)

  /** The prompt, reading `answers`, read exactly `c.read`, settled on
      the last of those lines, and answered `c.yes`; `c.unread` is what it
      left. */
  predicate Settles(answers: seq<string>, c: Confirmation)
  {
    && answers == c.read + c.unread
    && Prompt.Question(answers) == Some(Prompt.Answer(c.yes, |c.read|))
    && Prompt.Question(c.read) == Prompt.Question(answers)
  }

  /** The lines a settled prompt read: lines it did not understand, then
      the first valid line of the input, whose meaning is the answer. */
  lemma SettlesMeaning(answers: seq<string>, c: Confirmation)
    requires Settles(answers, c)
    ensures |c.read| >= 1
    ensures forall k | 0 <= k < |c.read| - 1 :: !Prompt.Valid(c.read[k])
    ensures Prompt.Valid(c.read[|c.read| - 1])
    ensures c.yes <==> Prompt.Affirmative(c.read[|c.read| - 1])
  {
    assert forall k | 0 <= k < |c.read| :: c.read[k] == answers[k];
  }

  /** `auto_yes or question(root)`: the prompt is skipped when automatic
      confirmation is on; otherwise the first line it understands decides. */
  function Confirm(autoYes: bool, answers: seq<string>): (r: Result<Confirmation, Stop>)
    ensures autoYes ==> r == Ok(Confirmation(true, [], answers))
    ensures !autoYes && r.Ok? ==> Settles(answers, r.value)
    ensures r.Err? <==> !autoYes && Prompt.Question(answers).None?
    ensures r.Err? ==> r.error == EndOfInput
  {
    if autoYes then Ok(Confirmation(true, [], answers))
    else
      match Prompt.Question(answers)
      case None => Err(EndOfInput)
      case Some(a) =>
        PromptSettles(answers);
        Ok(Confirmation(a.yes, answers[..a.consumed], answers[a.consumed..]))
  }

  lemma PromptSettles(answers: seq<string>)
    requires Prompt.Question(answers).Some?
    ensures var a := Prompt.Question(answers).value;
            Settles(answers, Confirmation(a.yes, answers[..a.consumed], answers[a.consumed..]))
  {
    var a := Prompt.Question(answers).value;
    Prompt.QuestionReadsPrefix(answers);
    SplitJoin(answers, a.consumed);
  }

  lemma SplitJoin<T>(xs: seq<T>, n: nat)
    requires n <= |xs|
    ensures xs == xs[..n] + xs[n..] && |xs[..n]| == n
  {
  }

  /** The outcomes of `taken` are the first ones of `script`, and `rest` is
      what follows them. */
  predicate ScriptSplit(script: seq<Outcome>, taken: seq<Outcome>, rest: seq<Outcome>)
  {
    script == taken + rest
  }

  /** What followed the update command, and what is left of the world. */
  datatype Next = Next(followup: Followup, rest: World)

  /** What the overwrite branch keeps to: it refuses or discards, with the
      command the error output selects; it asks unless confirmation is
      automatic, and the answer decides; it takes the discard's outcome
      from the script and the lines it read from the input. */
  predicate RecoveryFits(autoYes: bool, update: Outcome, w: World, n: Next)
  {
    var f := n.followup;
    && (f.Declined? || f.Reset?)
    && (f.Reset? ==> f.command == RecoveryCommand(update.stderr))
    && (FollowupAsked(f) <==> !autoYes)
    && (f.Declined? ==> FollowupAsked(f))
    && AnswerDecides(f)
    && ScriptSplit(w.script, FollowupConsumed(f), n.rest.script)
    && w.answers == TypedLines(f) + n.rest.answers
  }

  /** The overwrite branch: ask (unless confirmed automatically), then run
      the command that discards local changes only on "yes". */
  function Recover(autoYes: bool, update: Outcome, w: World): (r: Result<Next, Stop>)
    ensures r.Ok? ==> RecoveryFits(autoYes, update, w, r.value)
    ensures r.Ok? && !autoYes ==>
              && Prompt.Question(w.answers).Some?
              && (r.value.followup.Reset? <==> Prompt.Question(w.answers).value.yes)
              && r.value.rest.answers == w.answers[Prompt.Question(w.answers).value.consumed..]
    ensures r.Ok? && autoYes ==> r.value.followup.Reset?
    ensures r == Err(EndOfInput) <==> !autoYes && Prompt.Question(w.answers).None?
    ensures r == Err(ScriptExhausted) ==>
              |w.script| == 0 && (autoYes || (Prompt.Question(w.answers).Some? && Prompt.Question(w.answers).value.yes))
    ensures !autoYes && Prompt.Question(w.answers).Some? && !Prompt.Question(w.answers).value.yes ==> r.Ok?
  {
    match Confirm(autoYes, w.answers)
    case Err(e) => Err(e)
    case Ok(c) =>
      if !c.yes then
        DeclinedFits(autoYes, update, w, c);
        Ok(Next(Declined(c.read), World(w.script, c.unread)))
      else
        match Run(World(w.script, c.unread))
        case Err(e) => Err(e)
        case Ok(d) =>
          var n := Next(Reset(c.read, RecoveryCommand(update.stderr), d.out), d.rest);
          ResetFits(autoYes, update, w, c, n);
          Ok(n)
  }

  lemma DeclinedFits(autoYes: bool, update: Outcome, w: World, c: Confirmation)
    requires Confirm(autoYes, w.answers) == Ok(c) && !c.yes
    ensures RecoveryFits(autoYes, update, w, Next(Declined(c.read), World(w.script, c.unread)))
  {
  }

  lemma ResetFits(autoYes: bool, update: Outcome, w: World, c: Confirmation, n: Next)
    requires Confirm(autoYes, w.answers) == Ok(c) && c.yes
    requires |w.script| >= 1
    requires n == Next(Reset(c.read, RecoveryCommand(update.stderr), w.script[0]), World(w.script[1..], c.unread))
    ensures RecoveryFits(autoYes, update, w, n)
  {
  }

  /** Everything after the update command ran: the revision is read after
      a success; after a failure the overwrite error comes first, then the
      detached-HEAD markers (a bare fetch), then anything else. */
  function AfterUpdate(autoYes: bool, update: Outcome, w: World): (r: Result<Next, Stop>)
    ensures r.Ok? ==>
              var f := r.value.followup;
              && FollowupFits(autoYes, update, f)
              && ScriptSplit(w.script, FollowupConsumed(f), r.value.rest.script)
              && w.answers == TypedLines(f) + r.value.rest.answers
    ensures autoYes ==> r != Err(EndOfInput)
  {
    if update.code == 0 then
      match Run(w)
      case Err(e) => Err(e)
      case Ok(v) =>
        FitsRevised(autoYes, update, v.out);
        Ok(Next(Revised(v.out), v.rest))
    else if OverwriteError(update.stderr) then
      var r := Recover(autoYes, update, w);
      if r.Ok? then
        FitsRecovered(autoYes, update, w, r.value);
        r
      else r
    else if HasDetachedMarker(update.stderr) then
      match Run(w)
      case Err(e) => Err(e)
      case Ok(f) =>
        FitsDetached(autoYes, update, f.out);
        Ok(Next(DetachedFetch(f.out), f.rest))
    else
      FitsUnrecognised(autoYes, update);
      Ok(Next(Unrecognised, w))
  }

  lemma FitsRevised(autoYes: bool, u: Outcome, v: Outcome)
    requires u.code == 0
    ensures FollowupFits(autoYes, u, Revised(v))
  {
  }

  lemma FitsRecovered(autoYes: bool, u: Outcome, w: World, n: Next)
    requires u.code != 0 && OverwriteError(u.stderr)
    requires RecoveryFits(autoYes, u, w, n)
    ensures FollowupFits(autoYes, u, n.followup)
  {
  }

  lemma FitsDetached(autoYes: bool, u: Outcome, o: Outcome)
    requires u.code != 0 && !OverwriteError(u.stderr) && HasDetachedMarker(u.stderr)
    ensures FollowupFits(autoYes, u, DetachedFetch(o))
  {
  }

  lemma FitsUnrecognised(autoYes: bool, u: Outcome)
    requires u.code != 0 && !OverwriteError(u.stderr) && !HasDetachedMarker(u.stderr)
    ensures FollowupFits(autoYes, u, Unrecognised)
  {
  }

  // ---------------------------------------------------------------------
  // Attempts

  /** The record of one attempt: the branch probe, the update command it
      selected and its outcome, and what followed. */
  datatype Attempt = Attempt(probe: Outcome, command: Command, update: Outcome, followup: Followup)

  /** The outcomes an attempt took from the script, in order. */
  function Consumed(a: Attempt): seq<Outcome>
  {
    [a.probe, a.update] + FollowupConsumed(a.followup)
  }

  /** The discard succeeded, so another attempt follows. */
  predicate Retries(a: Attempt)
  {
    a.followup.Reset? && Contains(a.followup.reset.stdout, HeadReset)
  }

  /** The user was asked whether to discard local changes. */
  predicate Asked(a: Attempt)
  {
    FollowupAsked(a.followup)
  }

  /** The rules an attempt follows: the probe selects the update command,
      and exactly one followup fits the update's outcome. */
  predicate Classified(autoYes: bool, a: Attempt)
  {
    a.command == UpdateCommand(a.probe.stdout) && FollowupFits(autoYes, a.update, a.followup)
  }

  /** An attempt and what is left of the world after it. */
  datatype Turn = Turn(attempt: Attempt, rest: World)

  /** One attempt of `update_repo`, up to (not including) the retry. */
  function RunAttempt(autoYes: bool, w: World): (r: Result<Turn, Stop>)
    ensures r.Ok? ==> TurnFits(autoYes, w, r.value)
    ensures autoYes ==> r != Err(EndOfInput)
  {
    match Run(w)
    case Err(e) => Err(e)
    case Ok(p) =>
      match Run(p.rest)
      case Err(e) => Err(e)
      case Ok(u) =>
        match AfterUpdate(autoYes, u.out, u.rest)
        case Err(e) => Err(e)
        case Ok(n) =>
          var attempt := Attempt(p.out, UpdateCommand(p.out.stdout), u.out, n.followup);
          assert FollowupFits(autoYes, attempt.update, attempt.followup);
          ConsumedSplit(w.script, attempt, n.rest.script);
          Ok(Turn(attempt, n.rest))
  }

  /** The probe and the update come first in the script, then what followed. */
  lemma ConsumedSplit(script: seq<Outcome>, a: Attempt, rest: seq<Outcome>)
    requires |script| >= 2 && script[0] == a.probe && script[1] == a.update
    requires ScriptSplit(script[1..][1..], FollowupConsumed(a.followup), rest)
    ensures ScriptSplit(script, Consumed(a), rest)
  {
    assert script == [script[0], script[1]] + script[1..][1..];
  }

  /** Every attempt but the last one retries; the last one does not. */
  predicate RetryChain(attempts: seq<Attempt>)
  {
    && |attempts| >= 1
    && (forall k | 0 <= k < |attempts| - 1 :: Retries(attempts[k]))
    && !Retries(attempts[|attempts| - 1])
  }

  /** Every attempt follows the rules. */
  predicate AllClassified(autoYes: bool, attempts: seq<Attempt>)
  {
    forall k | 0 <= k < |attempts| :: Classified(autoYes, attempts[k])
  }

  /** No attempt asked the user anything. */
  predicate NoneAsked(attempts: seq<Attempt>)
  {
    forall k | 0 <= k < |attempts| :: !Asked(attempts[k])
  }

  /** The outcomes a sequence of attempts took from the script. */
  function AllConsumed(attempts: seq<Attempt>): seq<Outcome>
  {
    if |attempts| == 0 then [] else Consumed(attempts[0]) + AllConsumed(attempts[1..])
  }

  /** An attempt that retries, put in front of the attempts of the retry,
      keeps the retry chain. */
  lemma RetryInFront(a: Attempt, rest: seq<Attempt>)
    requires Retries(a) && RetryChain(rest)
    ensures RetryChain([a] + rest)
    ensures AllConsumed([a] + rest) == Consumed(a) + AllConsumed(rest)
    ensures AllTyped([a] + rest) == TypedLines(a.followup) + AllTyped(rest)
  {
    var all := [a] + rest;
    assert all[1..] == rest;
    assert forall k | 1 <= k < |all| :: all[k] == rest[k - 1];
  }

  /** An attempt following the rules, put in front of attempts that do. */
  lemma ClassifiedInFront(autoYes: bool, a: Attempt, rest: seq<Attempt>)
    requires Classified(autoYes, a) && AllClassified(autoYes, rest)
    ensures AllClassified(autoYes, [a] + rest)
  {
    var all := [a] + rest;
    forall k | 0 <= k < |all|
      ensures Classified(autoYes, all[k])
    {
      if k > 0 {
        assert all[k] == rest[k - 1];
      }
    }
  }

  /** An attempt that asked nothing, put in front of attempts that asked
      nothing. */
  lemma UnaskedInFront(a: Attempt, rest: seq<Attempt>)
    ensures !Asked(a) && NoneAsked(rest) ==> NoneAsked([a] + rest)
  {
    var all := [a] + rest;
    assert forall k | 1 <= k < |all| :: all[k] == rest[k - 1];
  }

  /** The attempts and what is left of the world after them. */
  datatype Trace = Trace(attempts: seq<Attempt>, rest: World)

  /** What a trace of attempts made in world `w` keeps to: every attempt
      but the last retried and the last did not, every attempt followed the
      rules, the attempts took consecutive outcomes from the start of the
      script, the lines each attempt read at the prompt are consecutive
      lines from the start of the input, and with automatic confirmation
      nothing was asked and no line read. */
  predicate TraceFits(autoYes: bool, w: World, t: Trace)
  {
    && RetryChain(t.attempts) && AllClassified(autoYes, t.attempts)
    && ScriptSplit(w.script, AllConsumed(t.attempts), t.rest.script)
    && w.answers == AllTyped(t.attempts) + t.rest.answers
    && (autoYes ==> t.rest.answers == w.answers && NoneAsked(t.attempts))
  }

  /** What one attempt made in world `w` keeps to. */
  predicate TurnFits(autoYes: bool, w: World, t: Turn)
  {
    && Classified(autoYes, t.attempt)
    && ScriptSplit(w.script, Consumed(t.attempt), t.rest.script)
    && w.answers == TypedLines(t.attempt.followup) + t.rest.answers
  }

  /** The decisions of `update_repo`: attempts are made until one does not
      end in a successful discard of local changes. Each attempt consumes
      outcomes of the script, so the retries end with it. */
  function Attempts(autoYes: bool, w: World): (r: Result<Trace, Stop>)
    ensures r.Ok? ==> TraceFits(autoYes, w, r.value)
    ensures autoYes ==> r != Err(EndOfInput)
    decreases |w.script|
  {
    match RunAttempt(autoYes, w)
    case Err(e) => Err(e)
    case Ok(t) =>
      assert TurnFits(autoYes, w, t);
      if !Retries(t.attempt) then
        LastAttemptFits(autoYes, w, t);
        Ok(Trace([t.attempt], t.rest))
      else
        match Attempts(autoYes, t.rest)
        case Err(e) => Err(e)
        case Ok(inner) =>
          RetryFits(autoYes, w, t, inner);
          Ok(Trace([t.attempt] + inner.attempts, inner.rest))
  }

  /** An attempt that does not retry is a whole trace. */
  lemma LastAttemptFits(autoYes: bool, w: World, t: Turn)
    requires TurnFits(autoYes, w, t) && !Retries(t.attempt)
    requires autoYes ==> !Asked(t.attempt)
    ensures TraceFits(autoYes, w, Trace([t.attempt], t.rest))
  {
    SingleAttempt(t.attempt);
    ClassifiedInFront(autoYes, t.attempt, []);
    assert [t.attempt] == [t.attempt] + [];
  }

  lemma SingleAttempt(a: Attempt)
    ensures AllConsumed([a]) == Consumed(a)
    ensures AllTyped([a]) == TypedLines(a.followup)
  {
    assert AllConsumed([a]) == Consumed(a) + AllConsumed([]);
    assert AllTyped([a]) == TypedLines(a.followup) + AllTyped([]);
  }

  /** An attempt that retries, followed by the trace of the retry, is a
      trace. */
  lemma RetryFits(autoYes: bool, w: World, t: Turn, inner: Trace)
    requires TurnFits(autoYes, w, t) && Retries(t.attempt)
    requires autoYes ==> !Asked(t.attempt)
    requires TraceFits(autoYes, t.rest, inner)
    ensures TraceFits(autoYes, w, Trace([t.attempt] + inner.attempts, inner.rest))
  {
    RetryInFront(t.attempt, inner.attempts);
    ClassifiedInFront(autoYes, t.attempt, inner.attempts);
    UnaskedInFront(t.attempt, inner.attempts);
    ScriptSplitChain(w.script, Consumed(t.attempt), t.rest.script, AllConsumed(inner.attempts), inner.rest.script);
    AnswersChain(w.answers, TypedLines(t.attempt.followup), t.rest.answers, AllTyped(inner.attempts), inner.rest.answers);
  }

  lemma ScriptSplitChain(script: seq<Outcome>, a: seq<Outcome>, mid: seq<Outcome>, b: seq<Outcome>, rest: seq<Outcome>)
    requires ScriptSplit(script, a, mid) && ScriptSplit(mid, b, rest)
    ensures ScriptSplit(script, a + b, rest)
  {
    assert script == (a + b) + rest;
  }

  lemma AnswersChain(answers: seq<string>, a: seq<string>, mid: seq<string>, b: seq<string>, rest: seq<string>)
    requires answers == a + mid && mid == b + rest
    ensures answers == (a + b) + rest
  {
  }

  /** The lines the prompt read across a sequence of attempts, in order. */
  function AllTyped(attempts: seq<Attempt>): seq<string>
  {
    if |attempts| == 0 then [] else TypedLines(attempts[0].followup) + AllTyped(attempts[1..])
  }

  lemma {:induction false} AllTypedAppend(xs: seq<Attempt>, ys: seq<Attempt>)
    ensures AllTyped(xs + ys) == AllTyped(xs) + AllTyped(ys)
    decreases |xs|
  {
    if |xs| == 0 {
      assert xs + ys == ys;
    } else {
      assert (xs + ys)[1..] == xs[1..] + ys;
      AllTypedAppend(xs[1..], ys);
    }
  }

  /** Where the prompt asked, the input from that point on decides: the
      prompt, reading on from there, settles on the answer that chose
      between refusing and discarding. */
  lemma DecisionFromInput(f: Followup, answers: seq<string>, rest: seq<string>)
    requires AnswerDecides(f) && FollowupAsked(f)
    requires answers == TypedLines(f) + rest
    ensures Prompt.Question(answers) == Some(Prompt.Answer(f.Reset?, |TypedLines(f)|))
  {
    Prompt.QuestionIgnoresLater(TypedLines(f), rest);
  }

  /** The input as it stands when attempt `k` of a trace starts: what
      that attempt and the later ones read, then what is never read. */
  function InputAt(t: Trace, k: nat): seq<string>
    requires k <= |t.attempts|
  {
    AllTyped(t.attempts[k..]) + t.rest.answers
  }

  /** The attempts before `k` read the input up to where attempt `k` starts. */
  lemma InputAtSplits(answers: seq<string>, t: Trace, k: nat)
    requires answers == AllTyped(t.attempts) + t.rest.answers && k <= |t.attempts|
    ensures answers == AllTyped(t.attempts[..k]) + InputAt(t, k)
  {
    var pre, suf := AllTyped(t.attempts[..k]), AllTyped(t.attempts[k..]);
    assert t.attempts == t.attempts[..k] + t.attempts[k..];
    AllTypedAppend(t.attempts[..k], t.attempts[k..]);
    assert answers == (pre + suf) + t.rest.answers;
  }

  /** In every attempt that asked, the answer the prompt settles on when it
      reads the input left by the earlier attempts decides between refusing
      (a "no") and discarding local changes (a "yes"). */
  lemma EachDecisionFromInput(autoYes: bool, w: World, t: Trace, k: nat)
    requires TraceFits(autoYes, w, t)
    requires k < |t.attempts| && Asked(t.attempts[k])
    ensures w.answers == AllTyped(t.attempts[..k]) + InputAt(t, k)
    ensures var f := t.attempts[k].followup;
            Prompt.Question(InputAt(t, k)) == Some(Prompt.Answer(f.Reset?, |TypedLines(f)|))
  {
    assert Classified(autoYes, t.attempts[k]);
    DecisionAt(w.answers, t, k);
  }

  lemma DecisionAt(answers: seq<string>, t: Trace, k: nat)
    requires answers == AllTyped(t.attempts) + t.rest.answers
    requires k < |t.attempts| && Asked(t.attempts[k]) && AnswerDecides(t.attempts[k].followup)
    ensures answers == AllTyped(t.attempts[..k]) + InputAt(t, k)
    ensures var f := t.attempts[k].followup;
            Prompt.Question(InputAt(t, k)) == Some(Prompt.Answer(f.Reset?, |TypedLines(f)|))
  {
    InputAtSplits(answers, t, k);
    InputAtStep(t, k);
    DecisionFromInput(t.attempts[k].followup, InputAt(t, k), InputAt(t, k + 1));
  }

  /** Attempt `k` reads its lines first, leaving the input of attempt `k + 1`. */
  lemma InputAtStep(t: Trace, k: nat)
    requires k < |t.attempts|
    ensures InputAt(t, k) == TypedLines(t.attempts[k].followup) + InputAt(t, k + 1)
  {
    var tail := t.attempts[k..];
    assert tail[0] == t.attempts[k] && tail[1..] == t.attempts[k + 1..];
    assert AllTyped(tail) == TypedLines(t.attempts[k].followup) + AllTyped(tail[1..]);
  }

  // ---------------------------------------------------------------------
  // Every fitting trace is the one the updater produces

  /** Whatever followup fits an update's outcome and the world it meets is
      what the updater does next: it does not stop early. */
  lemma AfterUpdateComplete(autoYes: bool, update: Outcome, w: World, n: Next)
    requires FollowupFits(autoYes, update, n.followup)
    requires ScriptSplit(w.script, FollowupConsumed(n.followup), n.rest.script)
    requires w.answers == TypedLines(n.followup) + n.rest.answers
    ensures AfterUpdate(autoYes, update, w) == Ok(n)
  {
    match n.followup
    case Revised(v) =>
      assert w.answers == n.rest.answers;
      AfterRevised(autoYes, update, w, n);
    case Declined(read) =>
      RecoverDeclined(autoYes, update, w, n);
    case Reset(read, command, o) =>
      RecoverReset(autoYes, update, w, n);
    case DetachedFetch(fetch) =>
      assert w.answers == n.rest.answers;
      AfterDetached(autoYes, update, w, n);
    case Unrecognised =>
      assert n.rest.script == w.script && n.rest.answers == w.answers;
  }

  lemma AfterRevised(autoYes: bool, update: Outcome, w: World, n: Next)
    requires n.followup.Revised? && update.code == 0
    requires w.script == [n.followup.revParse] + n.rest.script && w.answers == n.rest.answers
    ensures AfterUpdate(autoYes, update, w) == Ok(n)
  {
    assert w.script[1..] == n.rest.script;
  }

  lemma AfterDetached(autoYes: bool, update: Outcome, w: World, n: Next)
    requires n.followup.DetachedFetch? && FollowupFits(autoYes, update, n.followup)
    requires w.script == [n.followup.fetch] + n.rest.script && w.answers == n.rest.answers
    ensures AfterUpdate(autoYes, update, w) == Ok(n)
  {
    assert w.script[1..] == n.rest.script;
  }

  lemma RecoverDeclined(autoYes: bool, update: Outcome, w: World, n: Next)
    requires n.followup.Declined? && FollowupFits(autoYes, update, n.followup)
    requires w.script == n.rest.script
    requires w.answers == n.followup.read + n.rest.answers
    ensures Recover(autoYes, update, w) == Ok(n)
  {
    var read := n.followup.read;
    Prompt.QuestionIgnoresLater(read, n.rest.answers);
    assert w.answers[..|read|] == read && w.answers[|read|..] == n.rest.answers;
    assert Confirm(autoYes, w.answers) == Ok(Confirmation(false, read, n.rest.answers));
  }

  lemma RecoverReset(autoYes: bool, update: Outcome, w: World, n: Next)
    requires n.followup.Reset? && FollowupFits(autoYes, update, n.followup)
    requires w.script == [n.followup.reset] + n.rest.script
    requires w.answers == n.followup.read + n.rest.answers
    ensures Recover(autoYes, update, w) == Ok(n)
  {
    var read := n.followup.read;
    if autoYes {
      assert read == [];
      assert Confirm(autoYes, w.answers) == Ok(Confirmation(true, [], n.rest.answers));
    } else {
      Prompt.QuestionIgnoresLater(read, n.rest.answers);
      assert w.answers[..|read|] == read && w.answers[|read|..] == n.rest.answers;
      assert Confirm(autoYes, w.answers) == Ok(Confirmation(true, read, n.rest.answers));
    }
    assert w.script[1..] == n.rest.script;
  }

  /** Whatever attempt fits the world it meets is the attempt the updater
      makes. */
  lemma RunAttemptComplete(autoYes: bool, w: World, t: Turn)
    requires TurnFits(autoYes, w, t)
    ensures RunAttempt(autoYes, w) == Ok(t)
  {
    var a := t.attempt;
    var after := World(w.script[2..], w.answers);
    assert w.script == [a.probe, a.update] + (FollowupConsumed(a.followup) + t.rest.script);
    assert after.script == FollowupConsumed(a.followup) + t.rest.script;
    AfterUpdateComplete(autoYes, a.update, after, Next(a.followup, t.rest));
    assert w.script[1..][1..] == after.script;
  }

  /** Attempts that asked nothing read nothing. */
  lemma {:induction false} UnaskedReadNothing(attempts: seq<Attempt>)
    requires NoneAsked(attempts)
    ensures AllTyped(attempts) == []
    decreases |attempts|
  {
    if |attempts| > 0 {
      assert !Asked(attempts[0]);
      assert forall k | 0 <= k < |attempts| - 1 :: attempts[1..][k] == attempts[k + 1];
      UnaskedReadNothing(attempts[1..]);
    }
  }

  /** The attempts after the first of a fitting trace fit the world the
      first one leaves. */
  lemma TraceTailFits(autoYes: bool, w: World, t: Trace)
    requires TraceFits(autoYes, w, t) && |t.attempts| > 1
    ensures var a := t.attempts[0];
            var mid := World(AllConsumed(t.attempts[1..]) + t.rest.script, AllTyped(t.attempts[1..]) + t.rest.answers);
            && TurnFits(autoYes, w, Turn(a, mid))
            && TraceFits(autoYes, mid, Trace(t.attempts[1..], t.rest))
            && Retries(a)
  {
    var a, tail := t.attempts[0], t.attempts[1..];
    FrontSplit(t.attempts);
    TailRules(autoYes, t.attempts);
    FrontTurnFits(autoYes, w, a, AllConsumed(tail), AllTyped(tail), t.rest);
    if autoYes {
      UnaskedReadNothing(tail);
    }
  }

  lemma FrontTurnFits(autoYes: bool, w: World, a: Attempt, taken: seq<Outcome>, typed: seq<string>, rest: World)
    requires Classified(autoYes, a)
    requires w.script == (Consumed(a) + taken) + rest.script
    requires w.answers == (TypedLines(a.followup) + typed) + rest.answers
    ensures TurnFits(autoYes, w, Turn(a, World(taken + rest.script, typed + rest.answers)))
  {
    Associative(Consumed(a), taken, rest.script);
    Associative(TypedLines(a.followup), typed, rest.answers);
  }

  lemma Associative<T>(a: seq<T>, b: seq<T>, c: seq<T>)
    ensures (a + b) + c == a + (b + c)
  {
  }

  /** What the first attempt took, then what the others took. */
  lemma FrontSplit(attempts: seq<Attempt>)
    requires |attempts| >= 1
    ensures AllConsumed(attempts) == Consumed(attempts[0]) + AllConsumed(attempts[1..])
    ensures AllTyped(attempts) == TypedLines(attempts[0].followup) + AllTyped(attempts[1..])
  {
  }

  /** The attempts of a retry chain after its first keep the rules. */
  lemma TailRules(autoYes: bool, attempts: seq<Attempt>)
    requires RetryChain(attempts) && AllClassified(autoYes, attempts) && |attempts| > 1
    ensures Retries(attempts[0]) && Classified(autoYes, attempts[0])
    ensures RetryChain(attempts[1..]) && AllClassified(autoYes, attempts[1..])
    ensures NoneAsked(attempts) ==> !Asked(attempts[0]) && NoneAsked(attempts[1..])
  {
    TailIndex(attempts);
    TailChain(attempts);
    TailClassified(autoYes, attempts);
    TailUnasked(attempts);
  }

  lemma TailIndex(attempts: seq<Attempt>)
    requires |attempts| >= 1
    ensures forall k | 0 <= k < |attempts| - 1 :: attempts[1..][k] == attempts[k + 1]
  {
  }

  lemma TailChain(attempts: seq<Attempt>)
    requires RetryChain(attempts) && |attempts| > 1
    requires forall k | 0 <= k < |attempts| - 1 :: attempts[1..][k] == attempts[k + 1]
    ensures Retries(attempts[0]) && RetryChain(attempts[1..])
  {
  }

  lemma TailClassified(autoYes: bool, attempts: seq<Attempt>)
    requires AllClassified(autoYes, attempts) && |attempts| > 1
    requires forall k | 0 <= k < |attempts| - 1 :: attempts[1..][k] == attempts[k + 1]
    ensures Classified(autoYes, attempts[0]) && AllClassified(autoYes, attempts[1..])
  {
  }

  lemma TailUnasked(attempts: seq<Attempt>)
    requires |attempts| > 1
    requires forall k | 0 <= k < |attempts| - 1 :: attempts[1..][k] == attempts[k + 1]
    ensures NoneAsked(attempts) ==> !Asked(attempts[0]) && NoneAsked(attempts[1..])
  {
  }

  /** A fitting trace of one attempt leaves the world its attempt leaves. */
  lemma TraceHeadFits(autoYes: bool, w: World, t: Trace)
    requires TraceFits(autoYes, w, t) && |t.attempts| == 1
    ensures TurnFits(autoYes, w, Turn(t.attempts[0], t.rest))
    ensures !Retries(t.attempts[0]) && t.attempts == [t.attempts[0]]
  {
    assert t.attempts == [t.attempts[0]];
    SingleAttempt(t.attempts[0]);
    assert Classified(autoYes, t.attempts[0]);
  }

  /** Whatever trace fits a world is the trace the updater produces. */
  lemma {:induction false} AttemptsComplete(autoYes: bool, w: World, t: Trace)
    requires TraceFits(autoYes, w, t)
    ensures Attempts(autoYes, w) == Ok(t)
    decreases |t.attempts|
  {
    var a := t.attempts[0];
    if |t.attempts| == 1 {
      TraceHeadFits(autoYes, w, t);
      RunAttemptComplete(autoYes, w, Turn(a, t.rest));
      LastStep(autoYes, w, Turn(a, t.rest));
    } else {
      var tail := t.attempts[1..];
      var mid := World(AllConsumed(tail) + t.rest.script, AllTyped(tail) + t.rest.answers);
      TraceTailFits(autoYes, w, t);
      RunAttemptComplete(autoYes, w, Turn(a, mid));
      AttemptsComplete(autoYes, mid, Trace(tail, t.rest));
      RetryStep(autoYes, w, Turn(a, mid), Trace(tail, t.rest));
      HeadAndTail(t.attempts);
    }
  }

  lemma LastStep(autoYes: bool, w: World, t: Turn)
    requires RunAttempt(autoYes, w) == Ok(t) && !Retries(t.attempt)
    ensures Attempts(autoYes, w) == Ok(Trace([t.attempt], t.rest))
  {
  }

  lemma RetryStep(autoYes: bool, w: World, t: Turn, inner: Trace)
    requires RunAttempt(autoYes, w) == Ok(t) && Retries(t.attempt)
    requires Attempts(autoYes, t.rest) == Ok(inner)
    ensures Attempts(autoYes, w) == Ok(Trace([t.attempt] + inner.attempts, inner.rest))
  {
  }

  lemma HeadAndTail<T>(xs: seq<T>)
    requires |xs| >= 1
    ensures [xs[0]] + xs[1..] == xs
  {
  }

  /** Whatever trace fits a world, `update_repo` returns the result
      computed from it: it does not stop. */
  lemma UpdateRepoComplete(root: string, autoYes: bool, verbose: bool, w: World, t: Trace)
    requires TraceFits(autoYes, w, t)
    ensures UpdateRepo(root, autoYes, verbose, w) == Ok(Session(Finish(root, verbose, t.attempts), t.attempts, t.rest))
  {
    AttemptsComplete(autoYes, w, t);
  }

  // ---------------------------------------------------------------------
  // The report

  /** The report lines of one attempt. */
  function AttemptLines(root: string, verbose: bool, a: Attempt): (lines: seq<Line>)
    ensures |lines| >= 2 && lines[0] == Checking(root, verbose)
    ensures lines[1] == Problem <==> !a.followup.Revised?
    ensures lines[|lines| - 1] == FinalLine(verbose, a.update, a.followup)
  {
    [Checking(root, verbose)] + FollowupLines(verbose, a.update, a.followup)
  }

  /** The report lines after the header: the status line after a success;
      otherwise the failure, then what was done about it. */
  function FollowupLines(verbose: bool, update: Outcome, f: Followup): (lines: seq<Line>)
    ensures |lines| >= 1
    ensures lines[0] == Problem <==> !f.Revised?
    ensures lines[|lines| - 1] == FinalLine(verbose, update, f)
  {
    match f
    case Revised(v) => [StatusOf(update.stdout, v.stdout)]
    case Declined(_) => [Problem, OverwriteNotice, Skipped]
    case Reset(_, _, o) =>
      [Problem, OverwriteNotice] + (if Contains(o.stdout, HeadReset) then [ResetNotice, RetryNotice] else [Unable])
    case DetachedFetch(fetch) =>
      [Problem, DetachedNotice, Fetched] + FetchDetail(verbose, fetch) + StderrDetail(verbose, update.stderr)
    case Unrecognised =>
      [Problem, Install] + StderrDetail(verbose, update.stderr)
  }

  /** With `verbose`, git's error output closes the report. */
  function StderrDetail(verbose: bool, stderr: string): (lines: seq<Line>)
    ensures forall k | 0 <= k < |lines| :: lines[k].Output?
    ensures |lines| > 0 <==> verbose
  {
    if verbose then [Output(stderr)] else []
  }

  /** With `verbose`, the output of the bare fetch, its error output only
      when that is not blank. */
  function FetchDetail(verbose: bool, fetch: Outcome): (lines: seq<Line>)
    ensures forall k | 0 <= k < |lines| :: lines[k].Output?
    ensures |lines| > 0 <==> verbose
  {
    if !verbose then []
    else [Output(fetch.stdout)] + (if Strip(fetch.stderr) != "" then [Output(fetch.stderr)] else [])
  }

  /** The line a report ends with, read off the update's outcome and what
      followed it. */
  function FinalLine(verbose: bool, update: Outcome, f: Followup): Line
  {
    match f
    case Revised(v) => StatusOf(update.stdout, v.stdout)
    case Declined(_) => Skipped
    case Reset(_, _, o) => if Contains(o.stdout, HeadReset) then RetryNotice else Unable
    case DetachedFetch(_) => if verbose then Output(update.stderr) else Fetched
    case Unrecognised => if verbose then Output(update.stderr) else Install
  }

  /** `"\n".join(results)`: the texts of the lines, a line break between
      each two. */
  function Message(lines: seq<Line>): string
    decreases |lines|
  {
    if |lines| == 0 then ""
    else if |lines| == 1 then Render(lines[0])
    else Render(lines[0]) + "\n" + Message(lines[1..])
  }

  /** The message is Python's `"\n".join` of the lines' texts. */
  lemma {:induction false} MessageIsJoin(lines: seq<Line>)
    ensures Message(lines) == Join(Texts(lines), "\n")
    decreases |lines|
  {
    if |lines| > 1 {
      MessageIsJoin(lines[1..]);
      assert Texts(lines)[1..] == Texts(lines[1..]);
    }
  }

  /** The report of a sequence of attempts: the first attempt's lines, then
      the message of the retry as one more line. */
  function Report(root: string, verbose: bool, attempts: seq<Attempt>): (lines: seq<Line>)
    requires |attempts| >= 1
    ensures |lines| >= 2 && lines[0] == Checking(root, verbose)
    decreases |attempts|
  {
    AttemptLines(root, verbose, attempts[0])
    + if |attempts| == 1 then [] else [Nested(Message(Report(root, verbose, attempts[1..])))]
  }

  /** The success flag: a retry's flag replaces the attempt's own. */
  function Succeeded(attempts: seq<Attempt>): bool
    requires |attempts| >= 1
    decreases |attempts|
  {
    if |attempts| > 1 && Retries(attempts[0]) then Succeeded(attempts[1..])
    else attempts[0].update.code == 0
  }

  // ---------------------------------------------------------------------
  // update_repo

  /** The update command of the last attempt exited with status 0. */
  predicate LastUpdated(attempts: seq<Attempt>)
  {
    |attempts| >= 1 && attempts[|attempts| - 1].update.code == 0
  }

  /** `(repo_path, success, message)`, with the message kept as its lines. */
  datatype UpdateResult = UpdateResult(path: string, success: bool, lines: seq<Line>)

  /** A finished update: its result, the attempts made, and what is left. */
  datatype Session = Session(result: UpdateResult, attempts: seq<Attempt>, rest: World)

  /** The result `update_repo` returns after its attempts: the path it was
      given, the flag of the last attempt (the retry's flag replaces the
      attempt's own), and the report, which starts with the header and ends
      with the last line of the last attempt. */
  function Finish(root: string, verbose: bool, attempts: seq<Attempt>): (result: UpdateResult)
    requires RetryChain(attempts)
    ensures result.path == root
    ensures result.success <==> LastUpdated(attempts)
    ensures StartsWith(Message(result.lines), Render(Checking(root, verbose)))
    ensures var last := attempts[|attempts| - 1];
            EndsWith(Message(result.lines), Render(FinalLine(verbose, last.update, last.followup)))
  {
    SucceededMeansLastSucceeded(attempts);
    MessageStartsWithHeader(root, verbose, attempts);
    MessageEndsWithFinalLine(root, verbose, attempts);
    UpdateResult(root, Succeeded(attempts), Report(root, verbose, attempts))
  }

  /** `update_repo(root, auto_yes, verbose)`: the attempts, then the
      result, which names `root` and succeeds exactly when the last
      attempt's update did. */
  function UpdateRepo(root: string, autoYes: bool, verbose: bool, w: World): (r: Result<Session, Stop>)
    ensures r.Ok? ==> TraceFits(autoYes, w, Trace(r.value.attempts, r.value.rest))
    ensures r.Ok? ==> r.value.result.path == root
    ensures r.Ok? ==> (r.value.result.success <==> LastUpdated(r.value.attempts))
    ensures r.Ok? ==> r.value.result == Finish(root, verbose, r.value.attempts)
    ensures r.Ok? ==> MessageFits(root, verbose, r.value.attempts, r.value.result)
    ensures autoYes ==> r != Err(EndOfInput)
  {
    match Attempts(autoYes, w)
    case Err(e) => Err(e)
    case Ok(t) =>
      var result := Finish(root, verbose, t.attempts);
      assert result.success <==> LastUpdated(t.attempts);
      assert MessageFits(root, verbose, t.attempts, result);
      Ok(Session(result, t.attempts, t.rest))
  }

  /** The message of a result starts with the first attempt's header and
      ends with the last line of the last attempt. */
  predicate MessageFits(root: string, verbose: bool, attempts: seq<Attempt>, result: UpdateResult)
  {
    && |attempts| >= 1
    && StartsWith(Message(result.lines), Render(Checking(root, verbose)))
    && var last := attempts[|attempts| - 1];
       EndsWith(Message(result.lines), Render(FinalLine(verbose, last.update, last.followup)))
  }

  /** Along a retry chain, the flag is that of the last attempt's update. */
  lemma {:induction false} SucceededMeansLastSucceeded(attempts: seq<Attempt>)
    requires RetryChain(attempts)
    ensures Succeeded(attempts) <==> LastUpdated(attempts)
    decreases |attempts|
  {
    if |attempts| > 1 {
      assert Retries(attempts[0]);
      var rest := attempts[1..];
      assert rest[|rest| - 1] == attempts[|attempts| - 1];
      assert forall k | 0 <= k < |rest| - 1 :: rest[k] == attempts[k + 1];
      SucceededMeansLastSucceeded(rest);
    }
  }

  /** The message starts with the header of the first attempt. */
  lemma MessageStartsWithHeader(root: string, verbose: bool, attempts: seq<Attempt>)
    requires |attempts| >= 1
    ensures StartsWith(Message(Report(root, verbose, attempts)), Render(Checking(root, verbose)))
  {
    MessageStartsWithFirstLine(Report(root, verbose, attempts));
  }

  /** A message starts with the text of its first line. */
  lemma MessageStartsWithFirstLine(lines: seq<Line>)
    requires |lines| >= 1
    ensures StartsWith(Message(lines), Render(lines[0]))
  {
    var first := Render(lines[0]);
    if |lines| > 1 {
      assert Message(lines)[..|first|] == first;
    }
  }

  /** The message ends with the last line of the last attempt: the retry's
      message is nested as the last line of each earlier attempt. */
  lemma {:induction false} MessageEndsWithFinalLine(root: string, verbose: bool, attempts: seq<Attempt>)
    requires |attempts| >= 1
    ensures var last := attempts[|attempts| - 1];
            EndsWith(Message(Report(root, verbose, attempts)), Render(FinalLine(verbose, last.update, last.followup)))
    decreases |attempts|
  {
    if |attempts| == 1 {
      SingleReportEnds(root, verbose, attempts);
    } else {
      var last := attempts[|attempts| - 1];
      var rest := attempts[1..];
      assert rest[|rest| - 1] == last;
      MessageEndsWithFinalLine(root, verbose, rest);
      NestedReportEnds(root, verbose, attempts, Render(FinalLine(verbose, last.update, last.followup)));
    }
  }

  /** The report of a single attempt ends with that attempt's last line. */
  lemma SingleReportEnds(root: string, verbose: bool, attempts: seq<Attempt>)
    requires |attempts| == 1
    ensures EndsWith(Message(Report(root, verbose, attempts)),
                     Render(FinalLine(verbose, attempts[0].update, attempts[0].followup)))
  {
    ReportLastLine(root, verbose, attempts);
    MessageEndsWithLine(Report(root, verbose, attempts), FinalLine(verbose, attempts[0].update, attempts[0].followup));
  }

  /** A message ends with the text of the line it ends with. */
  lemma MessageEndsWithLine(lines: seq<Line>, last: Line)
    requires |lines| >= 1 && lines[|lines| - 1] == last
    ensures EndsWith(Message(lines), Render(last))
  {
    MessageEndsWithLastLine(lines);
  }

  /** Whatever the retry's message ends with, the whole message ends with. */
  lemma NestedReportEnds(root: string, verbose: bool, attempts: seq<Attempt>, target: string)
    requires |attempts| > 1
    requires EndsWith(Message(Report(root, verbose, attempts[1..])), target)
    ensures EndsWith(Message(Report(root, verbose, attempts)), target)
  {
    var lines := Report(root, verbose, attempts);
    var inner := Message(Report(root, verbose, attempts[1..]));
    ReportLastLine(root, verbose, attempts);
    MessageEndsWithLine(lines, Nested(inner));
    EndsWithTransitive(Message(lines), inner, target);
  }

  /** A message ends with the text of its last line. */
  lemma {:induction false} MessageEndsWithLastLine(lines: seq<Line>)
    requires |lines| >= 1
    ensures EndsWith(Message(lines), Render(lines[|lines| - 1]))
    decreases |lines|
  {
    if |lines| > 1 {
      var rest := lines[1..];
      var last := Render(lines[|lines| - 1]);
      MessageEndsWithLastLine(rest);
      assert rest[|rest| - 1] == lines[|lines| - 1];
      EndsWithAppend(Render(lines[0]) + "\n", Message(rest), last);
    }
  }

  /** The last line of a report: the last line of the only attempt, or the
      nested message of the retry. */
  lemma ReportLastLine(root: string, verbose: bool, attempts: seq<Attempt>)
    requires |attempts| >= 1
    ensures var lines := Report(root, verbose, attempts);
            lines[|lines| - 1] ==
              if |attempts| == 1 then FinalLine(verbose, attempts[0].update, attempts[0].followup)
              else Nested(Message(Report(root, verbose, attempts[1..])))
  {
    var lines := Report(root, verbose, attempts);
    if |attempts| == 1 {
      assert lines == AttemptLines(root, verbose, attempts[0]);
    }
  }

  // ---------------------------------------------------------------------
  // What the verbose flag changes

  /** A line that copies git's output into the report. */
  predicate HasOutput(lines: seq<Line>)
  {
    exists k | 0 <= k < |lines| :: lines[k].Output?
  }

  /** The report as the quiet mode writes it: the header in its quiet form,
      and no copied git output. */
  function Quiet(lines: seq<Line>): (r: seq<Line>)
    ensures !HasOutput(r)
  {
    if |lines| == 0 then []
    else
      var head := match lines[0]
        case Output(_) => []
        case Checking(root, _) => [Checking(root, false)]
        case l => [l];
      head + Quiet(lines[1..])
  }

  lemma {:induction false} QuietAppend(xs: seq<Line>, ys: seq<Line>)
    ensures Quiet(xs + ys) == Quiet(xs) + Quiet(ys)
    decreases |xs|
  {
    if |xs| > 0 {
      assert (xs + ys)[1..] == xs[1..] + ys;
      QuietAppend(xs[1..], ys);
    } else {
      assert xs + ys == ys;
    }
  }

  /** The verbose report of an attempt is the quiet one with git's output
      added: removing the copied output and the header's verbose wording
      gives back the quiet report exactly. */
  lemma VerboseAddsOnlyOutput(root: string, a: Attempt)
    ensures Quiet(AttemptLines(root, true, a)) == AttemptLines(root, false, a)
  {
    var tail := FollowupLines(true, a.update, a.followup);
    QuietAppend([Checking(root, true)], tail);
    FollowupQuiet(a.update, a.followup);
  }

  lemma FollowupQuiet(update: Outcome, f: Followup)
    ensures Quiet(FollowupLines(true, update, f)) == FollowupLines(false, update, f)
  {
    match f
    case DetachedFetch(fetch) => FetchQuiet(update, fetch);
    case Unrecognised => UnrecognisedQuiet(update);
    case _ => QuietKeeps(FollowupLines(true, update, f));
  }

  lemma FetchQuiet(update: Outcome, fetch: Outcome)
    ensures Quiet(FollowupLines(true, update, DetachedFetch(fetch))) ==
              FollowupLines(false, update, DetachedFetch(fetch))
  {
    var fixed := [Problem, DetachedNotice, Fetched];
    var fetched := FetchDetail(true, fetch);
    var failed := StderrDetail(true, update.stderr);
    assert FollowupLines(true, update, DetachedFetch(fetch)) == fixed + (fetched + failed);
    QuietAppend(fixed, fetched + failed);
    QuietKeeps(fixed);
    QuietAppend(fetched, failed);
    QuietDrops(fetched);
    QuietDrops(failed);
  }

  lemma UnrecognisedQuiet(update: Outcome)
    ensures Quiet(FollowupLines(true, update, Unrecognised)) == FollowupLines(false, update, Unrecognised)
  {
    QuietAppend([Problem, Install], StderrDetail(true, update.stderr));
    QuietKeeps([Problem, Install]);
    QuietDrops(StderrDetail(true, update.stderr));
  }

  /** Copied output vanishes from the quiet form. */
  lemma {:induction false} QuietDrops(lines: seq<Line>)
    requires forall k | 0 <= k < |lines| :: lines[k].Output?
    ensures Quiet(lines) == []
    decreases |lines|
  {
    if |lines| > 0 {
      QuietDrops(lines[1..]);
    }
  }

  /** Lines without copied output or a header are their own quiet form. */
  lemma {:induction false} QuietKeeps(lines: seq<Line>)
    requires forall k | 0 <= k < |lines| :: !lines[k].Output? && !lines[k].Checking?
    ensures Quiet(lines) == lines
    decreases |lines|
  {
    if |lines| > 0 {
      QuietKeeps(lines[1..]);
    }
  }

  /** Git's output is copied into an attempt's report only in verbose mode
      and only after a failure other than the overwrite error. */
  lemma OutputOnlyOutsideOverwrite(root: string, verbose: bool, a: Attempt)
    ensures HasOutput(AttemptLines(root, verbose, a)) <==>
              verbose && (a.followup.DetachedFetch? || a.followup.Unrecognised?)
  {
    var lines := AttemptLines(root, verbose, a);
    if verbose && (a.followup.DetachedFetch? || a.followup.Unrecognised?) {
      assert lines[|lines| - 1].Output?;
    }
    if HasOutput(lines) {
      var k :| 0 <= k < |lines| && lines[k].Output?;
    }
  }

  // ---------------------------------------------------------------------
  // How an update ends

  /** A declined prompt ends the update: it fails, and the message ends by
      saying that the update was skipped; with automatic confirmation that
      never happens. */
  lemma DeclinedIsSkipped(root: string, autoYes: bool, verbose: bool, attempts: seq<Attempt>)
    requires RetryChain(attempts) && AllClassified(autoYes, attempts)
    requires attempts[|attempts| - 1].followup.Declined?
    ensures !Succeeded(attempts) && !autoYes
    ensures EndsWith(Message(Report(root, verbose, attempts)), Render(Skipped))
  {
    var last := attempts[|attempts| - 1];
    assert Classified(autoYes, last);
    assert FollowupFits(autoYes, last.update, last.followup);
    assert FinalLine(verbose, last.update, last.followup) == Skipped;
    SucceededMeansLastSucceeded(attempts);
    MessageEndsWithFinalLine(root, verbose, attempts);
  }

  /** A successful update ends its message with the status line naming the
      revision read after the last attempt. */
  lemma SuccessReportsStatus(root: string, autoYes: bool, verbose: bool, attempts: seq<Attempt>)
    requires RetryChain(attempts) && AllClassified(autoYes, attempts)
    requires Succeeded(attempts)
    ensures var last := attempts[|attempts| - 1];
            && last.followup.Revised?
            && EndsWith(Message(Report(root, verbose, attempts)),
                        Render(StatusOf(last.update.stdout, last.followup.revParse.stdout)))
  {
    var last := attempts[|attempts| - 1];
    assert Classified(autoYes, last);
    SucceededMeansLastSucceeded(attempts);
    MessageEndsWithFinalLine(root, verbose, attempts);
  }
}
