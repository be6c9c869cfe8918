/**
 The order in which results are printed.

 In parallel mode the updates finish in any order; `main` collects their
 results in completion order and then, for each repository in the order
 the walk found them, prints the message of the first result whose path
 matches. In sequential mode each message is printed as soon as its
 update returns, followed by an empty `print()`. Each `print` call is
 modelled by the text it is given, without the newline `print` adds.
 */
module Report {

  import opened Wrappers
  import opened Update

  /** The text of `print(f"\n{message}")` for one result. */
  function Shown(result: UpdateResult): (text: string)
    ensures |text| >= 1 && text[0] == '\n'
    ensures text[1..] == Message(result.lines)
  {
    "\n" + Message(result.lines)
  }

  /** The inner loop: the index of the first result for `repo`, where it
      stops with `break`, or `None` when no result matches. */
  function FirstFor(results: seq<UpdateResult>, repo: string): (r: Option<nat>)
    ensures r.None? <==> forall k | 0 <= k < |results| :: results[k].path != repo
    ensures r.Some? ==>
              && r.value < |results| && results[r.value].path == repo
              && forall k | 0 <= k < r.value :: results[k].path != repo
  {
    if |results| == 0 then None
    else if results[0].path == repo then Some(0)
    else
      match FirstFor(results[1..], repo)
      case None => None
      case Some(k) => Some(k + 1)
  }

  /** The prints of parallel mode: for each repository in the order of
      `repos`, the message of the first collected result for it, if any. */
  function ParallelPrints(repos: seq<string>, results: seq<UpdateResult>): (prints: seq<string>)
    ensures |prints| <= |repos|
    ensures (forall i | 0 <= i < |repos| :: FirstFor(results, repos[i]).Some?) ==>
              && |prints| == |repos|
              && forall i | 0 <= i < |repos| :: prints[i] == Shown(results[FirstFor(results, repos[i]).value])
  {
    if |repos| == 0 then []
    else
      var later := ParallelPrints(repos[1..], results);
      assert forall i | 1 <= i < |repos| :: repos[1..][i - 1] == repos[i];
      match FirstFor(results, repos[0])
      case None => later
      case Some(k) => [Shown(results[k])] + later
  }

  /** The positions in `repos`, from `from` on, of the repositories that
      have a result, in increasing order. */
  function WithResult(repos: seq<string>, results: seq<UpdateResult>, from: nat): (r: seq<nat>)
    requires from <= |repos|
    ensures forall j | 0 <= j < |r| :: from <= r[j] < |repos| && FirstFor(results, repos[r[j]]).Some?
    ensures forall j1, j2 | 0 <= j1 < j2 < |r| :: r[j1] < r[j2]
    ensures forall i | from <= i < |repos| && FirstFor(results, repos[i]).Some? :: i in r
    decreases |repos| - from
  {
    if from == |repos| then []
    else (if FirstFor(results, repos[from]).Some? then [from] else []) + WithResult(repos, results, from + 1)
  }

  /** Whichever repositories have a result, parallel mode prints, in the
      order of `repos`, one message for each of them: that of the first
      result whose path is the repository. */
  lemma ParallelPrintsMeaning(repos: seq<string>, results: seq<UpdateResult>)
    ensures var picked := WithResult(repos, results, 0);
            && |ParallelPrints(repos, results)| == |picked|
            && forall j | 0 <= j < |picked| ::
                 ParallelPrints(repos, results)[j] == Shown(results[FirstFor(results, repos[picked[j]]).value])
  {
    PrintsFrom(repos, results, 0);
  }

  lemma {:induction false} PrintsFrom(repos: seq<string>, results: seq<UpdateResult>, from: nat)
    requires from <= |repos|
    ensures var picked := WithResult(repos, results, from);
            && |ParallelPrints(repos[from..], results)| == |picked|
            && forall j | 0 <= j < |picked| ::
                 ParallelPrints(repos[from..], results)[j] == Shown(results[FirstFor(results, repos[picked[j]]).value])
    decreases |repos| - from
  {
    if from < |repos| {
      PrintsFrom(repos, results, from + 1);
      var prints, later := ParallelPrints(repos[from..], results), ParallelPrints(repos[from + 1..], results);
      var picked, next := WithResult(repos, results, from), WithResult(repos, results, from + 1);
      assert repos[from..][1..] == repos[from + 1..];
      assert repos[from..][0] == repos[from];
      match FirstFor(results, repos[from])
      case None =>
        assert prints == later && picked == next;
      case Some(k) =>
        assert prints == [Shown(results[k])] + later;
        assert picked == [from] + next;
        forall j | 1 <= j < |picked|
          ensures prints[j] == Shown(results[FirstFor(results, repos[picked[j]]).value])
        {
          ConsIndex(prints, Shown(results[k]), later, j);
          ConsIndex(picked, from, next, j);
        }
    }
  }

  lemma ConsIndex<T>(xs: seq<T>, x: T, ys: seq<T>, j: nat)
    requires xs == [x] + ys && 1 <= j < |xs|
    ensures xs[j] == ys[j - 1]
  {
  }

  /** The prints of sequential mode, one message and one
      empty `print()` per repository, in the order the updates ran. */
  function SequentialPrints(ordered: seq<UpdateResult>): (prints: seq<string>)
    ensures |prints| == 2 * |ordered|
    ensures forall i | 0 <= i < |ordered| :: prints[2 * i] == Shown(ordered[i]) && prints[2 * i + 1] == ""
  {
    if |ordered| == 0 then []
    else
      var head := Shown(ordered[0]);
      var later := SequentialPrints(ordered[1..]);
      var prints := [head, ""] + later;
      forall i | 1 <= i < |ordered|
        ensures prints[2 * i] == Shown(ordered[i]) && prints[2 * i + 1] == ""
      {
        assert ordered[1..][i - 1] == ordered[i];
        assert 2 * i == 2 * (i - 1) + 2;
      }
      prints
  }

  /** The prints that produce text, dropping the empty ones. */
  function NonEmpty(prints: seq<string>): (r: seq<string>)
    ensures |r| <= |prints|
    ensures forall k | 0 <= k < |r| :: r[k] != ""
  {
    if |prints| == 0 then []
    else if prints[0] == "" then NonEmpty(prints[1..])
    else [prints[0]] + NonEmpty(prints[1..])
  }

  /** No path is listed twice. */
  predicate DistinctPaths(repos: seq<string>)
  {
    forall i, j | 0 <= i < j < |repos| :: repos[i] != repos[j]
  }

  /** `ordered[i]` is the result of updating `repos[i]`. */
  predicate ResultsFor(repos: seq<string>, ordered: seq<UpdateResult>)
  {
    |ordered| == |repos| && forall i | 0 <= i < |repos| :: ordered[i].path == repos[i]
  }

  /** Whatever order the updates complete in, the first result matching
      `repos[i]` is the result of updating `repos[i]`. */
  lemma FirstForFindsOwnResult(repos: seq<string>, ordered: seq<UpdateResult>, results: seq<UpdateResult>, i: nat)
    requires DistinctPaths(repos) && ResultsFor(repos, ordered)
    requires multiset(results) == multiset(ordered)
    requires i < |repos|
    ensures FirstFor(results, repos[i]).Some?
    ensures results[FirstFor(results, repos[i]).value] == ordered[i]
  {
    assert ordered[i] in multiset(results);
    var k :| 0 <= k < |results| && results[k] == ordered[i];
    var m := FirstFor(results, repos[i]).value;
    assert results[m] in multiset(ordered);
    var j :| 0 <= j < |ordered| && ordered[j] == results[m];
  }

  /** The printed order of parallel mode does not depend on completion
      order: it is the order of `repos`. */
  lemma ParallelFollowsRepos(repos: seq<string>, ordered: seq<UpdateResult>, results: seq<UpdateResult>)
    requires DistinctPaths(repos) && ResultsFor(repos, ordered)
    requires multiset(results) == multiset(ordered)
    ensures |ParallelPrints(repos, results)| == |repos|
    ensures forall i | 0 <= i < |repos| :: ParallelPrints(repos, results)[i] == Shown(ordered[i])
  {
    forall i | 0 <= i < |repos| ensures FirstFor(results, repos[i]).Some? && results[FirstFor(results, repos[i]).value] == ordered[i] {
      FirstForFindsOwnResult(repos, ordered, results, i);
    }
  }

  /** Parallel mode prints what sequential mode prints, in the same order,
      less the empty line after each message. */
  lemma {:induction false} ParallelIsSequentialWithoutBlankLines(repos: seq<string>, ordered: seq<UpdateResult>, results: seq<UpdateResult>)
    requires DistinctPaths(repos) && ResultsFor(repos, ordered)
    requires multiset(results) == multiset(ordered)
    ensures ParallelPrints(repos, results) == NonEmpty(SequentialPrints(ordered))
  {
    ParallelFollowsRepos(repos, ordered, results);
    SequentialShown(ordered);
  }

  /** Dropping the empty prints of sequential mode leaves one message per
      result, in order. */
  lemma {:induction false} SequentialShown(ordered: seq<UpdateResult>)
    ensures |NonEmpty(SequentialPrints(ordered))| == |ordered|
    ensures forall i | 0 <= i < |ordered| :: NonEmpty(SequentialPrints(ordered))[i] == Shown(ordered[i])
  {
    if |ordered| > 0 {
      SequentialShown(ordered[1..]);
      var prints := SequentialPrints(ordered);
      assert prints == [Shown(ordered[0]), ""] + SequentialPrints(ordered[1..]);
      assert prints[1..][1..] == SequentialPrints(ordered[1..]);
      assert NonEmpty(prints) == [Shown(ordered[0])] + NonEmpty(SequentialPrints(ordered[1..]));
      forall i | 1 <= i < |ordered| ensures NonEmpty(prints)[i] == Shown(ordered[i]) {
        assert ordered[1..][i - 1] == ordered[i];
      }
    }
  }
}
