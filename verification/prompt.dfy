/**
 The confirmation prompt asked before local changes are discarded.

 The prompt reads one line at a time; the lines the user will type are
 given as a finite sequence. An empty line means "yes"; `y` and `n` are
 accepted in either case; anything else makes the prompt ask again. When
 the input runs out before a valid answer, Python's `input()` raises
 `EOFError`, modelled here as `None`.
 */
module Prompt {

  import opened Wrappers

  /** The answer the prompt settled on, and how many lines it read. */
  datatype Answer = Answer(yes: bool, consumed: nat)

  /** ASCII lower-casing of one character. */
  function LowerChar(c: char): char
  {
    if 'A' <= c <= 'Z' then (c as int + 32) as char else c
  }

  /** Lower-casing of a whole line, as `str.lower()` does for ASCII. */
  function Lower(s: string): (r: string)
    ensures |r| == |s|
    ensures forall k | 0 <= k < |s| :: r[k] == LowerChar(s[k])
  {
    seq(|s|, k requires 0 <= k < |s| => LowerChar(s[k]))
  }

  /** How one line is read: `Some(true)` for yes, `Some(false)` for no,
      `None` when the prompt does not understand it and asks again. */
  function Interpret(line: string): Option<bool>
  {
    var answer := if line == "" then "y" else line;
    if Lower(answer) == "n" then Some(false)
    else if Lower(answer) == "y" then Some(true)
    else None
  }

  /** The lines the prompt accepts, listed without reference to lower-casing. */
  predicate Valid(line: string)
  {
    line == "" || line == "y" || line == "Y" || line == "n" || line == "N"
  }

  /** The accepted lines that mean "yes". */
  predicate Affirmative(line: string)
  {
    line == "" || line == "y" || line == "Y"
  }

  /** `Interpret` accepts exactly the valid lines, and reads "yes" exactly
      from the affirmative ones. */
  lemma InterpretMeaning(line: string)
    ensures Interpret(line).Some? <==> Valid(line)
    ensures Interpret(line).Some? ==> (Interpret(line).value <==> Affirmative(line))
  {
    var answer := if line == "" then "y" else line;
    if |answer| == 1 {
      assert Lower(answer) == [LowerChar(answer[0])];
      if Lower(answer) == "n" {
        assert answer == "n" || answer == "N";
      } else if Lower(answer) == "y" {
        assert answer == "y" || answer == "Y";
      }
    } else {
      assert |Lower(answer)| != 1;
    }
  }

  /** The prompt: reads lines until one is understood. */
  function Question(lines: seq<string>): (r: Option<Answer>)
    ensures r.None? <==> forall k | 0 <= k < |lines| :: !Valid(lines[k])
    ensures r.Some? ==>
              && 1 <= r.value.consumed <= |lines|
              && Valid(lines[r.value.consumed - 1])
              && (r.value.yes <==> Affirmative(lines[r.value.consumed - 1]))
              && forall k | 0 <= k < r.value.consumed - 1 :: !Valid(lines[k])
  {
    if |lines| == 0 then None
    else
      InterpretMeaning(lines[0]);
      match Interpret(lines[0])
      case Some(yes) => Some(Answer(yes, 1))
      case None =>
        match Question(lines[1..])
        case None => None
        case Some(a) => Some(Answer(a.yes, a.consumed + 1))
  }

  /** The answer depends only on the first valid line: whatever follows it,
      and however many lines the prompt did not understand before it. */
  lemma {:induction false} FirstValidLineDecides(junk: seq<string>, line: string, rest: seq<string>)
    requires forall k | 0 <= k < |junk| :: !Valid(junk[k])
    requires Valid(line)
    ensures Question(junk + [line] + rest) == Some(Answer(Affirmative(line), |junk| + 1))
  {
    var lines := junk + [line] + rest;
    assert lines[|junk|] == line;
    assert forall k | 0 <= k < |junk| :: lines[k] == junk[k];
    var r := Question(lines);
    assert r.Some?;
    var c := r.value.consumed;
    assert c - 1 <= |junk|;
    assert c - 1 >= |junk|;
  }

  /** The prompt given only the lines it reads settles on the same answer. */
  lemma QuestionReadsPrefix(lines: seq<string>)
    requires Question(lines).Some?
    ensures Question(lines[..Question(lines).value.consumed]) == Question(lines)
  {
    var n := Question(lines).value.consumed;
    var junk, line := lines[..n - 1], lines[n - 1];
    assert forall k | 0 <= k < |junk| :: junk[k] == lines[k];
    SplitAt(lines, n);
    FirstValidLineDecides(junk, line, lines[n..]);
    FirstValidLineDecides(junk, line, []);
  }

  /** Once the prompt settles on the last of the lines it was given, lines
      typed after them are never read. */
  lemma QuestionIgnoresLater(read: seq<string>, later: seq<string>)
    requires Question(read).Some? && Question(read).value.consumed == |read|
    ensures Question(read + later) == Question(read)
  {
    var junk, line := read[..|read| - 1], read[|read| - 1];
    assert forall k | 0 <= k < |junk| :: junk[k] == read[k];
    SplitAt(read + later, |read|);
    SplitAt(read, |read|);
    assert (read + later)[..|read|] == read;
    assert (read + later)[|read|..] == later;
    FirstValidLineDecides(junk, line, later);
    FirstValidLineDecides(junk, line, []);
  }

  /** `lines` around its `n`-th line. The trailing `+ []` is the shape in
      which `FirstValidLineDecides(junk, line, [])` states its result, so
      the two can be matched without a further sequence equality. */
  lemma SplitAt(lines: seq<string>, n: nat)
    requires 1 <= n <= |lines|
    ensures lines == lines[..n - 1] + [lines[n - 1]] + lines[n..]
    ensures lines[..n] == lines[..n - 1] + [lines[n - 1]] + []
  {
  }
}
