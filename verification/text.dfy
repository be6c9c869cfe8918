/**
 The string predicates the updater applies to git's output.

 The tool classifies every command outcome by substring tests and two
 regular expressions. This module gives each of them an explicit definition
 over `string` (a sequence of Unicode scalar values), together with the
 `strip`, `join` and `split` operations of Python strings that the tool
 relies on.
 */
module Text {

  /** Python's `sub in s`, as a left-to-right scan. */
  predicate Contains(s: string, sub: string)
    decreases |s|
  {
    if |s| < |sub| then false
    else s[..|sub|] == sub || Contains(s[1..], sub)
  }

  /** `sub` occurs somewhere in `s`: the reference reading of `Contains`. */
  ghost predicate Occurs(s: string, sub: string)
  {
    exists i | 0 <= i <= |s| - |sub| :: OccursAt(s, sub, i)
  }

  /** `sub` occurs in `s` at position `i`. */
  predicate OccursAt(s: string, sub: string, i: int)
  {
    0 <= i && i + |sub| <= |s| && s[i..i + |sub|] == sub
  }

  predicate StartsWith(s: string, prefix: string)
  {
    |prefix| <= |s| && s[..|prefix|] == prefix
  }

  predicate EndsWith(s: string, suffix: string)
  {
    |suffix| <= |s| && s[|s| - |suffix|..] == suffix
  }

  /** The scan finds `sub` exactly when it occurs at some position. */
  lemma {:induction false} ContainsMeaning(s: string, sub: string)
    ensures Contains(s, sub) <==> Occurs(s, sub)
    decreases |s|
  {
    if |s| < |sub| {
    } else if OccursAt(s, sub, 0) {
      assert Occurs(s, sub);
    } else {
      ContainsMeaning(s[1..], sub);
      if Occurs(s[1..], sub) {
        var i :| 0 <= i <= |s[1..]| - |sub| && OccursAt(s[1..], sub, i);
        assert s[1..][i..i + |sub|] == s[i + 1..i + 1 + |sub|];
        assert OccursAt(s, sub, i + 1);
      }
      if Occurs(s, sub) {
        var i :| 0 <= i <= |s| - |sub| && OccursAt(s, sub, i);
        assert s[1..][i - 1..i - 1 + |sub|] == s[i..i + |sub|];
        assert OccursAt(s[1..], sub, i - 1);
      }
    }
  }

  /** Whatever `b` ends with, `a + b` ends with. */
  lemma EndsWithAppend(a: string, b: string, t: string)
    requires EndsWith(b, t)
    ensures EndsWith(a + b, t)
  {
    var s := a + b;
    assert s[|s| - |t|..] == b[|b| - |t|..];
  }

  /** A suffix of a suffix is a suffix. */
  lemma EndsWithTransitive(s: string, t: string, u: string)
    requires EndsWith(s, t) && EndsWith(t, u)
    ensures EndsWith(s, u)
  {
    assert s[|s| - |u|..] == t[|t| - |u|..];
  }

  // ---------------------------------------------------------------------
  // Whitespace and str.strip()

  /** Python's `str.isspace` on one character: the characters `str.strip()`
      removes when called without an argument. */
  predicate IsSpace(c: char)
  {
    var k := c as int;
    || (0x09 <= k <= 0x0D) || (0x1C <= k <= 0x20)
    || k == 0x85 || k == 0xA0 || k == 0x1680
    || (0x2000 <= k <= 0x200A)
    || k == 0x2028 || k == 0x2029 || k == 0x202F || k == 0x205F || k == 0x3000
  }

  /** Every character of `s` is whitespace. */
  predicate AllSpace(s: string)
  {
    SpaceBetween(s, 0, |s|)
  }

  /** Every character of `s` from position `a` up to `b` is whitespace. */
  predicate SpaceBetween(s: string, a: int, b: int)
  {
    0 <= a <= b <= |s| && forall k | a <= k < b :: IsSpace(s[k])
  }

  /** Number of leading whitespace characters of `s`. */
  function LeadingSpace(s: string): (n: nat)
    ensures n <= |s|
    ensures SpaceBetween(s, 0, n)
    ensures n < |s| ==> !IsSpace(s[n])
  {
    if |s| == 0 || !IsSpace(s[0]) then 0
    else 1 + LeadingSpace(s[1..])
  }

  /** Length of `s` once its trailing whitespace is removed. */
  function TrailingStart(s: string): (n: nat)
    ensures n <= |s|
    ensures SpaceBetween(s, n, |s|)
    ensures n > 0 ==> !IsSpace(s[n - 1])
  {
    if |s| == 0 || !IsSpace(s[|s| - 1]) then |s|
    else TrailingStart(s[..|s| - 1])
  }

  /** Python's `s.strip()`: `s` without leading and trailing whitespace. */
  function Strip(s: string): (r: string)
    ensures |r| <= |s|
    ensures r == [] ==> AllSpace(s)
    ensures r != [] ==> !IsSpace(r[0]) && !IsSpace(r[|r| - 1])
    ensures exists i | 0 <= i <= |s| - |r| ::
              OccursAt(s, r, i) && SpaceBetween(s, 0, i) && SpaceBetween(s, i + |r|, |s|)
  {
    var i := LeadingSpace(s);
    if i == |s| then
      assert OccursAt(s, [], i);
      []
    else
      var j := TrailingStart(s);
      assert i < j;
      var r := s[i..j];
      assert r[0] == s[i] && r[|r| - 1] == s[j - 1];
      assert OccursAt(s, r, i);
      r
  }

  /** Whitespace on both sides of a word that neither starts nor ends with
      whitespace is exactly what `Strip` removes: `Strip` gives back that
      word and nothing else. */
  lemma StripSurrounded(s: string, i: nat, word: string)
    requires word != [] && !IsSpace(word[0]) && !IsSpace(word[|word| - 1])
    requires OccursAt(s, word, i)
    requires SpaceBetween(s, 0, i) && SpaceBetween(s, i + |word|, |s|)
    ensures Strip(s) == word
  {
    assert s[i] == word[0];
    var n := LeadingSpace(s);
    assert n == i;
    assert s[i + |word| - 1] == word[|word| - 1];
    var m := TrailingStart(s);
    assert m == i + |word|;
    assert s[i..m] == word;
  }

  // ---------------------------------------------------------------------
  // The revision check: `re.search(r"(?i)[0-9a-f]{32}", s)`

  /** `[0-9a-f]` under case-insensitive matching. */
  predicate IsHexDigit(c: char)
  {
    ('0' <= c <= '9') || ('a' <= c <= 'f') || ('A' <= c <= 'F')
  }

  predicate AllHex(s: string)
  {
    forall k | 0 <= k < |s| :: IsHexDigit(s[k])
  }

  /** `n` hexadecimal digits start at position `i` of `s`. */
  predicate HexRunAt(s: string, i: int, n: nat)
  {
    0 <= i && i + n <= |s| && AllHex(s[i..i + n])
  }

  /** `s` holds `n` consecutive hexadecimal digits, as a left-to-right
      search. */
  predicate HasHexRun(s: string, n: nat)
    decreases |s|
  {
    if |s| < n then false
    else AllHex(s[..n]) || HasHexRun(s[1..], n)
  }

  /** The reference reading: a run of `n` hexadecimal digits starts at some
      position. */
  ghost predicate HexRunSomewhere(s: string, n: nat)
  {
    exists i | 0 <= i <= |s| - n :: HexRunAt(s, i, n)
  }

  /** The search finds a run exactly when one starts at some position. */
  lemma {:induction false} HasHexRunMeaning(s: string, n: nat)
    ensures HasHexRun(s, n) <==> HexRunSomewhere(s, n)
    decreases |s|
  {
    if |s| < n {
    } else if HexRunAt(s, 0, n) {
      assert HexRunSomewhere(s, n);
    } else {
      HasHexRunMeaning(s[1..], n);
      if HexRunSomewhere(s[1..], n) {
        var i :| 0 <= i <= |s[1..]| - n && HexRunAt(s[1..], i, n);
        assert s[1..][i..i + n] == s[i + 1..i + 1 + n];
        assert HexRunAt(s, i + 1, n);
      }
      if HexRunSomewhere(s, n) {
        var i :| 0 <= i <= |s| - n && HexRunAt(s, i, n);
        assert s[1..][i - 1..i - 1 + n] == s[i..i + n];
        assert HexRunAt(s[1..], i - 1, n);
      }
    }
  }

  // ---------------------------------------------------------------------
  // The overwrite check: `re.search(r"error:.*files would be overwritten by merge", s)`

  const ErrorTag: string := "error:"
  const OverwritePhrase: string := "files would be overwritten by merge"

  /** `s` holds no line break. */
  predicate NoNewline(s: string)
  {
    NewlineFree(s, 0, |s|)
  }

  /** No character of `s` from position `a` up to `b` is a line break. */
  predicate NewlineFree(s: string, a: int, b: int)
  {
    0 <= a <= b <= |s| && forall k | a <= k < b :: s[k] != '\n'
  }

  /** `error:` starts at `i` and the overwrite phrase at `j`, later. */
  predicate TagThenPhrase(s: string, i: int, j: int)
  {
    OccursAt(s, ErrorTag, i) && i + |ErrorTag| <= j && OccursAt(s, OverwritePhrase, j)
  }

  /** A match of the regular expression: `.*` between the tag and the phrase
      matches no line break, as `.` never does. */
  predicate MatchAt(s: string, i: int, j: int)
  {
    TagThenPhrase(s, i, j) && NewlineFree(s, i + |ErrorTag|, j)
  }

  /** The reference reading of the regular expression: a match starts at or
      after position `from`. */
  ghost predicate MatchFrom(s: string, from: int)
  {
    exists i, j | from <= i <= |s| && 0 <= j <= |s| :: MatchAt(s, i, j)
  }

  /** `re.search` of the overwrite pattern: does it find a match in `s`? */
  predicate OverwriteError(s: string)
  {
    SearchFrom(s, 0)
  }

  /** The search tries each start position from `i` on; where `error:`
      starts, `.*` extends along the line, never past a line break, looking
      for the phrase. */
  predicate SearchFrom(s: string, i: nat)
    decreases |s| - i
  {
    if i >= |s| then false
    else (OccursAt(s, ErrorTag, i) && PhraseFrom(s, i + |ErrorTag|)) || SearchFrom(s, i + 1)
  }

  /** The phrase starts at `j` or later, with no line break in between. */
  predicate PhraseFrom(s: string, j: nat)
    decreases |s| - j
  {
    if OccursAt(s, OverwritePhrase, j) then true
    else if j >= |s| || s[j] == '\n' then false
    else PhraseFrom(s, j + 1)
  }

  /** The phrase scan finds the phrase at some position with no line break
      before it. */
  lemma {:induction false} PhraseFromMeaning(s: string, j0: nat)
    ensures PhraseFrom(s, j0) <==>
              exists j | j0 <= j <= |s| :: OccursAt(s, OverwritePhrase, j) && NewlineFree(s, j0, j)
    decreases |s| - j0
  {
    if OccursAt(s, OverwritePhrase, j0) {
      assert NewlineFree(s, j0, j0);
    } else if j0 < |s| && s[j0] != '\n' {
      PhraseFromMeaning(s, j0 + 1);
      if exists j | j0 <= j <= |s| :: OccursAt(s, OverwritePhrase, j) && NewlineFree(s, j0, j) {
        var j :| j0 <= j <= |s| && OccursAt(s, OverwritePhrase, j) && NewlineFree(s, j0, j);
        assert j != j0;
        assert NewlineFree(s, j0 + 1, j);
      }
    }
  }

  /** The search finds a match exactly when a match starts at or after the
      search's start position. */
  lemma {:induction false} SearchFromMeaning(s: string, i0: nat)
    ensures SearchFrom(s, i0) <==> MatchFrom(s, i0)
    decreases |s| - i0
  {
    if i0 < |s| {
      SearchFromMeaning(s, i0 + 1);
      if OccursAt(s, ErrorTag, i0) {
        PhraseFromMeaning(s, i0 + |ErrorTag|);
        if PhraseFrom(s, i0 + |ErrorTag|) {
          var j :| i0 + |ErrorTag| <= j <= |s| && OccursAt(s, OverwritePhrase, j)
                   && NewlineFree(s, i0 + |ErrorTag|, j);
          assert MatchAt(s, i0, j);
        }
      }
      if MatchFrom(s, i0) {
        var i, j :| i0 <= i <= |s| && 0 <= j <= |s| && MatchAt(s, i, j);
        if i == i0 {
          PhraseFromMeaning(s, i0 + |ErrorTag|);
        } else {
          assert MatchFrom(s, i0 + 1);
        }
      }
    }
  }

  /** The search finds a match exactly when some match position exists. */
  lemma OverwriteErrorMeaning(s: string)
    ensures OverwriteError(s) <==> MatchFrom(s, 0)
  {
    SearchFromMeaning(s, 0);
  }

  /** Within one line (no line breaks to worry about), `error:` is followed
      by the overwrite phrase. */
  predicate LineReportsOverwrite(line: string)
  {
    exists i, j | 0 <= i <= |line| && 0 <= j <= |line| :: TagThenPhrase(line, i, j)
  }

  // ---------------------------------------------------------------------
  // str.join and str.split on line breaks

  /** Python's `sep.join(xs)`. */
  function Join(xs: seq<string>, sep: string): string
  {
    if |xs| == 0 then ""
    else if |xs| == 1 then xs[0]
    else xs[0] + sep + Join(xs[1..], sep)
  }

  /** Index of the first line break of `s`, or `|s|` when there is none. */
  function FirstNewline(s: string): (k: nat)
    ensures k <= |s|
    ensures forall m | 0 <= m < k :: s[m] != '\n'
    ensures k < |s| ==> s[k] == '\n'
  {
    if |s| == 0 || s[0] == '\n' then 0
    else 1 + FirstNewline(s[1..])
  }

  /** Python's `s.split("\n")`: the lines of `s`, never an empty list. */
  function Lines(s: string): (r: seq<string>)
    ensures |r| >= 1
    ensures forall k | 0 <= k < |r| :: NoNewline(r[k])
    decreases |s|
  {
    var k := FirstNewline(s);
    if k == |s| then
      assert s[..k] == s;
      [s]
    else [s[..k]] + Lines(s[k + 1..])
  }

  /** The joined text ends with the last of the joined strings. */
  lemma {:induction false} JoinEndsWithLast(xs: seq<string>, sep: string)
    requires |xs| >= 1
    ensures EndsWith(Join(xs, sep), xs[|xs| - 1])
  {
    if |xs| > 1 {
      JoinEndsWithLast(xs[1..], sep);
      var j := Join(xs[1..], sep);
      var s := xs[0] + sep + j;
      var last := xs[|xs| - 1];
      assert xs[1..][|xs[1..]| - 1] == last;
      assert s[|s| - |last|..] == j[|j| - |last|..];
    }
  }

  // ---------------------------------------------------------------------
  // The overwrite check, line by line

  /** Some line of `lines` carries `error:` followed by the overwrite phrase. */
  predicate SomeLineReportsOverwrite(lines: seq<string>)
  {
    exists m | 0 <= m < |lines| :: LineReportsOverwrite(lines[m])
  }

  /** The regular expression matches exactly when some line of the text
      carries `error:` followed later on that line by the overwrite phrase. */
  lemma OverwriteErrorByLine(s: string)
    ensures OverwriteError(s) <==> SomeLineReportsOverwrite(Lines(s))
  {
    OverwriteErrorMeaning(s);
    if MatchFrom(s, 0) {
      var i, j :| 0 <= i <= |s| && 0 <= j <= |s| && MatchAt(s, i, j);
      MatchGivesLine(s, i, j);
    }
    if SomeLineReportsOverwrite(Lines(s)) {
      LineGivesMatch(s);
    }
  }

  lemma {:induction false} MatchGivesLine(s: string, i: nat, j: nat)
    requires MatchAt(s, i, j)
    ensures SomeLineReportsOverwrite(Lines(s))
    decreases |s|
  {
    var k := FirstNewline(s);
    if k == |s| {
      assert s[..k] == s;
      assert LineReportsOverwrite(Lines(s)[0]);
    } else {
      var head := s[..k];
      var tail := s[k + 1..];
      LinesAtBreak(s);
      if j + |OverwritePhrase| <= k {
        MatchInHead(s, k, i, j);
        SomeLineCons(head, Lines(tail));
      } else {
        MatchInTail(s, k, i, j);
        var i', j' := i - k - 1, j - k - 1;
        MatchGivesLine(tail, i', j');
        SomeLineCons(head, Lines(tail));
      }
    }
  }

  lemma {:induction false} LineGivesMatch(s: string)
    requires SomeLineReportsOverwrite(Lines(s))
    ensures MatchFrom(s, 0)
    decreases |s|
  {
    var k := FirstNewline(s);
    if k == |s| {
      OnlyLineGivesMatch(s);
    } else {
      var head := s[..k];
      var tail := s[k + 1..];
      LinesAtBreak(s);
      SomeLineCons(head, Lines(tail));
      if LineReportsOverwrite(head) {
        HeadGivesMatch(s, k);
      } else {
        LineGivesMatch(tail);
        TailGivesMatch(s, k);
      }
    }
  }

  /** At a line break, the lines are the unbroken first line and the lines
      after the break. */
  lemma LinesAtBreak(s: string)
    requires FirstNewline(s) < |s|
    ensures Lines(s) == [s[..FirstNewline(s)]] + Lines(s[FirstNewline(s) + 1..])
    ensures NoNewline(s[..FirstNewline(s)])
  {
    var k := FirstNewline(s);
    var head := s[..k];
    forall m | 0 <= m < |head| ensures head[m] != '\n' {
      assert head[m] == s[m];
    }
  }

  /** The lines, joined again with line breaks, give back the text. */
  lemma {:induction false} LinesJoin(s: string)
    ensures Join(Lines(s), "\n") == s
    decreases |s|
  {
    var k := FirstNewline(s);
    if k < |s| {
      var head, tail := s[..k], s[k + 1..];
      LinesAtBreak(s);
      LinesJoin(tail);
      JoinCons(head, Lines(tail), "\n");
      assert s == head + "\n" + tail;
    } else {
      assert s[..k] == s;
    }
  }

  lemma JoinCons(x: string, xs: seq<string>, sep: string)
    requires |xs| >= 1
    ensures Join([x] + xs, sep) == x + sep + Join(xs, sep)
  {
    assert ([x] + xs)[1..] == xs;
  }

  /** A first line that reports the overwrite gives a match of the text. */
  lemma HeadGivesMatch(s: string, k: nat)
    requires k <= |s| && NoNewline(s[..k]) && LineReportsOverwrite(s[..k])
    ensures MatchFrom(s, 0)
  {
    var head := s[..k];
    var i, j :| 0 <= i <= |head| && 0 <= j <= |head| && TagThenPhrase(head, i, j);
    MatchFromHead(s, k, i, j);
  }

  /** A match after the line break at `k` is a match of the text. */
  lemma TailGivesMatch(s: string, k: nat)
    requires k < |s| && MatchFrom(s[k + 1..], 0)
    ensures MatchFrom(s, 0)
  {
    var tail := s[k + 1..];
    var i, j :| 0 <= i <= |tail| && 0 <= j <= |tail| && MatchAt(tail, i, j);
    MatchFromTail(s, k, i, j);
  }

  /** A text without line breaks that reports the overwrite is a match. */
  lemma OnlyLineGivesMatch(s: string)
    requires FirstNewline(s) == |s|
    requires SomeLineReportsOverwrite(Lines(s))
    ensures MatchFrom(s, 0)
  {
    var lines := Lines(s);
    assert lines == [s];
    var m :| 0 <= m < |lines| && LineReportsOverwrite(lines[m]);
    assert NoNewline(s);
    UnbrokenLineGivesMatch(s);
  }

  lemma UnbrokenLineGivesMatch(s: string)
    requires NoNewline(s) && LineReportsOverwrite(s)
    ensures MatchFrom(s, 0)
  {
    var i, j :| 0 <= i <= |s| && 0 <= j <= |s| && TagThenPhrase(s, i, j);
    assert NewlineFree(s, i + |ErrorTag|, j);
    assert MatchAt(s, i, j);
  }

  /** Some line of `[line] + lines` reports the overwrite exactly when the
      first one does or one of the others does. */
  lemma SomeLineCons(line: string, lines: seq<string>)
    ensures SomeLineReportsOverwrite([line] + lines) <==>
              LineReportsOverwrite(line) || SomeLineReportsOverwrite(lines)
  {
    var all := [line] + lines;
    assert all[0] == line;
    if SomeLineReportsOverwrite(lines) {
      var m :| 0 <= m < |lines| && LineReportsOverwrite(lines[m]);
      assert all[m + 1] == lines[m];
    }
    if SomeLineReportsOverwrite(all) {
      var m :| 0 <= m < |all| && LineReportsOverwrite(all[m]);
      if m > 0 {
        assert all[m] == lines[m - 1];
      }
    }
  }

  /** A match that ends before the line break at `k` is a match of the
      first line, which reports the overwrite. */
  lemma MatchInHead(s: string, k: nat, i: nat, j: nat)
    requires k <= |s| && MatchAt(s, i, j) && j + |OverwritePhrase| <= k
    ensures LineReportsOverwrite(s[..k])
  {
    var h := s[..k];
    assert h[i..i + |ErrorTag|] == s[i..i + |ErrorTag|];
    assert h[j..j + |OverwritePhrase|] == s[j..j + |OverwritePhrase|];
    assert TagThenPhrase(h, i, j);
  }

  /** A line's `error:` and phrase are a match of the whole text. */
  lemma MatchFromHead(s: string, k: nat, i: nat, j: nat)
    requires k <= |s| && NoNewline(s[..k]) && TagThenPhrase(s[..k], i, j)
    ensures MatchFrom(s, 0)
  {
    var h := s[..k];
    assert h[i..i + |ErrorTag|] == s[i..i + |ErrorTag|];
    assert h[j..j + |OverwritePhrase|] == s[j..j + |OverwritePhrase|];
    assert forall m | i + |ErrorTag| <= m < j :: s[m] == h[m];
    assert MatchAt(s, i, j);
  }

  /** No character of a match is a line break. */
  lemma MatchHasNoNewline(s: string, i: nat, j: nat)
    requires MatchAt(s, i, j)
    ensures forall m | i <= m < j + |OverwritePhrase| :: s[m] != '\n'
  {
    forall m | i <= m < j + |OverwritePhrase|
      ensures s[m] != '\n'
    {
      if m < i + |ErrorTag| {
        assert s[m] == s[i..i + |ErrorTag|][m - i] == ErrorTag[m - i];
      } else if j <= m {
        assert s[m] == s[j..j + |OverwritePhrase|][m - j] == OverwritePhrase[m - j];
      }
    }
  }

  /** A match that does not end before the line break at `k` starts after
      it, since no part of a match is a line break. */
  lemma MatchInTail(s: string, k: nat, i: nat, j: nat)
    requires k < |s| && s[k] == '\n' && MatchAt(s, i, j)
    requires j + |OverwritePhrase| > k
    ensures i > k && MatchAt(s[k + 1..], i - k - 1, j - k - 1)
  {
    MatchHasNoNewline(s, i, j);
    assert i > k;
    var t := s[k + 1..];
    var i', j' := i - k - 1, j - k - 1;
    assert t[i'..i' + |ErrorTag|] == s[i..i + |ErrorTag|];
    assert t[j'..j' + |OverwritePhrase|] == s[j..j + |OverwritePhrase|];
  }

  /** A match in the text after the line break at `k` is a match of the
      whole text. */
  lemma MatchFromTail(s: string, k: nat, i: nat, j: nat)
    requires k < |s| && MatchAt(s[k + 1..], i, j)
    ensures MatchFrom(s, 0)
  {
    var t := s[k + 1..];
    var i', j' := i + k + 1, j + k + 1;
    assert t[i..i + |ErrorTag|] == s[i'..i' + |ErrorTag|];
    assert t[j..j + |OverwritePhrase|] == s[j'..j' + |OverwritePhrase|];
    assert MatchAt(s, i', j');
  }
}
