/**
 * The pip-compile error scraper of requirements_tester.py
 * (`get_problem_requirements_from_pip_compile_output`): the output of
 * pip-compile is split into lines and each line is matched against two fixed
 * regular expressions, which name the package whose version could not be
 * resolved.
 *
 * The two patterns are modelled by hand. For each there is a predicate that
 * says what a match with a given group is (`MatchesVersionError`,
 * `LastFromMatch`) and a function that computes the match the way the
 * regular-expression engine finds it; lemmas prove the two agree.
 */
module RequirementsTester {
  import opened Wrappers
  import opened Strings

  /** The literal head of `PIP_COMPILE_ERROR_REGEX`. */
  const ErrorPrefix: string := "Could not find a version that matches "

  /** The literal `\(from ` of `PIP_COMPILE_INCOMPATIBLE_VERSION_REGEX`. */
  const FromMarker: string := "(from "

  /** The character class `[<>=\^~]` of both patterns: a version operator. */
  predicate IsOperator(c: char) {
    c == '<' || c == '>' || c == '=' || c == '^' || c == '~'
  }

  /** Every character is in the class `[^<>=\^~]`. */
  predicate NoOperator(s: string) {
    forall k :: 0 <= k < |s| ==> !IsOperator(s[k])
  }

  /**
   * The greedy run `[^<>=\^~]*` at the start of `s`: the longest prefix
   * without an operator character.
   */
  function NameRun(s: string): (r: string)
    ensures r <= s && NoOperator(r)
    ensures |r| == |s| || IsOperator(s[|r|])
  {
    if s == [] || IsOperator(s[0]) then []
    else
      var rest := NameRun(s[1..]);
      assert forall k :: 1 <= k < 1 + |rest| ==> ([s[0]] + rest)[k] == rest[k - 1];
      [s[0]] + rest
  }

  // ---------------------------------------------------------------------------
  // PIP_COMPILE_ERROR_REGEX (requirements_tester.py:19)
  // ---------------------------------------------------------------------------

  /**
   * `re.match(PIP_COMPILE_ERROR_REGEX, line)` matches with group `name`: the
   * line starts with the literal, `name` follows it, is non-empty and has no
   * operator, and the greedy `+` took all it could (the line ends or an
   * operator comes next).
   */
  ghost predicate MatchesVersionError(line: string, name: string) {
    var n := |ErrorPrefix|;
    StartsWith(line, ErrorPrefix) && name != [] && NoOperator(name)
    && n + |name| <= |line| && line[n..n + |name|] == name
    && (n + |name| == |line| || IsOperator(line[n + |name|]))
  }

  /** The group of `re.match(PIP_COMPILE_ERROR_REGEX, line)`, if it matches. */
  function VersionErrorMatch(line: string): Option<string> {
    if !StartsWith(line, ErrorPrefix) then None
    else
      var name := NameRun(line[|ErrorPrefix|..]);
      if name == [] then None else Some(name)
  }

  lemma VersionErrorMatchIsRegex(line: string, name: string)
    ensures VersionErrorMatch(line) == Some(name) <==> MatchesVersionError(line, name)
  {
    var n := |ErrorPrefix|;
    if StartsWith(line, ErrorPrefix) {
      var rest := line[n..];
      var run := NameRun(rest);
      if MatchesVersionError(line, name) {
        assert name <= rest by {
          assert rest[..|name|] == line[n..n + |name|];
        }
        RunIsUnique(rest, name, run);
      }
      if VersionErrorMatch(line) == Some(name) {
        assert line[n..n + |name|] == rest[..|name|];
      }
    }
  }

  /**
   * A prefix of `s` without an operator that is followed by an operator or
   * by the end of `s` is the greedy run.
   */
  lemma RunIsUnique(s: string, name: string, run: string)
    requires run == NameRun(s)
    requires name <= s && NoOperator(name) && (|name| == |s| || IsOperator(s[|name|]))
    ensures name == run
  {
  }

  // ---------------------------------------------------------------------------
  // PIP_COMPILE_INCOMPATIBLE_VERSION_REGEX (requirements_tester.py:20)
  // ---------------------------------------------------------------------------

  /**
   * The part `\(from ([^<>=\^~]+)[<>=\^~]` of the pattern matches at `p`
   * with group `name`: the marker, then `name`, then an operator.
   */
  ghost predicate MatchesFromAt(line: string, p: nat, name: string) {
    var q := p + |FromMarker|;
    q + |name| < |line| && line[p..q] == FromMarker
    && name != [] && NoOperator(name) && line[q..q + |name|] == name
    && IsOperator(line[q + |name|])
  }

  /**
   * `re.match(PIP_COMPILE_INCOMPATIBLE_VERSION_REGEX, line)` matches with
   * group `name`: the greedy `.*` leaves the last position where the rest of
   * the pattern matches.
   */
  ghost predicate LastFromMatch(line: string, p: nat, name: string) {
    MatchesFromAt(line, p, name) && forall q: nat, other :: p < q <= |line| ==> !MatchesFromAt(line, q, other)
  }

  /** The rest of the pattern tried at position `p`. */
  function FromMatchAt(line: string, p: nat): Option<string>
    requires p <= |line|
  {
    var q := p + |FromMarker|;
    if q > |line| || line[p..q] != FromMarker then None
    else
      var rest := line[q..];
      var name := NameRun(rest);
      if name != [] && |name| < |rest| then Some(name) else None
  }

  lemma FromMatchAtIsRegex(line: string, p: nat, name: string)
    requires p <= |line|
    ensures FromMatchAt(line, p) == Some(name) <==> MatchesFromAt(line, p, name)
  {
    var q := p + |FromMarker|;
    if q <= |line| && line[p..q] == FromMarker {
      var rest := line[q..];
      var run := NameRun(rest);
      if MatchesFromAt(line, p, name) {
        assert name <= rest by {
          assert rest[..|name|] == line[q..q + |name|];
        }
        assert rest[|name|] == line[q + |name|];
        RunIsUnique(rest, name, run);
      }
      if FromMatchAt(line, p) == Some(name) {
        assert line[q..q + |name|] == rest[..|name|];
        assert line[q + |name|] == rest[|name|];
      }
    }
  }

  /** The rest of the pattern tried at every position of `line`, end included. */
  function FromMatches(line: string): (ms: seq<Option<string>>)
    ensures |ms| == |line| + 1 && forall p :: 0 <= p <= |line| ==> ms[p] == FromMatchAt(line, p)
  {
    seq(|line| + 1, p requires 0 <= p <= |line| => FromMatchAt(line, p))
  }

  /**
   * The backtracking of the greedy `.*`: positions `k`, `k - 1`, ..., `0` are
   * tried in turn and the first that matches wins.
   */
  function LastSome<T>(ms: seq<Option<T>>, k: nat): Option<T>
    requires k < |ms|
  {
    if ms[k].Some? then ms[k]
    else if k == 0 then None
    else LastSome(ms, k - 1)
  }

  /** The group of `re.match(PIP_COMPILE_INCOMPATIBLE_VERSION_REGEX, line)`, if it matches. */
  function IncompatibleVersionMatch(line: string): Option<string> {
    LastSome(FromMatches(line), |line|)
  }

  /** `ms[p]` holds `x` and nothing after it up to `k` holds anything. */
  ghost predicate LastUpTo<T>(ms: seq<Option<T>>, k: nat, p: nat, x: T)
    requires k < |ms|
  {
    p <= k && ms[p] == Some(x) && forall q: nat :: p < q <= k ==> ms[q].None?
  }

  lemma {:induction false} LastSomeIsLast<T>(ms: seq<Option<T>>, k: nat, x: T)
    requires k < |ms|
    ensures LastSome(ms, k) == Some(x) <==> exists p: nat :: LastUpTo(ms, k, p, x)
  {
    if ms[k].Some? {
      if ms[k] == Some(x) {
        assert LastUpTo(ms, k, k, x);
      }
    } else if k > 0 {
      LastSomeIsLast(ms, k - 1, x);
      if LastSome(ms, k) == Some(x) {
        var p: nat :| LastUpTo(ms, k - 1, p, x);
        assert LastUpTo(ms, k, p, x);
      }
      if p: nat :| LastUpTo(ms, k, p, x) {
        assert LastUpTo(ms, k - 1, p, x);
      }
    }
  }

  lemma IncompatibleVersionMatchIsRegex(line: string, name: string)
    ensures IncompatibleVersionMatch(line) == Some(name) <==> exists p: nat :: LastFromMatch(line, p, name)
  {
    var ms := FromMatches(line);
    LastSomeIsLast(ms, |line|, name);
    if IncompatibleVersionMatch(line) == Some(name) {
      var p: nat :| LastUpTo(ms, |line|, p, name);
      FromMatchAtIsRegex(line, p, name);
      forall q: nat, other | p < q <= |line| ensures !MatchesFromAt(line, q, other) {
        FromMatchAtIsRegex(line, q, other);
      }
      assert LastFromMatch(line, p, name);
    }
    if p: nat :| LastFromMatch(line, p, name) {
      assert p <= |line|;
      FromMatchAtIsRegex(line, p, name);
      forall q: nat | p < q <= |line| ensures ms[q].None? {
        if ms[q].Some? {
          FromMatchAtIsRegex(line, q, ms[q].value);
        }
      }
      assert LastUpTo(ms, |line|, p, name);
    }
  }

  /** A name the second pattern finds is a non-empty run of `line` without an operator. */
  lemma IncompatibleVersionMatchIsName(line: string, name: string)
    requires IncompatibleVersionMatch(line) == Some(name)
    ensures name != [] && NoOperator(name) && forall c :: c in name ==> c in line
  {
    var ms := FromMatches(line);
    LastSomeIsLast(ms, |line|, name);
    var p: nat :| LastUpTo(ms, |line|, p, name);
    var q := p + |FromMarker|;
    assert name <= line[q..];
  }

  // ---------------------------------------------------------------------------
  // get_problem_requirements_from_pip_compile_output (requirements_tester.py:122-136)
  // ---------------------------------------------------------------------------

  /**
   * The name one line contributes: the first pattern wins, the second is
   * tried only when the first does not match (the `continue` at
   * requirements_tester.py:129).
   */
  function LineProblem(line: string): (r: Option<string>)
    ensures r.Some? ==> r.value != [] && NoOperator(r.value)
    ensures r.Some? ==> forall c :: c in r.value ==> c in line
  {
    var first := VersionErrorMatch(line);
    if first.Some? then
      assert first.value <= line[|ErrorPrefix|..];
      first
    else
      var second := IncompatibleVersionMatch(line);
      if second.Some? then
        IncompatibleVersionMatchIsName(line, second.value);
        second
      else None
  }

  lemma LineProblemIsRegex(line: string, name: string)
    ensures LineProblem(line) == Some(name) <==>
              MatchesVersionError(line, name)
              || ((forall other :: !MatchesVersionError(line, other)) && exists p: nat :: LastFromMatch(line, p, name))
  {
    VersionErrorMatchIsRegex(line, name);
    IncompatibleVersionMatchIsRegex(line, name);
    if VersionErrorMatch(line).Some? {
      VersionErrorMatchIsRegex(line, VersionErrorMatch(line).value);
    } else {
      forall other ensures !MatchesVersionError(line, other) {
        VersionErrorMatchIsRegex(line, other);
      }
    }
  }

  /** A pip-compile resolution error names the package before its specifier. */
  lemma VersionErrorExample()
    ensures LineProblem("Could not find a version that matches django<3,>=3.1") == Some("django")
  {
    var line := "Could not find a version that matches django<3,>=3.1";
    assert line[..|ErrorPrefix|] == ErrorPrefix;
    assert line[|ErrorPrefix|..|ErrorPrefix| + 6] == "django";
    assert MatchesVersionError(line, "django");
    LineProblemIsRegex(line, "django");
  }

  /** With two `(from ` markers on a line, the greedy `.*` picks the second. */
  lemma LastMarkerExample()
    ensures LineProblem("(from a=1 (from b=2") == Some("b")
  {
    var line := "(from a=1 (from b=2";
    assert line[10..16] == FromMarker && line[16..17] == "b" && line[17] == '=';
    assert MatchesFromAt(line, 10, "b");
    forall q: nat, other | 10 < q <= |line| ensures !MatchesFromAt(line, q, other) {
      assert q + |FromMarker| > |line| || line[q..q + |FromMarker|] != FromMarker by {
        if q + |FromMarker| <= |line| {
          assert line[q] == line[q..q + |FromMarker|][0];
        }
      }
    }
    assert LastFromMatch(line, 10, "b");
    forall other ensures !MatchesVersionError(line, other) {
      assert line[0] != ErrorPrefix[0];
    }
    LineProblemIsRegex(line, "b");
  }

  /** The names a sequence of lines contributes. */
  function ProblemsOf(lines: seq<string>): set<string> {
    set i | 0 <= i < |lines| && LineProblem(lines[i]).Some? :: LineProblem(lines[i]).value
  }

  /** `get_problem_requirements_from_pip_compile_output`, as a function of the output. */
  function ProblemRequirements(output: string): set<string> {
    ProblemsOf(Split(output, '\n'))
  }

  /** Each line is judged on its own: one more line adds at most its own name. */
  lemma ProblemsOfSnoc(lines: seq<string>, line: string)
    ensures ProblemsOf(lines + [line])
            == ProblemsOf(lines) + (if LineProblem(line).Some? then {LineProblem(line).value} else {})
  {
    var all := lines + [line];
    assert forall i :: 0 <= i < |lines| ==> all[i] == lines[i];
    assert all[|lines|] == line;
  }

  /** The output split anywhere between lines yields the union of the two parts' names. */
  lemma ProblemsOfAppend(a: seq<string>, b: seq<string>)
    ensures ProblemsOf(a + b) == ProblemsOf(a) + ProblemsOf(b)
  {
    var all := a + b;
    forall n | n in ProblemsOf(a + b) ensures n in ProblemsOf(a) + ProblemsOf(b) {
      var i :| 0 <= i < |all| && LineProblem(all[i]).Some? && LineProblem(all[i]).value == n;
      if i >= |a| {
        assert all[i] == b[i - |a|];
      }
    }
    forall n | n in ProblemsOf(a) ensures n in ProblemsOf(a + b) {
      var i :| 0 <= i < |a| && LineProblem(a[i]).Some? && LineProblem(a[i]).value == n;
      assert all[i] == a[i];
    }
    forall n | n in ProblemsOf(b) ensures n in ProblemsOf(a + b) {
      var i :| 0 <= i < |b| && LineProblem(b[i]).Some? && LineProblem(b[i]).value == n;
      assert all[|a| + i] == b[i];
    }
  }

  /**
   * Every reported name is non-empty, has no operator character and lies
   * within one line of the output.
   */
  lemma ProblemNamesAreNames(output: string, name: string)
    requires name in ProblemRequirements(output)
    ensures name != [] && NoOperator(name) && '\n' !in name
  {
    var lines := Split(output, '\n');
    var i :| 0 <= i < |lines| && LineProblem(lines[i]).Some? && LineProblem(lines[i]).value == name;
    assert '\n' !in lines[i];
  }

  /** The empty output reports nothing: its one line matches neither pattern. */
  lemma EmptyOutputHasNoProblems()
    ensures ProblemRequirements("") == {}
  {
    assert Split("", '\n') == [""];
    assert LineProblem("") == None by {
      assert FromMatches("") == [None];
    }
  }

  /**
   * `get_problem_requirements_from_pip_compile_output`: the loop over the
   * lines, adding the group of the first pattern that matches.
   */
  method GetProblemRequirements(output: string) returns (problems: set<string>)
    ensures problems == ProblemRequirements(output)
  {
    var lines := Split(output, '\n');
    problems := {};
    for i := 0 to |lines|
      invariant problems == ProblemsOf(lines[..i])
    {
      var line := lines[i];
      assert lines[..i + 1] == lines[..i] + [line];
      ProblemsOfSnoc(lines[..i], line);
      var matches := VersionErrorMatch(line);
      if matches.Some? {
        problems := problems + {matches.value};
        continue;
      }
      matches := IncompatibleVersionMatch(line);
      if matches.Some? {
        problems := problems + {matches.value};
        continue;
      }
    }
    assert lines[..|lines|] == lines;
  }
}
