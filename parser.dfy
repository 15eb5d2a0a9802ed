/**
 * The pip-tools requirements parser of parser.py (`RequirementsParser`).
 *
 * The parser walks the lines of a compiled requirements file with a cursor.
 * Comment, blank and unsupported option lines are skipped; every other line
 * is a requirement, which may be followed by a `# via` block naming the
 * packages that depend on it (or `-r <file>` when it was asked for directly).
 * At the end each requirement is linked to the requirements that depend on
 * it.
 *
 * The functions `Run`, `AfterRequirement`, `Via` and `Link` state what a
 * parse computes; the class `RequirementsParser` keeps the source's cursor
 * and dictionaries and is proved to compute `ParseLines`.
 */
module ReqParser {
  import opened Wrappers
  import opened Strings

  /** `PIPTOOLS_VIA_MULTILINE_PREFIX`: an entry line of a via block. */
  const ViaMultilinePrefix: string := "    #   "
  /** `PIPTOOLS_VIA_PREFIX`: the line that opens a via block. */
  const ViaPrefix: string := "    # via"

  /** The option lines the parser does not support and skips. */
  const UnsupportedPrefixes: seq<string> :=
    ["-r", "--requirement", "-f", "--find-links", "-i", "--index-url",
     "--extra-index-url", "--no-index", "-Z", "--always-unzip"]

  /**
   * What `Requirement.parse` reads from a stripped requirement line: the
   * package name and its version specifiers, kept opaque.
   */
  datatype ParsedLine = ParsedLine(name: string, specs: string)

  /**
   * `Requirement.parse`, from the external `requirements` library: `None`
   * where it raises.
   */
  type LineParser = string -> Option<ParsedLine>

  /**
   * A parsed requirement: `is_primary_dependency` (asked for directly, by a
   * `-r` entry) and `requirement_for`, the names of the requirements that
   * depend on it.
   */
  datatype Requirement = Requirement(name: string, specs: string, isPrimaryDependency: bool, requirementFor: set<string>)

  /**
   * Why a parse fails: the input has no line at all (the constructor's
   * `next` raises `StopIteration`), `Requirement.parse` rejects a line, or a
   * via entry names a package that is not in the file (`KeyError`).
   */
  datatype ParseError = EmptyInput | InvalidRequirement(line: string) | UnknownDependent

  // ---------------------------------------------------------------------------
  // Classifying lines
  // ---------------------------------------------------------------------------

  /**
   * `_skip_commented`: the stripped line starts with `#`. No comment is an
   * unsupported option line, so the order of the two skips does not matter.
   */
  predicate IsComment(stripped: string): (b: bool)
    ensures b ==> !IsUnsupported(stripped)
  {
    StartsWith(stripped, "#")
  }

  /** `_skip_blank`: a blank line is neither a comment nor an option line. */
  predicate IsBlank(stripped: string): (b: bool)
    ensures b ==> !IsComment(stripped) && !IsUnsupported(stripped)
  {
    stripped == ""
  }

  /**
   * `_skip_unsupported`: the stripped line starts with one of the ten
   * options; every one of them is an option line, starting with `-`.
   */
  predicate IsUnsupported(stripped: string): (b: bool)
    ensures b ==> |stripped| >= 2 && stripped[0] == '-'
  {
    exists prefix :: prefix in UnsupportedPrefixes && StartsWith(stripped, prefix)
  }

  /** A line the main loop consumes without reading a requirement from it. */
  predicate IsSkipped(stripped: string) {
    IsComment(stripped) || IsBlank(stripped) || IsUnsupported(stripped)
  }

  // ---------------------------------------------------------------------------
  // What a parse has collected
  // ---------------------------------------------------------------------------

  /**
   * `_requirements_by_name`, an insertion-ordered dictionary, as a map and
   * the order its keys were first inserted in; and
   * `_requirements_dependent_on`, from a name to the names listed in its via
   * blocks.
   */
  datatype Scan = Scan(byName: map<string, Requirement>, order: seq<string>, dependentOn: map<string, set<string>>)

  const Start := Scan(map[], [], map[])

  /**
   * `_requirements_by_name[req.name] = req`: a new name goes to the end of
   * the order, a repeated name keeps its place and its entry is replaced.
   */
  function Store(st: Scan, req: Requirement): (r: Scan)
    ensures r.byName.Keys == st.byName.Keys + {req.name} && r.byName[req.name] == req
    ensures forall n :: n in st.byName && n != req.name ==> r.byName[n] == st.byName[n]
    ensures req.name in st.byName ==> r.order == st.order
    ensures req.name !in st.byName ==> r.order == st.order + [req.name]
    ensures r.dependentOn == st.dependentOn
  {
    Scan(st.byName[req.name := req],
         if req.name in st.byName then st.order else st.order + [req.name],
         st.dependentOn)
  }

  /** The names listed so far in the via blocks of `name`. */
  function DependentsOf(st: Scan, name: string): set<string> {
    if name in st.dependentOn then st.dependentOn[name] else {}
  }

  /**
   * `_requirements_dependent_on[name].add(dep)` on a `defaultdict(set)`:
   * `dep` joins the dependents of `name`, which start out empty; nothing
   * else changes.
   */
  function AddDependent(st: Scan, name: string, dep: string): (r: Scan)
    ensures DependentsOf(r, name) == DependentsOf(st, name) + {dep}
    ensures forall n :: n != name ==> DependentsOf(r, n) == DependentsOf(st, n)
    ensures r.byName == st.byName && r.order == st.order
  {
    st.(dependentOn := st.dependentOn[name := DependentsOf(st, name) + {dep}])
  }

  /** The order lists exactly the stored names. */
  ghost predicate KeysInOrder(st: Scan) {
    forall n :: n in st.byName <==> n in st.order
  }

  /** The order lists every stored name exactly once. */
  ghost predicate OrderIsKeys(st: Scan) {
    KeysInOrder(st) && forall j, k :: 0 <= j < k < |st.order| ==> st.order[j] != st.order[k]
  }

  /** Every name with via entries has been stored. */
  ghost predicate DependentsStored(st: Scan) {
    st.dependentOn.Keys <= st.byName.Keys
  }

  // ---------------------------------------------------------------------------
  // The parse, as functions of the lines
  // ---------------------------------------------------------------------------

  /**
   * The main loop (parser.py:102-109) from the current line `src[i]` on,
   * with `st` collected so far: the end of input ends the loop (the source
   * catches `StopIteration`).
   */
  function Run(parse: LineParser, src: seq<string>, i: nat, st: Scan): (r: Result<Scan, ParseError>)
    requires i < |src|
    // only a line `Requirement.parse` rejects fails the loop
    ensures r.Failure? ==> r.error.InvalidRequirement?
    // nothing stored is forgotten, and the order is only appended to
    ensures r.Success? ==> st.byName.Keys <= r.value.byName.Keys && st.order <= r.value.order
    decreases |src| - i, 0
  {
    var s := Strip(src[i]);
    if IsSkipped(s) then
      if i + 1 == |src| then Success(st) else Run(parse, src, i + 1, st)
    else
      match parse(s)
      case None => Failure(InvalidRequirement(s))
      case Some(p) => AfterRequirement(parse, src, i + 1, Requirement(p.name, p.specs, false, {}), st)
  }

  /**
   * `_parse_requirement` after the requirement line (parser.py:66-75): `i`
   * is the index of the next line. A via block opens only on a raw line that
   * starts with `ViaPrefix`; the single-line form `# via X` is read as the
   * block entry `X`.
   */
  function AfterRequirement(parse: LineParser, src: seq<string>, i: nat, req: Requirement, st: Scan): (r: Result<Scan, ParseError>)
    requires i <= |src|
    ensures r.Failure? ==> r.error.InvalidRequirement?
    // the requirement is stored whatever follows it
    ensures r.Success? ==> st.byName.Keys + {req.name} <= r.value.byName.Keys && st.order <= r.value.order
    decreases |src| - i, 2
  {
    if i == |src| then Success(Store(st, req))
    else
      var next := src[i];
      if !StartsWith(next, ViaPrefix) then Run(parse, src, i, Store(st, req))
      else if RStrip(next) == ViaPrefix then
        if i + 1 == |src| then Success(Store(st, req))
        else Via(parse, src, i + 1, src[i + 1], req, st)
      else
        Via(parse, src, i, ViaMultilinePrefix + Drop(next, |ViaPrefix| + 1), req, st)
  }

  /**
   * The via loop (parser.py:76-83), where `cur` is the text read for line
   * `src[i]`: an entry starting `-r` marks the requirement primary, any other
   * entry names a dependent. The requirement is stored when the block ends,
   * at the end of input too (the `finally` at parser.py:84-86).
   */
  function Via(parse: LineParser, src: seq<string>, i: nat, cur: string, req: Requirement, st: Scan): (r: Result<Scan, ParseError>)
    requires i < |src|
    ensures r.Failure? ==> r.error.InvalidRequirement?
    // the requirement is stored when the block ends, at the end of input too
    ensures r.Success? ==> st.byName.Keys + {req.name} <= r.value.byName.Keys && st.order <= r.value.order
    decreases |src| - i, 1
  {
    if !StartsWith(cur, ViaMultilinePrefix) then Run(parse, src, i, Store(st, req))
    else
      var entry := Strip(cur[|ViaMultilinePrefix|..]);
      var req' := if StartsWith(entry, "-r") then req.(isPrimaryDependency := true) else req;
      var st' := if StartsWith(entry, "-r") then st else AddDependent(st, req.name, entry);
      if i + 1 == |src| then Success(Store(st', req'))
      else Via(parse, src, i + 1, src[i + 1], req', st')
  }

  // One step of the parse, as the methods below take it.

  lemma RunSkipsLine(parse: LineParser, src: seq<string>, i: nat, st: Scan)
    requires i < |src| && IsSkipped(Strip(src[i]))
    ensures i + 1 == |src| ==> Run(parse, src, i, st) == Success(st)
    ensures i + 1 < |src| ==> Run(parse, src, i, st) == Run(parse, src, i + 1, st)
  {
  }

  lemma RunReadsRequirement(parse: LineParser, src: seq<string>, i: nat, st: Scan, stripped: string)
    requires i < |src| && stripped == Strip(src[i]) && !IsSkipped(stripped)
    ensures parse(stripped).None? ==> Run(parse, src, i, st) == Failure(InvalidRequirement(stripped))
    ensures parse(stripped).Some? ==>
              Run(parse, src, i, st)
              == AfterRequirement(parse, src, i + 1, Requirement(parse(stripped).value.name, parse(stripped).value.specs, false, {}), st)
  {
  }

  lemma AfterRequirementAtEnd(parse: LineParser, src: seq<string>, i: nat, req: Requirement, st: Scan)
    requires i == |src|
    ensures AfterRequirement(parse, src, i, req, st) == Success(Store(st, req))
  {
  }

  lemma AfterRequirementWithoutVia(parse: LineParser, src: seq<string>, i: nat, req: Requirement, st: Scan)
    requires i < |src| && !StartsWith(src[i], ViaPrefix)
    ensures AfterRequirement(parse, src, i, req, st) == Run(parse, src, i, Store(st, req))
  {
  }

  lemma AfterRequirementBareVia(parse: LineParser, src: seq<string>, i: nat, req: Requirement, st: Scan)
    requires i < |src| && StartsWith(src[i], ViaPrefix) && RStrip(src[i]) == ViaPrefix
    ensures i + 1 == |src| ==> AfterRequirement(parse, src, i, req, st) == Success(Store(st, req))
    ensures i + 1 < |src| ==> AfterRequirement(parse, src, i, req, st) == Via(parse, src, i + 1, src[i + 1], req, st)
  {
  }

  lemma AfterRequirementInlineVia(parse: LineParser, src: seq<string>, i: nat, req: Requirement, st: Scan)
    requires i < |src| && StartsWith(src[i], ViaPrefix) && RStrip(src[i]) != ViaPrefix
    ensures AfterRequirement(parse, src, i, req, st)
            == Via(parse, src, i, ViaMultilinePrefix + Drop(src[i], |ViaPrefix| + 1), req, st)
  {
  }

  lemma ViaEnds(parse: LineParser, src: seq<string>, i: nat, cur: string, req: Requirement, st: Scan)
    requires i < |src| && !StartsWith(cur, ViaMultilinePrefix)
    ensures Via(parse, src, i, cur, req, st) == Run(parse, src, i, Store(st, req))
  {
  }

  lemma ViaEntry(parse: LineParser, src: seq<string>, i: nat, cur: string, req: Requirement, st: Scan,
                 req': Requirement, st': Scan)
    requires i < |src| && StartsWith(cur, ViaMultilinePrefix)
    requires var entry := Strip(cur[|ViaMultilinePrefix|..]);
             && req' == (if StartsWith(entry, "-r") then req.(isPrimaryDependency := true) else req)
             && st' == (if StartsWith(entry, "-r") then st else AddDependent(st, req.name, entry))
    ensures i + 1 == |src| ==> Via(parse, src, i, cur, req, st) == Success(Store(st', req'))
    ensures i + 1 < |src| ==> Via(parse, src, i, cur, req, st) == Via(parse, src, i + 1, src[i + 1], req', st')
  {
  }

  /** Every via entry names a stored requirement. */
  predicate DependentsKnown(st: Scan) {
    forall n, p :: n in st.dependentOn && p in st.dependentOn[n] ==> p in st.byName
  }

  /** The stored requirement `name` with the names that depend on it added to `requirement_for`. */
  function Linked(st: Scan, name: string): Requirement
    requires name in st.byName
  {
    st.byName[name].(requirementFor := st.byName[name].requirementFor + DependentsOf(st, name))
  }

  /** `list(d.values())` of an insertion-ordered dictionary. */
  function ValuesInOrder(m: map<string, Requirement>, order: seq<string>): (r: seq<Requirement>)
    requires forall k :: 0 <= k < |order| ==> order[k] in m
    ensures |r| == |order| && forall k :: 0 <= k < |order| ==> r[k] == m[order[k]]
  {
    seq(|order|, k requires 0 <= k < |order| && order[k] in m => m[order[k]])
  }

  /**
   * The linking loop and the result (parser.py:112-116): each requirement,
   * in first-insertion order, with the names that depend on it added to
   * `requirement_for`; a `KeyError` when a via entry names no requirement.
   */
  function Link(st: Scan): (r: Result<seq<Requirement>, ParseError>)
    requires KeysInOrder(st)
    ensures r.Failure? <==> !DependentsKnown(st)
    ensures r.Success? ==> |r.value| == |st.order|
    ensures r.Success? ==> forall k :: 0 <= k < |st.order| ==> r.value[k] == Linked(st, st.order[k])
  {
    if !DependentsKnown(st) then Failure(UnknownDependent)
    else Success(seq(|st.order|, k requires 0 <= k < |st.order| => Linked(st, st.order[k])))
  }

  /** `_requirements_by_name` once every requirement is linked. */
  function LinkedMap(st: Scan): (m: map<string, Requirement>)
    ensures m.Keys == st.byName.Keys
  {
    map n | n in st.byName :: Linked(st, n)
  }

  /**
   * Once every target is linked, the dictionary is `LinkedMap` and its
   * values in insertion order are the result of `Link`.
   */
  lemma LinkedInOrder(st: Scan, linked: map<string, Requirement>)
    requires KeysInOrder(st) && DependentsKnown(st) && linked.Keys == st.byName.Keys
    requires forall n :: n in linked ==>
               linked[n] == if n in st.dependentOn then Linked(st, n) else st.byName[n]
    ensures forall k :: 0 <= k < |st.order| ==> st.order[k] in linked
    ensures linked == LinkedMap(st)
    ensures Link(st) == Success(ValuesInOrder(linked, st.order))
  {
    forall n | n in linked ensures linked[n] == Linked(st, n) {
      if n !in st.dependentOn {
        assert st.byName[n].requirementFor + DependentsOf(st, n) == st.byName[n].requirementFor;
      }
    }
    var r := ValuesInOrder(linked, st.order);
    assert r == Link(st).value;
  }

  /**
   * Part-way through the linking loop: the targets outside `left` are
   * linked and their via entries all name requirements; every other
   * requirement is as it was stored.
   */
  ghost predicate LinkedExcept(st: Scan, linked: map<string, Requirement>, left: set<string>) {
    left <= st.dependentOn.Keys && linked.Keys == st.byName.Keys
    && (forall n :: n in linked ==>
          linked[n] == if n in st.dependentOn && n !in left then Linked(st, n) else st.byName[n])
    && (forall n, p :: n in st.dependentOn && n !in left && p in st.dependentOn[n] ==> p in st.byName)
  }

  /** Linking one more target, whose via entries all name requirements, keeps `LinkedExcept`. */
  lemma LinkStep(st: Scan, linked: map<string, Requirement>, left: set<string>, target: string, reqFor: set<string>)
    requires DependentsStored(st) && LinkedExcept(st, linked, left) && target in left
    requires forall p :: p in st.dependentOn[target] ==> p in st.byName
    requires reqFor == st.byName[target].requirementFor + st.dependentOn[target]
    ensures target in linked
    ensures LinkedExcept(st, linked[target := linked[target].(requirementFor := reqFor)], left - {target})
  {
  }

  /**
   * `RequirementsParser(src).parse()`: only an input with no line at all is
   * `EmptyInput`, and a successful parse lists every name once.
   */
  function ParseLines(parse: LineParser, src: seq<string>): (r: Result<seq<Requirement>, ParseError>)
    ensures r == Failure(EmptyInput) <==> |src| == 0
    ensures r.Success? ==> forall j, k :: 0 <= j < k < |r.value| ==> r.value[j].name != r.value[k].name
  {
    if |src| == 0 then Failure(EmptyInput)
    else
      StartInvariants();
      match Run(parse, src, 0, Start)
      case Failure(e) => Failure(e)
      case Success(st) =>
        RunInvariants(parse, src, 0, Start);
        StoredUnlinked(parse, src, 0, Start);
        Link(st)
  }

  // ---------------------------------------------------------------------------
  // Properties of a parse
  // ---------------------------------------------------------------------------

  lemma StartInvariants()
    ensures OrderIsKeys(Start) && DependentsStored(Start)
  {
  }

  lemma StoreInvariants(st: Scan, req: Requirement)
    requires OrderIsKeys(st)
    ensures OrderIsKeys(Store(st, req))
    ensures st.order <= Store(st, req).order
    ensures st.byName.Keys + {req.name} == Store(st, req).byName.Keys
  {
    var st' := Store(st, req);
    if req.name !in st.byName {
      forall j, k | 0 <= j < k < |st'.order| ensures st'.order[j] != st'.order[k] {
        if k == |st.order| {
          assert st.order[j] in st.byName;
        }
      }
    }
  }

  /**
   * A parse keeps the order listing each stored name once, only ever
   * appends to it (a repeated name keeps its first place), never forgets a
   * stored name, and stores every name that gets via entries.
   */
  lemma {:induction false} RunInvariants(parse: LineParser, src: seq<string>, i: nat, st: Scan)
    requires i < |src| && OrderIsKeys(st) && DependentsStored(st)
    ensures var r := Run(parse, src, i, st);
            r.Success? ==> OrderIsKeys(r.value) && DependentsStored(r.value)
                           && st.order <= r.value.order && st.byName.Keys <= r.value.byName.Keys
    decreases |src| - i, 0
  {
    var s := Strip(src[i]);
    if IsSkipped(s) {
      if i + 1 < |src| {
        RunInvariants(parse, src, i + 1, st);
      }
    } else if parse(s).Some? {
      var p := parse(s).value;
      AfterRequirementInvariants(parse, src, i + 1, Requirement(p.name, p.specs, false, {}), st);
    }
  }

  lemma {:induction false} AfterRequirementInvariants(parse: LineParser, src: seq<string>, i: nat, req: Requirement, st: Scan)
    requires i <= |src| && OrderIsKeys(st) && DependentsStored(st)
    ensures var r := AfterRequirement(parse, src, i, req, st);
            r.Success? ==> OrderIsKeys(r.value) && DependentsStored(r.value)
                           && st.order <= r.value.order && st.byName.Keys + {req.name} <= r.value.byName.Keys
    decreases |src| - i, 2
  {
    StoreInvariants(st, req);
    if i < |src| {
      var next := src[i];
      if !StartsWith(next, ViaPrefix) {
        RunInvariants(parse, src, i, Store(st, req));
      } else if RStrip(next) == ViaPrefix {
        if i + 1 < |src| {
          ViaInvariants(parse, src, i + 1, src[i + 1], req, st);
        }
      } else {
        ViaInvariants(parse, src, i, ViaMultilinePrefix + Drop(next, |ViaPrefix| + 1), req, st);
      }
    }
  }

  lemma {:induction false} ViaInvariants(parse: LineParser, src: seq<string>, i: nat, cur: string, req: Requirement, st: Scan)
    requires i < |src| && OrderIsKeys(st) && st.dependentOn.Keys <= st.byName.Keys + {req.name}
    ensures var r := Via(parse, src, i, cur, req, st);
            r.Success? ==> OrderIsKeys(r.value) && DependentsStored(r.value)
                           && st.order <= r.value.order && st.byName.Keys + {req.name} <= r.value.byName.Keys
    decreases |src| - i, 1
  {
    if !StartsWith(cur, ViaMultilinePrefix) {
      StoreInvariants(st, req);
      RunInvariants(parse, src, i, Store(st, req));
    } else {
      var entry := Strip(cur[|ViaMultilinePrefix|..]);
      var req' := if StartsWith(entry, "-r") then req.(isPrimaryDependency := true) else req;
      var st' := if StartsWith(entry, "-r") then st else AddDependent(st, req.name, entry);
      StoreInvariants(st', req');
      if i + 1 < |src| {
        ViaInvariants(parse, src, i + 1, src[i + 1], req', st');
      }
    }
  }

  /**
   * A requirement line is never lost: when the parse from it succeeds, its
   * name is stored, even when the input ends inside its via block.
   */
  lemma RequirementLineIsStored(parse: LineParser, src: seq<string>, i: nat, st: Scan)
    requires i < |src| && OrderIsKeys(st) && DependentsStored(st)
    requires !IsSkipped(Strip(src[i])) && parse(Strip(src[i])).Some?
    ensures Run(parse, src, i, st).Success? ==>
              parse(Strip(src[i])).value.name in Run(parse, src, i, st).value.byName
  {
    var p := parse(Strip(src[i])).value;
    AfterRequirementInvariants(parse, src, i + 1, Requirement(p.name, p.specs, false, {}), st);
  }

  /**
   * The parse does not change if the lines before `i` change: `Run` reads
   * the input from `src[i]` on only.
   */
  lemma {:induction false} RunReadsSuffix(parse: LineParser, a: seq<string>, i: nat, b: seq<string>, j: nat, st: Scan)
    requires i < |a| && j < |b| && a[i..] == b[j..]
    ensures Run(parse, a, i, st) == Run(parse, b, j, st)
    decreases |a| - i, 0
  {
    assert a[i] == a[i..][0] && b[j] == b[j..][0];
    var s := Strip(a[i]);
    if IsSkipped(s) {
      if i + 1 < |a| {
        assert a[i + 1..] == a[i..][1..] && b[j + 1..] == b[j..][1..];
        RunReadsSuffix(parse, a, i + 1, b, j + 1, st);
      }
    } else if parse(s).Some? {
      var p := parse(s).value;
      assert a[i + 1..] == a[i..][1..] && b[j + 1..] == b[j..][1..];
      AfterRequirementReadsSuffix(parse, a, i + 1, b, j + 1, Requirement(p.name, p.specs, false, {}), st);
    }
  }

  lemma {:induction false} AfterRequirementReadsSuffix(parse: LineParser, a: seq<string>, i: nat, b: seq<string>, j: nat, req: Requirement, st: Scan)
    requires i <= |a| && j <= |b| && a[i..] == b[j..]
    ensures AfterRequirement(parse, a, i, req, st) == AfterRequirement(parse, b, j, req, st)
    decreases |a| - i, 2
  {
    if i < |a| {
      assert a[i] == a[i..][0] && b[j] == b[j..][0];
      var next := a[i];
      if !StartsWith(next, ViaPrefix) {
        RunReadsSuffix(parse, a, i, b, j, Store(st, req));
      } else if RStrip(next) == ViaPrefix {
        if i + 1 < |a| {
          assert a[i + 1..] == a[i..][1..] && b[j + 1..] == b[j..][1..];
          assert a[i + 1] == a[i + 1..][0] && b[j + 1] == b[j + 1..][0];
          ViaReadsSuffix(parse, a, i + 1, b, j + 1, a[i + 1], req, st);
        }
      } else {
        ViaReadsSuffix(parse, a, i, b, j, ViaMultilinePrefix + Drop(next, |ViaPrefix| + 1), req, st);
      }
    }
  }

  lemma {:induction false} ViaReadsSuffix(parse: LineParser, a: seq<string>, i: nat, b: seq<string>, j: nat, cur: string, req: Requirement, st: Scan)
    requires i < |a| && j < |b| && a[i..] == b[j..]
    ensures Via(parse, a, i, cur, req, st) == Via(parse, b, j, cur, req, st)
    decreases |a| - i, 1
  {
    if !StartsWith(cur, ViaMultilinePrefix) {
      RunReadsSuffix(parse, a, i, b, j, Store(st, req));
    } else {
      var entry := Strip(cur[|ViaMultilinePrefix|..]);
      var req' := if StartsWith(entry, "-r") then req.(isPrimaryDependency := true) else req;
      var st' := if StartsWith(entry, "-r") then st else AddDependent(st, req.name, entry);
      if i + 1 < |a| {
        assert a[i + 1..] == a[i..][1..] && b[j + 1..] == b[j..][1..];
        assert a[i + 1] == a[i + 1..][0] && b[j + 1] == b[j + 1..][0];
        ViaReadsSuffix(parse, a, i + 1, b, j + 1, a[i + 1], req', st');
      }
    }
  }

  /**
   * The single-line form `    # via X` after a requirement reads exactly as
   * a bare `    # via` line followed by `    #   X` would (parser.py:71-75),
   * whatever trailing whitespace either line keeps (lines read from a file
   * keep their `"\n"`), as long as `X` holds something other than
   * whitespace.
   */
  lemma SingleLineViaIsFirstEntry(parse: LineParser, pre: seq<string>, reqLine: string, bare: string, x: string, post: seq<string>, st: Scan)
    requires !IsSkipped(Strip(reqLine)) && parse(Strip(reqLine)).Some?
    requires StartsWith(bare, ViaPrefix) && RStrip(bare) == ViaPrefix
    requires exists k :: 0 <= k < |x| && !IsSpace(x[k])
    ensures var single := pre + [reqLine, ViaPrefix + " " + x] + post;
            var block := pre + [reqLine, bare, ViaMultilinePrefix + x] + post;
            Run(parse, single, |pre|, st) == Run(parse, block, |pre|, st)
  {
    var single := pre + [reqLine, ViaPrefix + " " + x] + post;
    var block := pre + [reqLine, bare, ViaMultilinePrefix + x] + post;
    var p := parse(Strip(reqLine)).value;
    var req := Requirement(p.name, p.specs, false, {});
    var i := |pre|;
    assert single[i] == reqLine && block[i] == reqLine;
    var line := ViaPrefix + " " + x;
    assert single[i + 1] == line && block[i + 1] == bare && block[i + 2] == ViaMultilinePrefix + x;
    assert StartsWith(line, ViaPrefix) by { assert line[..|ViaPrefix|] == ViaPrefix; }
    assert RStrip(line) != ViaPrefix by {
      var k :| 0 <= k < |x| && !IsSpace(x[k]);
      assert line[|ViaPrefix| + 1 + k] == x[k];
      RStripIsPrefix(line);
    }
    assert Drop(line, |ViaPrefix| + 1) == x by { assert line[..|ViaPrefix| + 1] + x == line; }
    assert AfterRequirement(parse, single, i + 1, req, st) == Via(parse, single, i + 1, ViaMultilinePrefix + x, req, st);
    assert AfterRequirement(parse, block, i + 1, req, st) == Via(parse, block, i + 2, ViaMultilinePrefix + x, req, st);
    assert single[i + 2..] == post == block[i + 3..];
    assert StartsWith(ViaMultilinePrefix + x, ViaMultilinePrefix) by {
      assert (ViaMultilinePrefix + x)[..|ViaMultilinePrefix|] == ViaMultilinePrefix;
    }
    FirstEntrySameRest(parse, single, i + 1, block, i + 2, ViaMultilinePrefix + x, req, st);
  }

  /** Two via blocks at the same entry, followed by the same lines, read the same. */
  lemma FirstEntrySameRest(parse: LineParser, a: seq<string>, i: nat, b: seq<string>, j: nat, cur: string, req: Requirement, st: Scan)
    requires i < |a| && j < |b| && a[i + 1..] == b[j + 1..]
    requires StartsWith(cur, ViaMultilinePrefix)
    ensures Via(parse, a, i, cur, req, st) == Via(parse, b, j, cur, req, st)
  {
    var entry := Strip(cur[|ViaMultilinePrefix|..]);
    var req' := if StartsWith(entry, "-r") then req.(isPrimaryDependency := true) else req;
    var st' := if StartsWith(entry, "-r") then st else AddDependent(st, req.name, entry);
    if i + 1 < |a| {
      assert a[i + 1] == a[i + 1..][0] && b[j + 1] == b[j + 1..][0];
      ViaReadsSuffix(parse, a, i + 1, b, j + 1, a[i + 1], req', st');
    }
  }

  /**
   * After linking, each requirement's `requirement_for` is exactly the set of
   * names its via blocks listed other than `-r` entries, and the parse fails
   * exactly when one of those names is not in the file.
   */
  lemma LinkIsExact(parse: LineParser, src: seq<string>)
    requires |src| > 0 && Run(parse, src, 0, Start).Success?
    ensures var st := Run(parse, src, 0, Start).value;
            var r := ParseLines(parse, src);
            (r.Failure? <==> !DependentsKnown(st))
            && (r.Success? ==> forall k :: 0 <= k < |r.value| ==>
                  r.value[k].name == st.order[k] && r.value[k].requirementFor == DependentsOf(st, st.order[k]))
  {
    StartInvariants();
    RunInvariants(parse, src, 0, Start);
    StoredUnlinked(parse, src, 0, Start);
  }

  /** A requirement is stored under its own name, with nothing linked yet. */
  ghost predicate Unlinked(st: Scan) {
    forall n :: n in st.byName ==> st.byName[n].name == n && st.byName[n].requirementFor == {}
  }

  lemma {:induction false} StoredUnlinked(parse: LineParser, src: seq<string>, i: nat, st: Scan)
    requires i < |src| && Unlinked(st)
    ensures var r := Run(parse, src, i, st); r.Success? ==> Unlinked(r.value)
    decreases |src| - i, 0
  {
    var s := Strip(src[i]);
    if IsSkipped(s) {
      if i + 1 < |src| {
        StoredUnlinked(parse, src, i + 1, st);
      }
    } else if parse(s).Some? {
      var p := parse(s).value;
      AfterRequirementUnlinked(parse, src, i + 1, Requirement(p.name, p.specs, false, {}), st);
    }
  }

  lemma {:induction false} AfterRequirementUnlinked(parse: LineParser, src: seq<string>, i: nat, req: Requirement, st: Scan)
    requires i <= |src| && Unlinked(st) && req.requirementFor == {}
    ensures var r := AfterRequirement(parse, src, i, req, st); r.Success? ==> Unlinked(r.value)
    decreases |src| - i, 2
  {
    if i < |src| {
      var next := src[i];
      if !StartsWith(next, ViaPrefix) {
        StoreUnlinked(st, req);
        StoredUnlinked(parse, src, i, Store(st, req));
      } else if RStrip(next) == ViaPrefix {
        if i + 1 < |src| {
          ViaUnlinked(parse, src, i + 1, src[i + 1], req, st);
        }
      } else {
        ViaUnlinked(parse, src, i, ViaMultilinePrefix + Drop(next, |ViaPrefix| + 1), req, st);
      }
    }
  }

  lemma StoreUnlinked(st: Scan, req: Requirement)
    requires Unlinked(st) && req.requirementFor == {}
    ensures Unlinked(Store(st, req))
  {
  }

  lemma {:induction false} ViaUnlinked(parse: LineParser, src: seq<string>, i: nat, cur: string, req: Requirement, st: Scan)
    requires i < |src| && Unlinked(st) && req.requirementFor == {}
    ensures var r := Via(parse, src, i, cur, req, st); r.Success? ==> Unlinked(r.value)
    decreases |src| - i, 1
  {
    if !StartsWith(cur, ViaMultilinePrefix) {
      StoreUnlinked(st, req);
      StoredUnlinked(parse, src, i, Store(st, req));
    } else {
      var entry := Strip(cur[|ViaMultilinePrefix|..]);
      var req' := if StartsWith(entry, "-r") then req.(isPrimaryDependency := true) else req;
      var st' := if StartsWith(entry, "-r") then st else AddDependent(st, req.name, entry);
      assert st'.byName == st.byName;
      if i + 1 < |src| {
        ViaUnlinked(parse, src, i + 1, src[i + 1], req', st');
      } else {
        StoreUnlinked(st', req');
      }
    }
  }

  // ---------------------------------------------------------------------------
  // What the insertion-ordered dictionary keeps of the requirements read
  // ---------------------------------------------------------------------------

  /**
   * The requirements the main loop reads from `src[i]` on, one per
   * requirement line in the order of the lines, each with the flag its via
   * block sets: the parse without its dictionaries.
   */
  function RunReads(parse: LineParser, src: seq<string>, i: nat): Result<seq<Requirement>, ParseError>
    requires i < |src|
    decreases |src| - i, 0, 0
  {
    var s := Strip(src[i]);
    if IsSkipped(s) then
      if i + 1 == |src| then Success([]) else RunReads(parse, src, i + 1)
    else
      match parse(s)
      case None => Failure(InvalidRequirement(s))
      case Some(p) => AfterReads(parse, src, i + 1, Requirement(p.name, p.specs, false, {}))
  }

  /** `req` followed by the requirements read from `src[i]` on. */
  function ThenReads(req: Requirement, parse: LineParser, src: seq<string>, i: nat): Result<seq<Requirement>, ParseError>
    requires i < |src|
    decreases |src| - i, 0, 1
  {
    match RunReads(parse, src, i)
    case Failure(e) => Failure(e)
    case Success(rs) => Success([req] + rs)
  }

  function AfterReads(parse: LineParser, src: seq<string>, i: nat, req: Requirement): Result<seq<Requirement>, ParseError>
    requires i <= |src|
    decreases |src| - i, 2
  {
    if i == |src| then Success([req])
    else
      var next := src[i];
      if !StartsWith(next, ViaPrefix) then ThenReads(req, parse, src, i)
      else if RStrip(next) == ViaPrefix then
        if i + 1 == |src| then Success([req])
        else ViaReads(parse, src, i + 1, src[i + 1], req)
      else
        ViaReads(parse, src, i, ViaMultilinePrefix + Drop(next, |ViaPrefix| + 1), req)
  }

  function ViaReads(parse: LineParser, src: seq<string>, i: nat, cur: string, req: Requirement): Result<seq<Requirement>, ParseError>
    requires i < |src|
    decreases |src| - i, 1
  {
    if !StartsWith(cur, ViaMultilinePrefix) then ThenReads(req, parse, src, i)
    else
      var entry := Strip(cur[|ViaMultilinePrefix|..]);
      var req' := if StartsWith(entry, "-r") then req.(isPrimaryDependency := true) else req;
      if i + 1 == |src| then Success([req'])
      else ViaReads(parse, src, i + 1, src[i + 1], req')
  }

  /** Storing the requirements `reqs` one after the other. */
  function StoreAll(st: Scan, reqs: seq<Requirement>): Scan
    decreases |reqs|
  {
    if reqs == [] then st else StoreAll(Store(st, reqs[0]), reqs[1..])
  }

  /** The position of the first requirement named `n`, or `|reqs|` when there is none. */
  function FirstIndex(reqs: seq<Requirement>, n: string): (k: nat)
    ensures k <= |reqs|
    ensures k < |reqs| ==> reqs[k].name == n
    ensures forall j :: 0 <= j < k ==> reqs[j].name != n
  {
    if reqs == [] then 0
    else if reqs[0].name == n then 0
    else 1 + FirstIndex(reqs[1..], n)
  }

  /** The position of the last requirement named `n`, or `-1` when there is none. */
  function LastIndex(reqs: seq<Requirement>, n: string): (k: int)
    ensures -1 <= k < |reqs|
    ensures k >= 0 ==> reqs[k].name == n
    ensures forall j :: k < j < |reqs| ==> reqs[j].name != n
  {
    if reqs == [] then -1
    else if reqs[|reqs| - 1].name == n then |reqs| - 1
    else LastIndex(reqs[..|reqs| - 1], n)
  }

  lemma StoreAllSnoc(st: Scan, reqs: seq<Requirement>, x: Requirement)
    ensures StoreAll(st, reqs + [x]) == Store(StoreAll(st, reqs), x)
    decreases |reqs|
  {
    if reqs != [] {
      assert (reqs + [x])[1..] == reqs[1..] + [x];
      StoreAllSnoc(Store(st, reqs[0]), reqs[1..], x);
    }
  }

  /** What `StoreAll` stores depends only on the dictionary it starts from, not on the via entries. */
  lemma StoreAllKeyed(st: Scan, st': Scan, reqs: seq<Requirement>)
    requires st.byName == st'.byName && st.order == st'.order
    ensures StoreAll(st, reqs).byName == StoreAll(st', reqs).byName
    ensures StoreAll(st, reqs).order == StoreAll(st', reqs).order
    decreases |reqs|
  {
    if reqs != [] {
      StoreAllKeyed(Store(st, reqs[0]), Store(st', reqs[0]), reqs[1..]);
    }
  }

  lemma StoreAllCons(st: Scan, req: Requirement, reqs: seq<Requirement>)
    ensures StoreAll(st, [req] + reqs) == StoreAll(Store(st, req), reqs)
  {
    assert ([req] + reqs)[1..] == reqs;
  }

  /**
   * The dictionaries a parse leaves are the requirements it reads, stored
   * one after the other; the parse fails exactly when the reading does, and
   * with the same error.
   */
  lemma {:induction false} RunStoresReads(parse: LineParser, src: seq<string>, i: nat, st: Scan)
    requires i < |src|
    ensures var r := Run(parse, src, i, st);
            var rs := RunReads(parse, src, i);
            r.Success? == rs.Success? && (r.Failure? ==> r.error == rs.error)
            && (r.Success? ==> r.value.byName == StoreAll(st, rs.value).byName && r.value.order == StoreAll(st, rs.value).order)
    decreases |src| - i, 0, 0
  {
    var s := Strip(src[i]);
    if IsSkipped(s) {
      if i + 1 < |src| {
        RunStoresReads(parse, src, i + 1, st);
      }
    } else if parse(s).Some? {
      var p := parse(s).value;
      AfterRequirementStoresReads(parse, src, i + 1, Requirement(p.name, p.specs, false, {}), st);
    }
  }

  lemma {:induction false} ThenStoresReads(parse: LineParser, src: seq<string>, i: nat, req: Requirement, st: Scan)
    requires i < |src|
    ensures var r := Run(parse, src, i, Store(st, req));
            var rs := ThenReads(req, parse, src, i);
            r.Success? == rs.Success? && (r.Failure? ==> r.error == rs.error)
            && (r.Success? ==> r.value.byName == StoreAll(st, rs.value).byName && r.value.order == StoreAll(st, rs.value).order)
    decreases |src| - i, 0, 1
  {
    RunStoresReads(parse, src, i, Store(st, req));
    if RunReads(parse, src, i).Success? {
      StoreAllCons(st, req, RunReads(parse, src, i).value);
    }
  }

  lemma {:induction false} AfterRequirementStoresReads(parse: LineParser, src: seq<string>, i: nat, req: Requirement, st: Scan)
    requires i <= |src|
    ensures var r := AfterRequirement(parse, src, i, req, st);
            var rs := AfterReads(parse, src, i, req);
            r.Success? == rs.Success? && (r.Failure? ==> r.error == rs.error)
            && (r.Success? ==> r.value.byName == StoreAll(st, rs.value).byName && r.value.order == StoreAll(st, rs.value).order)
    decreases |src| - i, 2
  {
    StoreAllCons(st, req, []);
    if i < |src| {
      var next := src[i];
      if !StartsWith(next, ViaPrefix) {
        ThenStoresReads(parse, src, i, req, st);
      } else if RStrip(next) == ViaPrefix {
        if i + 1 < |src| {
          ViaStoresReads(parse, src, i + 1, src[i + 1], req, st);
        }
      } else {
        ViaStoresReads(parse, src, i, ViaMultilinePrefix + Drop(next, |ViaPrefix| + 1), req, st);
      }
    }
  }

  lemma {:induction false} ViaStoresReads(parse: LineParser, src: seq<string>, i: nat, cur: string, req: Requirement, st: Scan)
    requires i < |src|
    ensures var r := Via(parse, src, i, cur, req, st);
            var rs := ViaReads(parse, src, i, cur, req);
            r.Success? == rs.Success? && (r.Failure? ==> r.error == rs.error)
            && (r.Success? ==> r.value.byName == StoreAll(st, rs.value).byName && r.value.order == StoreAll(st, rs.value).order)
    decreases |src| - i, 1
  {
    if !StartsWith(cur, ViaMultilinePrefix) {
      ThenStoresReads(parse, src, i, req, st);
    } else {
      var entry := Strip(cur[|ViaMultilinePrefix|..]);
      var req' := if StartsWith(entry, "-r") then req.(isPrimaryDependency := true) else req;
      var st' := if StartsWith(entry, "-r") then st else AddDependent(st, req.name, entry);
      if i + 1 < |src| {
        ViaStoresReads(parse, src, i + 1, src[i + 1], req', st');
        if ViaReads(parse, src, i + 1, src[i + 1], req').Success? {
          StoreAllKeyed(st', st, ViaReads(parse, src, i + 1, src[i + 1], req').value);
        }
      } else {
        StoreAllCons(st, req', []);
      }
    }
  }

  /** `FirstIndex` is the one position that is the first with its name. */
  lemma FirstIndexIs(reqs: seq<Requirement>, n: string, k: nat)
    requires k <= |reqs| && (k < |reqs| ==> reqs[k].name == n)
    requires forall j :: 0 <= j < k ==> reqs[j].name != n
    ensures FirstIndex(reqs, n) == k
  {
  }

  /** Appending `x` moves no name's first position, and `x` is first where its name is new. */
  lemma FirstIndexSnoc(pre: seq<Requirement>, x: Requirement, n: string)
    ensures FirstIndex(pre + [x], n)
            == if FirstIndex(pre, n) < |pre| then FirstIndex(pre, n) else if x.name == n then |pre| else |pre| + 1
  {
    var reqs := pre + [x];
    var f := FirstIndex(pre, n);
    if f < |pre| {
      FirstIndexIs(reqs, n, f);
    } else if x.name == n {
      FirstIndexIs(reqs, n, |pre|);
    } else {
      FirstIndexIs(reqs, n, |pre| + 1);
    }
  }

  /** Appending `x` makes it the last of its name and moves no other. */
  lemma LastIndexSnoc(pre: seq<Requirement>, x: Requirement, n: string)
    ensures LastIndex(pre + [x], n) == if x.name == n then |pre| else LastIndex(pre, n)
  {
    assert (pre + [x])[..|pre|] == pre;
  }

  /** `d` holds exactly the names of `reqs`. */
  ghost predicate KeysAreNames(d: Scan, reqs: seq<Requirement>) {
    forall n :: n in d.byName <==> FirstIndex(reqs, n) < |reqs|
  }

  /** The entry `d` holds for a name is the last requirement of `reqs` with that name. */
  ghost predicate EntriesAreLast(d: Scan, reqs: seq<Requirement>) {
    forall n :: n in d.byName ==> 0 <= LastIndex(reqs, n) && d.byName[n] == reqs[LastIndex(reqs, n)]
  }

  /** The order of `d` lists names by their first position in `reqs`. */
  ghost predicate OrderedByFirst(d: Scan, reqs: seq<Requirement>) {
    forall j, k :: 0 <= j < k < |d.order| ==> FirstIndex(reqs, d.order[j]) < FirstIndex(reqs, d.order[k])
  }

  lemma KeysStep(dp: Scan, pre: seq<Requirement>, x: Requirement)
    requires KeysAreNames(dp, pre)
    ensures KeysAreNames(Store(dp, x), pre + [x])
  {
    forall n ensures n in Store(dp, x).byName <==> FirstIndex(pre + [x], n) < |pre + [x]| {
      FirstIndexSnoc(pre, x, n);
    }
  }

  lemma EntriesStep(dp: Scan, pre: seq<Requirement>, x: Requirement)
    requires EntriesAreLast(dp, pre)
    ensures EntriesAreLast(Store(dp, x), pre + [x])
  {
    var d, reqs := Store(dp, x), pre + [x];
    forall n | n in d.byName ensures 0 <= LastIndex(reqs, n) && d.byName[n] == reqs[LastIndex(reqs, n)] {
      LastIndexSnoc(pre, x, n);
      if n != x.name {
        assert reqs[LastIndex(pre, n)] == pre[LastIndex(pre, n)];
      }
    }
  }

  lemma OrderStep(dp: Scan, pre: seq<Requirement>, x: Requirement)
    requires OrderIsKeys(dp) && KeysAreNames(dp, pre) && OrderedByFirst(dp, pre)
    ensures OrderedByFirst(Store(dp, x), pre + [x])
  {
    var o := Store(dp, x).order;
    forall j, k | 0 <= j < k < |o| ensures FirstIndex(pre + [x], o[j]) < FirstIndex(pre + [x], o[k]) {
      assert o[j] in dp.byName by { assert dp.order[j] in dp.order; }
      FirstIndexSnoc(pre, x, o[j]);
      FirstIndexSnoc(pre, x, o[k]);
      if k < |dp.order| {
        assert o[k] in dp.byName by { assert dp.order[k] in dp.order; }
      }
    }
  }

  /**
   * The insertion-ordered dictionary, filled from `reqs`: it holds exactly
   * the names of `reqs`, the entry for a name is the last requirement with
   * that name, and the names are listed once each in the order in which
   * they first appear.
   */
  lemma {:induction false} StoreAllKeepsFirstPlaceLastEntry(reqs: seq<Requirement>)
    ensures var d := StoreAll(Start, reqs);
            OrderIsKeys(d) && KeysAreNames(d, reqs) && EntriesAreLast(d, reqs) && OrderedByFirst(d, reqs)
    decreases |reqs|
  {
    if reqs == [] {
      StartInvariants();
    } else {
      var m := |reqs| - 1;
      var pre, x := reqs[..m], reqs[m];
      assert reqs == pre + [x];
      StoreAllKeepsFirstPlaceLastEntry(pre);
      StoreAllSnoc(Start, pre, x);
      var dp := StoreAll(Start, pre);
      StoreInvariants(dp, x);
      KeysStep(dp, pre, x);
      EntriesStep(dp, pre, x);
      OrderStep(dp, pre, x);
    }
  }

  /**
   * The dictionary the main loop leaves holds, in its order, the names of
   * the requirements read, each under the last entry read for it.
   */
  lemma ReadsFillScan(parse: LineParser, src: seq<string>)
    requires |src| > 0 && Run(parse, src, 0, Start).Success?
    ensures RunReads(parse, src, 0).Success?
    ensures var st := Run(parse, src, 0, Start).value;
            var rs := RunReads(parse, src, 0).value;
            OrderIsKeys(st) && Unlinked(st) && KeysAreNames(st, rs) && EntriesAreLast(st, rs) && OrderedByFirst(st, rs)
  {
    StartInvariants();
    RunInvariants(parse, src, 0, Start);
    StoredUnlinked(parse, src, 0, Start);
    RunStoresReads(parse, src, 0, Start);
    StoreAllKeepsFirstPlaceLastEntry(RunReads(parse, src, 0).value);
  }

  /** The `k`-th requirement `Link` lists, given what the dictionary holds. */
  lemma LinkedEntry(st: Scan, rs: seq<Requirement>, k: nat)
    requires KeysInOrder(st) && DependentsKnown(st) && Unlinked(st)
    requires KeysAreNames(st, rs) && EntriesAreLast(st, rs)
    requires k < |st.order|
    ensures Link(st).Success? && |Link(st).value| == |st.order|
    ensures var e := Link(st).value[k];
            && e.name == st.order[k]
            && FirstIndex(rs, e.name) < |rs|
            && 0 <= LastIndex(rs, e.name)
            && e.specs == rs[LastIndex(rs, e.name)].specs
            && e.isPrimaryDependency == rs[LastIndex(rs, e.name)].isPrimaryDependency
  {
    var n := st.order[k];
    assert n in st.order;
    assert Link(st).value[k] == Linked(st, n);
  }

  /** Every requirement in `out` has a name read in `rs`. */
  ghost predicate ListsOnlyRead(out: seq<Requirement>, rs: seq<Requirement>) {
    forall k :: 0 <= k < |out| ==> FirstIndex(rs, out[k].name) < |rs|
  }

  /** Some requirement in `out` has name `n`. */
  ghost predicate Lists(out: seq<Requirement>, n: string) {
    exists k :: 0 <= k < |out| && out[k].name == n
  }

  /** Every name read in `rs` has a requirement in `out`. */
  ghost predicate ListsEveryRead(out: seq<Requirement>, rs: seq<Requirement>) {
    forall a :: 0 <= a < |rs| ==> Lists(out, rs[a].name)
  }

  /** `out` lists names by their first position in `rs` (so each name once). */
  ghost predicate ListsByFirstRead(out: seq<Requirement>, rs: seq<Requirement>) {
    forall j, k :: 0 <= j < k < |out| ==> FirstIndex(rs, out[j].name) < FirstIndex(rs, out[k].name)
  }

  /** The specifiers and primary flag listed for a name are those of its last entry in `rs`. */
  ghost predicate ListsLastEntries(out: seq<Requirement>, rs: seq<Requirement>) {
    forall k :: 0 <= k < |out| ==>
      0 <= LastIndex(rs, out[k].name)
      && out[k].specs == rs[LastIndex(rs, out[k].name)].specs
      && out[k].isPrimaryDependency == rs[LastIndex(rs, out[k].name)].isPrimaryDependency
  }

  /**
   * `out` lists exactly the names read in `rs`, each once, in the order of
   * their first entry, each with the contents of its last entry.
   */
  ghost predicate ListsFirstAppearance(out: seq<Requirement>, rs: seq<Requirement>) {
    ListsOnlyRead(out, rs) && ListsEveryRead(out, rs) && ListsByFirstRead(out, rs) && ListsLastEntries(out, rs)
  }

  lemma LinkListsEntries(st: Scan, rs: seq<Requirement>)
    requires KeysInOrder(st) && DependentsKnown(st) && Unlinked(st)
    requires KeysAreNames(st, rs) && EntriesAreLast(st, rs)
    ensures Link(st).Success? && ListsOnlyRead(Link(st).value, rs) && ListsLastEntries(Link(st).value, rs)
  {
    var out := Link(st).value;
    forall k | 0 <= k < |out|
      ensures FirstIndex(rs, out[k].name) < |rs|
      ensures 0 <= LastIndex(rs, out[k].name)
      ensures out[k].specs == rs[LastIndex(rs, out[k].name)].specs
      ensures out[k].isPrimaryDependency == rs[LastIndex(rs, out[k].name)].isPrimaryDependency
    {
      LinkedEntry(st, rs, k);
    }
  }

  lemma LinkListsByFirst(st: Scan, rs: seq<Requirement>)
    requires KeysInOrder(st) && DependentsKnown(st) && Unlinked(st)
    requires KeysAreNames(st, rs) && EntriesAreLast(st, rs) && OrderedByFirst(st, rs)
    ensures Link(st).Success? && ListsByFirstRead(Link(st).value, rs)
  {
    var out := Link(st).value;
    forall j, k | 0 <= j < k < |out| ensures FirstIndex(rs, out[j].name) < FirstIndex(rs, out[k].name) {
      LinkedEntry(st, rs, j);
      LinkedEntry(st, rs, k);
    }
  }

  lemma LinkListsRead(st: Scan, rs: seq<Requirement>, a: nat)
    requires KeysInOrder(st) && DependentsKnown(st) && Unlinked(st)
    requires KeysAreNames(st, rs) && EntriesAreLast(st, rs)
    requires a < |rs|
    ensures Link(st).Success?
    ensures Lists(Link(st).value, rs[a].name)
  {
    var n := rs[a].name;
    assert FirstIndex(rs, n) <= a;
    assert n in st.order;
    var k :| 0 <= k < |st.order| && st.order[k] == n;
    LinkedEntry(st, rs, k);
    assert Link(st).value[k].name == n;
  }

  lemma LinkListsEveryRead(st: Scan, rs: seq<Requirement>)
    requires KeysInOrder(st) && DependentsKnown(st) && Unlinked(st)
    requires KeysAreNames(st, rs) && EntriesAreLast(st, rs)
    ensures Link(st).Success? && ListsEveryRead(Link(st).value, rs)
  {
    forall a | 0 <= a < |rs| ensures Lists(Link(st).value, rs[a].name) {
      LinkListsRead(st, rs, a);
    }
  }

  /** What `Link` lists, given what the dictionary holds. */
  lemma LinkListsFirstAppearance(st: Scan, rs: seq<Requirement>)
    requires KeysInOrder(st) && DependentsKnown(st) && Unlinked(st)
    requires KeysAreNames(st, rs) && EntriesAreLast(st, rs) && OrderedByFirst(st, rs)
    ensures Link(st).Success? && ListsFirstAppearance(Link(st).value, rs)
  {
    LinkListsEntries(st, rs);
    LinkListsByFirst(st, rs);
    LinkListsEveryRead(st, rs);
  }

  /**
   * parser.py:86 and 116: a successful parse lists exactly the names of the
   * requirements read (`RunReads`), each once, in the order of their first
   * requirement line; the entry listed for a name is the one read last (a
   * repeated name replaces the earlier entry but keeps its first place).
   */
  lemma ParseListsFirstAppearance(parse: LineParser, src: seq<string>)
    requires ParseLines(parse, src).Success?
    ensures |src| > 0 && RunReads(parse, src, 0).Success?
    ensures ListsFirstAppearance(ParseLines(parse, src).value, RunReads(parse, src, 0).value)
  {
    ReadsFillScan(parse, src);
    var st := Run(parse, src, 0, Start).value;
    assert ParseLines(parse, src) == Link(st);
    LinkListsFirstAppearance(st, RunReads(parse, src, 0).value);
  }

  // ---------------------------------------------------------------------------
  // The parser
  // ---------------------------------------------------------------------------

  /**
   * `RequirementsParser`: a cursor over the lines of `src` (the iterator is
   * `src` and the number `pos` of lines it has handed out) and the two
   * dictionaries it fills.
   */
  class RequirementsParser {
    /** `Requirement.parse` */
    const parse: LineParser
    /** The lines the iterator yields. */
    const src: seq<string>
    /** How many lines `_next` has taken from the iterator. */
    var pos: nat
    /** `_line` */
    var line: string
    /** `_line_stripped` */
    var lineStripped: string
    /** `_requirements_by_name`: the entries, and the order of their keys. */
    var byName: map<string, Requirement>
    var order: seq<string>
    /** `_requirements_dependent_on` */
    var dependentOn: map<string, set<string>>

    /** What has been collected, as a value. */
    function State(): Scan
      reads this
    {
      Scan(byName, order, dependentOn)
    }

    /** The cursor is on line `pos - 1` of the input. */
    ghost predicate OnLine()
      reads this
    {
      1 <= pos <= |src| && line == src[pos - 1] && lineStripped == Strip(line)
    }

    /** The main loop, resumed on the current line, yields `goal`. */
    ghost predicate Resumes(goal: Result<Scan, ParseError>)
      reads this
    {
      OnLine() && Run(parse, src, pos - 1, State()) == goal
    }

    /**
     * Reads the first line. An input with no line at all makes the source's
     * constructor raise `StopIteration`; it is refused here, and `ParseLines`
     * reports it as `EmptyInput`.
     */
    constructor (parse: LineParser, src: seq<string>)
      requires |src| > 0
      ensures this.parse == parse && this.src == src
      ensures OnLine() && pos == 1 && State() == Start
    {
      this.parse := parse;
      this.src := src;
      pos := 1;
      line := src[0];
      lineStripped := Strip(src[0]);
      byName := map[];
      order := [];
      dependentOn := map[];
    }

    /**
     * `_next`: moves to the next line, or reports that the iterator is
     * exhausted (`StopIteration`) and changes nothing.
     */
    method Next() returns (more: bool)
      requires 1 <= pos <= |src|
      modifies this
      ensures more <==> old(pos) < |src|
      ensures more ==> pos == old(pos) + 1 && OnLine()
      ensures !more ==> pos == old(pos) && line == old(line) && lineStripped == old(lineStripped)
      ensures State() == old(State())
    {
      if pos == |src| {
        return false;
      }
      line := src[pos];
      lineStripped := Strip(line);
      pos := pos + 1;
      return true;
    }

    /**
     * `_skip_commented`, `_skip_blank` and `_skip_unsupported` in their
     * order: a line any of them recognises is consumed. `more` is false when
     * consuming it exhausted the input.
     */
    method SkipCommented(ghost goal: Result<Scan, ParseError>) returns (skipped: bool, more: bool)
      requires Resumes(goal)
      modifies this
      ensures skipped <==> IsComment(old(lineStripped))
      ensures !skipped ==> more && unchanged(this)
      ensures skipped ==> (more <==> old(pos) < |src|) && (more ==> pos == old(pos) + 1 && OnLine())
      ensures State() == old(State())
      ensures skipped && more ==> Resumes(goal)
      ensures skipped && !more ==> goal == Success(State())
    {
      skipped := StartsWith(lineStripped, "#");
      more := true;
      if skipped {
        RunSkipsLine(parse, src, pos - 1, State());
        more := Next();
      }
    }

    method SkipBlank(ghost goal: Result<Scan, ParseError>) returns (skipped: bool, more: bool)
      requires Resumes(goal)
      modifies this
      ensures skipped <==> IsBlank(old(lineStripped))
      ensures !skipped ==> more && unchanged(this)
      ensures skipped ==> (more <==> old(pos) < |src|) && (more ==> pos == old(pos) + 1 && OnLine())
      ensures State() == old(State())
      ensures skipped && more ==> Resumes(goal)
      ensures skipped && !more ==> goal == Success(State())
    {
      skipped := lineStripped == "";
      more := true;
      if skipped {
        RunSkipsLine(parse, src, pos - 1, State());
        more := Next();
      }
    }

    method SkipUnsupported(ghost goal: Result<Scan, ParseError>) returns (skipped: bool, more: bool)
      requires Resumes(goal)
      modifies this
      ensures skipped <==> IsUnsupported(old(lineStripped))
      ensures !skipped ==> more && unchanged(this)
      ensures skipped ==> (more <==> old(pos) < |src|) && (more ==> pos == old(pos) + 1 && OnLine())
      ensures State() == old(State())
      ensures skipped && more ==> Resumes(goal)
      ensures skipped && !more ==> goal == Success(State())
    {
      skipped :=
        StartsWith(lineStripped, "-r")
        || StartsWith(lineStripped, "--requirement")
        || StartsWith(lineStripped, "-f")
        || StartsWith(lineStripped, "--find-links")
        || StartsWith(lineStripped, "-i")
        || StartsWith(lineStripped, "--index-url")
        || StartsWith(lineStripped, "--extra-index-url")
        || StartsWith(lineStripped, "--no-index")
        || StartsWith(lineStripped, "-Z")
        || StartsWith(lineStripped, "--always-unzip");
      more := true;
      if skipped {
        RunSkipsLine(parse, src, pos - 1, State());
        more := Next();
      }
    }

    /**
     * `_parse_requirement`: reads the requirement on the current line and its
     * via block, and stores it. `more` is false when the input ran out; an
     * unparsable line fails the whole parse.
     */
    method ParseRequirement(ghost goal: Result<Scan, ParseError>) returns (r: Result<bool, ParseError>)
      requires Resumes(goal) && !IsSkipped(lineStripped)
      modifies this
      ensures r.Failure? ==> goal == Failure(r.error)
      ensures r.Success? && r.value ==> pos > old(pos) && Resumes(goal)
      ensures r.Success? && !r.value ==> goal == Success(State())
    {
      RunReadsRequirement(parse, src, pos - 1, State(), lineStripped);
      var parsed := parse(lineStripped);
      if parsed.None? {
        return Failure(InvalidRequirement(lineStripped));
      }
      var more := ReadAfter(Requirement(parsed.value.name, parsed.value.specs, false, {}), goal);
      return Success(more);
    }

    /**
     * The rest of `_parse_requirement` (parser.py:66-86), once the
     * requirement `req` is read: the via block, if one follows, and the
     * storing of `req`.
     */
    method ReadAfter(req: Requirement, ghost goal: Result<Scan, ParseError>) returns (more: bool)
      requires OnLine() && AfterRequirement(parse, src, pos, req, State()) == goal
      modifies this
      ensures more ==> pos > old(pos) && Resumes(goal)
      ensures !more ==> goal == Success(State())
    {
      ghost var i, st := pos, State();
      more := Next();
      if !more {
        AfterRequirementAtEnd(parse, src, i, req, st);
        StoreRequirement(req);
      } else if !StartsWith(line, ViaPrefix) {
        AfterRequirementWithoutVia(parse, src, i, req, st);
        StoreRequirement(req);
        assert Resumes(goal);
      } else {
        more := OpenVia(req, goal);
        assert more ==> Resumes(goal);
      }
    }

    /**
     * parser.py:71-75: the line after the requirement starts with
     * `ViaPrefix`. A bare `# via` line opens the block on the next line; any
     * other is read as the block's first entry.
     */
    method OpenVia(req: Requirement, ghost goal: Result<Scan, ParseError>) returns (more: bool)
      requires OnLine() && StartsWith(line, ViaPrefix) && AfterRequirement(parse, src, pos - 1, req, State()) == goal
      modifies this
      ensures more ==> pos >= old(pos) && Resumes(goal)
      ensures !more ==> goal == Success(State())
    {
      if RStrip(line) == ViaPrefix {
        AfterRequirementBareVia(parse, src, pos - 1, req, State());
        more := Next();
        if more {
          more := ReadVia(line, req, goal);
        } else {
          StoreRequirement(req);
        }
      } else {
        AfterRequirementInlineVia(parse, src, pos - 1, req, State());
        more := ReadVia(ViaMultilinePrefix + Drop(line, |ViaPrefix| + 1), req, goal);
      }
    }

    /**
     * The via loop of `_parse_requirement` (parser.py:76-86), from the entry
     * text `cur` read for the current line, and the storing of the
     * requirement when the block or the input ends.
     */
    method ReadVia(cur: string, req: Requirement, ghost goal: Result<Scan, ParseError>) returns (more: bool)
      requires OnLine() && Via(parse, src, pos - 1, cur, req, State()) == goal
      modifies this
      ensures more ==> pos >= old(pos) && Resumes(goal)
      ensures !more ==> goal == Success(State())
    {
      var text, r := cur, req;
      ghost var i, st := pos - 1, State();
      while StartsWith(text, ViaMultilinePrefix)
        invariant OnLine() && pos >= old(pos) && i == pos - 1 && st == State()
        invariant Via(parse, src, i, text, r, st) == goal
        decreases |src| - pos
      {
        more, r := ReadViaEntry(text, r, goal);
        if !more {
          return false;
        }
        text := line;
        i, st := pos - 1, State();
      }
      CloseVia(text, r, goal);
      return true;
    }

    /**
     * The via loop ends on a line that is not an entry (parser.py:76, 86):
     * the requirement is stored and the main loop goes on from that line.
     */
    method CloseVia(text: string, req: Requirement, ghost goal: Result<Scan, ParseError>)
      requires OnLine() && !StartsWith(text, ViaMultilinePrefix) && Via(parse, src, pos - 1, text, req, State()) == goal
      modifies this
      ensures pos == old(pos) && Resumes(goal)
    {
      ViaEnds(parse, src, pos - 1, text, req, State());
      StoreRequirement(req);
    }

    /**
     * One pass of the via loop (parser.py:77-83): the entry `text` read for
     * the current line marks `req` primary or names a dependent of it, and
     * the cursor moves on; at the end of input `req` is stored (the
     * `finally`).
     */
    method ReadViaEntry(text: string, req: Requirement, ghost goal: Result<Scan, ParseError>) returns (more: bool, req': Requirement)
      requires OnLine() && StartsWith(text, ViaMultilinePrefix) && Via(parse, src, pos - 1, text, req, State()) == goal
      modifies this
      ensures more ==> OnLine() && pos == old(pos) + 1 && Via(parse, src, pos - 1, line, req', State()) == goal
      ensures !more ==> goal == Success(State())
    {
      ghost var i, st := pos - 1, State();
      var entry := Strip(text[|ViaMultilinePrefix|..]);
      req' := req;
      if StartsWith(entry, "-r") {
        req' := req.(isPrimaryDependency := true);
      } else {
        AddDependentEntry(req.name, entry);
      }
      ViaEntry(parse, src, i, text, req, st, req', State());
      more := Next();
      if !more {
        StoreRequirement(req');
      }
    }

    /** `_requirements_dependent_on[name].add(dep)`, on a `defaultdict(set)` */
    method AddDependentEntry(name: string, dep: string)
      modifies this
      ensures State() == AddDependent(old(State()), name, dep)
      ensures pos == old(pos) && line == old(line) && lineStripped == old(lineStripped)
    {
      var deps := if name in dependentOn then dependentOn[name] else {};
      dependentOn := dependentOn[name := deps + {dep}];
    }

    /** `_requirements_by_name[req.name] = req` */
    method StoreRequirement(req: Requirement)
      modifies this
      ensures State() == Store(old(State()), req)
      ensures pos == old(pos) && line == old(line) && lineStripped == old(lineStripped)
    {
      if req.name !in byName {
        order := order + [req.name];
      }
      byName := byName[req.name := req];
    }

    /**
     * One pass of the main loop (parser.py:103-109): a commented, blank or
     * unsupported line is skipped, any other is read by `_parse_requirement`.
     * `r.value` is false when the input is exhausted.
     */
    method ParseLine(ghost goal: Result<Scan, ParseError>) returns (r: Result<bool, ParseError>)
      requires Resumes(goal)
      modifies this
      ensures r.Failure? ==> goal == Failure(r.error)
      ensures r.Success? && r.value ==> pos > old(pos) && Resumes(goal)
      ensures r.Success? && !r.value ==> goal == Success(State())
    {
      var skipped, more := SkipCommented(goal);
      if skipped {
        return Success(more);
      }
      skipped, more := SkipBlank(goal);
      if skipped {
        return Success(more);
      }
      skipped, more := SkipUnsupported(goal);
      if skipped {
        return Success(more);
      }
      r := ParseRequirement(goal);
    }

    /**
     * `parse()`: the main loop until the input is exhausted, then the
     * linking loop; the result is `ParseLines` of the input.
     */
    method Parse() returns (r: Result<seq<Requirement>, ParseError>)
      requires OnLine() && pos == 1 && State() == Start
      modifies this
      ensures r == ParseLines(parse, src)
      // after a successful parse the dictionaries hold what the main loop
      // collected, with every requirement linked
      ensures var run := Run(parse, src, 0, Start);
              r.Success? ==> run.Success? && State() == Scan(LinkedMap(run.value), run.value.order, run.value.dependentOn)
    {
      ghost var goal := Run(parse, src, 0, Start);
      var more := true;
      while more
        invariant more ==> Resumes(goal)
        invariant !more ==> goal == Success(State())
        decreases if more then |src| - pos + 1 else 0
      {
        var step := ParseLine(goal);
        if step.Failure? {
          return Failure(step.error);
        }
        more := step.value;
      }
      StartInvariants();
      RunInvariants(parse, src, 0, Start);
      StoredUnlinked(parse, src, 0, Start);
      r := LinkAll();
    }

    /**
     * The linking loop and the result (parser.py:112-116): every name listed
     * in a via block is added to the `requirement_for` of the requirement it
     * was listed under; the first name that is not a requirement raises
     * `KeyError`.
     */
    method LinkAll() returns (r: Result<seq<Requirement>, ParseError>)
      requires KeysInOrder(State()) && DependentsStored(State())
      modifies this
      ensures r == Link(old(State()))
      ensures State() == if r.Success? then Scan(LinkedMap(old(State())), old(order), old(dependentOn)) else old(State())
      ensures pos == old(pos) && line == old(line) && lineStripped == old(lineStripped)
    {
      var linked := LinkDependents(State());
      if linked.None? {
        return Failure(UnknownDependent);
      }
      byName := linked.value;
      r := Success(ValuesInOrder(linked.value, order));
    }
  }

  /**
   * The linking loop (parser.py:112-114) over what the main loop collected:
   * each target's dependents are added to its `requirement_for`, in whatever
   * order the dictionary and the sets yield them; `None` where a dependent is
   * not a requirement (`KeyError`).
   */
  method LinkDependents(st: Scan) returns (linked: Option<map<string, Requirement>>)
    requires KeysInOrder(st) && DependentsStored(st)
    ensures linked.None? <==> !DependentsKnown(st)
    ensures linked.Some? ==> linked.value == LinkedMap(st)
    ensures linked.Some? ==> Link(st) == Success(ValuesInOrder(linked.value, st.order))
  {
    var linkedByName := st.byName;
    var targets := st.dependentOn.Keys;
    while targets != {}
      invariant LinkedExcept(st, linkedByName, targets)
      decreases |targets|
    {
      var target :| target in targets;
      var reqFor := LinkTarget(linkedByName, target, st.dependentOn[target]);
      if reqFor.None? {
        assert !DependentsKnown(st);
        return None;
      }
      LinkStep(st, linkedByName, targets, target, reqFor.value);
      linkedByName := linkedByName[target := linkedByName[target].(requirementFor := reqFor.value)];
      targets := targets - {target};
    }
    assert DependentsKnown(st);
    LinkedInOrder(st, linkedByName);
    return Some(linkedByName);
  }

  /**
   * The inner linking loop (parser.py:113-114): the `requirement_for` of
   * `target` with each package in `pkgs` added, or `None` where one of them
   * is not a requirement (`KeyError`).
   */
  method LinkTarget(byName: map<string, Requirement>, target: string, pkgs: set<string>) returns (linked: Option<set<string>>)
    requires target in byName
    ensures linked.None? <==> exists p :: p in pkgs && p !in byName
    ensures linked.Some? ==> linked.value == byName[target].requirementFor + pkgs
  {
    var left := pkgs;
    var acc := byName[target].requirementFor;
    while left != {}
      invariant left <= pkgs
      invariant acc == byName[target].requirementFor + (pkgs - left)
      invariant forall p :: p in pkgs && p !in left ==> p in byName
      decreases |left|
    {
      var pkg :| pkg in left;
      if pkg !in byName {
        return None;
      }
      acc := acc + {pkg};
      left := left - {pkg};
    }
    return Some(acc);
  }
}
