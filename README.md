# requirement-issue-finder, modelled in Dafny

requirement-issue-finder finds which requirement of a pip-tools project
breaks its build. It reads the compiled requirements file into a tree of
requirements, then bisects the tree. It pins or unpins halves of the tree,
re-runs pip-compile and the tests, and narrows down on whatever fails. This
project models the three parts of the program that decide what it does:

- **`Searcher`** (`searcher.dfy`) models `BinarySearcher`. The hierarchical
  bisection engine keeps a stack of frames, one per tree depth, each a
  stack of candidate halves.
  - `OnFailed` and `OnPassed` are the engine's transitions, written as
    functions on an abstract stack. The lemmas beside them state what the
    engine promises: the stack invariant, the forest under test, the
    complement after a first half passes, resumption, and slices of the
    forest.
  - The class `BinarySearcher` keeps the traversal as a list of lists,
    updated in place, and is proved to follow those transitions.
  - `SearcherTraces` (`searcher_traces.dfy`) plays every scenario of
    `test_binary_search.py` against the class.
  - `SearcherAsWritten` (`searcher_as_written.dfy`) holds `passed()` and the
    commented-out pre-split exactly as the code writes them, with the
    inputs on which they break (see Findings).
- **`ReqParser`** (`parser.dfy`) models `RequirementsParser`, the parser of
  pip-compile output files.
  - The functions `Run`, `AfterRequirement`, `Via` and `Link` state what a
    parse computes, and `ParseLines` ties them together. `RunReads` lists
    the requirements a parse reads, line by line. The insertion-ordered
    dictionary is proved to keep each name once, in the order of its first
    requirement line, holding the entry read last.
  - The class `RequirementsParser` keeps the line cursor and the two
    dictionaries as fields. Its methods mirror `_next`, the three skips,
    `_parse_requirement` and `parse`. Each method is proved to agree with
    those functions, and `Parse` is proved to return `ParseLines` of its
    input.
  - `Requirement.parse` comes from the external `requirements` library. It
    is a function-valued parameter (`LineParser`).
- **`RequirementsTester`** (`requirements_tester.dfy`) models
  `get_problem_requirements_from_pip_compile_output`. It scans the output of
  pip-compile for the two error patterns.
  - For each pattern there is a declarative predicate saying what a regex
    match with a given group is, and a function computing the match.
  - Lemmas prove the predicate and the function agree in both directions.
  - The loop of the source is a method proved to compute the set that
    `ProblemRequirements` describes.
- `Strings` (`strings.dfy`) holds Python's `str.strip`, `rstrip`,
  `startswith`, `split` and slicing on `seq<char>`. `Wrappers` holds
  `Option` and `Result`.

Where the tests and the code disagree, the model follows the tests, and the
literal code is kept beside it under Findings. The tests construct
`BinarySearcher(..., initial_split_children=True)`, a parameter the
constructor at `searcher.py:11-13` does not have. The model gives the
constructor that parameter (`splitChildren`, false by default). The
constructor itself is unaffected by it. With the parameter set, `failed()`
descends into a node as the commented line `searcher.py:48` would: it opens
the frame over the children and hands out their first half. The one
difference is that a single child is handed out whole.

## Model

| member | source | states |
|---|---|---|
| Strings.LStripIsSuffix | parser.py:43 | the left-stripped string is a suffix of the input; every character removed is whitespace; the result is empty or starts with a non-space |
| Strings.RStripIsPrefix | parser.py:71 | the right-stripped string is a prefix of the input; every character removed is whitespace; the result is empty or ends with a non-space |
| Strings.StripTrims | parser.py:43 | `strip()` is a contiguous run of the input; everything outside it is whitespace; the run neither starts nor ends with whitespace |
| Strings.StripKeepsRun | parser.py:43 | what `strip()` keeps is a contiguous run of the input with no whitespace at either end |
| Strings.StripDropsLeadingSpace | parser.py:43 | what `strip()` drops on the left is whitespace only |
| Strings.StripDropsTrailingSpace | parser.py:43 | what `strip()` drops on the right is whitespace only |
| Strings.Drop | parser.py:75 | Python's `s[n:]`: the first `n` characters followed by the result give back the input; past the end the result is empty |
| Strings.Split | requirements_tester.py:124 | `str.split("\n")`: at least one part; no part holds the separator; joining the parts with the separator gives back the input |
| Searcher.FirstHalf | searcher.py:43 | the half `failed()` hands out is a prefix of the set holding half its elements, rounded down |
| Searcher.SecondHalf | searcher.py:43 | the complement `passed()` hands out is what completes the first half to the whole set |
| Searcher.HalvesPartition | searcher.py:43 | the two halves partition the set in order; their lengths differ by at most one; a set of two or more has a non-empty first half |
| Searcher.Current | searcher.py:42-46 | the candidate set handed out last is never empty on a valid stack |
| Searcher.SameLeadIffFirstHalf | searcher.py:18 | comparing only the leading nodes of the two top entries holds exactly when the top entry is the first half of the one beneath, given siblings have distinct identities |
| Searcher.ChildFrame | searcher.py:48-49 | the frame opened on descending is valid and its base is the children; without splitting, or with a single child, it is `[children]` (line 49); with splitting and two or more children, it is `[children, first half]` (line 48) |
| Searcher.OnFailed | searcher.py:40-51 | `failed()`: a set of two or more pushes its first half on the active frame and hands it out; a single node with children pushes `ChildFrame` of its children and hands out its top entry; a single childless node is reported (`EndNodeReached`) and leaves the stack alone; an empty stack is exhausted |
| Searcher.FailedKeepsValid | searcher.py:40-51 | `failed()` keeps the stack invariant and never changes the forest under test |
| Searcher.FailedKeepsWellFormed | searcher.py:40-51 | `failed()` keeps every candidate set on the stack free of duplicate siblings |
| Searcher.OnPassed | searcher.py:16-38 | `passed()`: a call on an empty stack is `StackEmpty` and changes nothing; the search is `Finished` exactly when the call empties the stack; otherwise it hands out the new top entry |
| Searcher.PassedKeepsValid | searcher.py:16-38 | `passed()` keeps the stack invariant and never changes the forest under test |
| Searcher.PassedKeepsWellFormed | searcher.py:16-38 | `passed()` keeps every candidate set on the stack free of duplicate siblings |
| Searcher.PassedShrinks | searcher.py:29-37 | `passed()` never adds entries to the stack |
| Searcher.PassedResumes | searcher.py:29-38 | `passed()` only pops frames and entries and then possibly replaces the top entry; nothing below is redone |
| Searcher.PassedReturnsSecondHalf | searcher.py:18-20 | every set `passed()` hands out is the second half of the entry beneath it |
| Searcher.PassedSwapsFirstHalf | searcher.py:18-20 | on a first half, `passed()` replaces it in place with the complementary second half and returns that |
| Searcher.PassedPopsSecondHalf | searcher.py:29-38 | on a second half, `passed()` pops it and carries on with the entry beneath, which is a valid stack |
| Searcher.PassedPopsClearedFrame | searcher.py:32-38 | a frame whose only entry passed is dropped; the ascent continues in the frame beneath, or the search is `Finished` when there is none |
| Searcher.SplitThenPassedTestsComplement | searcher.py:18-20 | after `failed()` splits a set, `passed()` hands out the other half of that set |
| Searcher.TopIsSliceOfBase | searcher.py:43 | the top entry of a valid frame is a contiguous slice of the frame's base, at `Offset` |
| Searcher.CurrentIsSliceOfBase | searcher.py:42-49 | every candidate handed out is a non-empty contiguous slice of its frame's base; that base is the children of the node above, or the whole forest |
| Searcher.BinarySearcher.constructor | searcher.py:11-13 | the traversal is `[[initial_tree]]`; it satisfies the invariant; the first candidate is the whole forest |
| Searcher.BinarySearcher.Failed | searcher.py:40-51 | the in-place update of the list of lists makes exactly the step `OnFailed` describes (first half, child frame, end node or exhausted), in both the new stack and the result, and keeps the invariant |
| Searcher.BinarySearcher.Passed | searcher.py:16-38 | the recursive in-place update makes exactly the step `OnPassed` describes (complement, `Finished`, or `StackEmpty` on an emptied stack), in both the new stack and the result, and keeps the invariant |
| SearcherAsWritten.PassedAsWritten | searcher.py:16-38 | the literal `passed()`: when it returns `None`, at most one frame is left |
| SearcherAsWritten.SingleEntryFrameIsIndexError | searcher.py:18 | on the stack of test_single_chain, the literal `passed()` fails with `IndexError`, while the test expects `None` and `OnPassed` reports `Finished` |
| SearcherAsWritten.ComplementSlicedAtFrameLength | searcher.py:19 | with forest `[A, B, C]` after `[A]` passes, the literal `passed()` returns `[C]`; the test expects `[B, C]` and `OnPassed` returns it |
| SearcherAsWritten.ClearedFrameEndsSearchEarly | searcher.py:32-37 | after a cleared child frame, the literal `passed()` pops a second frame and reports the end of the search; the untested complement `[B]` is what `OnPassed` returns |
| SearcherAsWritten.ChildFrameAsWritten | searcher.py:48 | the commented pre-split pushes the children and hands out half of them, rounded down; the frame is valid exactly when there are two or more children |
| SearcherAsWritten.PreSplitOfSingleChildIsEmpty | searcher.py:48 | for a single child, the commented pre-split hands out an empty set and breaks the frame invariant; `ChildFrame` hands out the child |
| SearcherTraces.TraversesPart1 | test_binary_search.py:175-185 | the first steps of test_traverses_without_autosplit_children yield the asserted sets and leave the stated stack |
| SearcherTraces.TraversesPart2 | test_binary_search.py:186-196 | the middle steps of that test yield the asserted sets |
| SearcherTraces.TraversesPart3 | test_binary_search.py:197-208 | the last steps of that test yield the asserted sets, down to the deepest node |
| ReqParser.IsComment | parser.py:94-98 | no comment line is an unsupported-option line, so the order of the two skips does not matter |
| ReqParser.IsBlank | parser.py:88-92 | a blank line is neither a comment nor an unsupported-option line |
| ReqParser.IsUnsupported | parser.py:45-60 | every unsupported-option line starts with `-` followed by at least one more character |
| ReqParser.Store | parser.py:86 | `_requirements_by_name[req.name] = req`: the name is added with `req` as its entry and no other entry changes; a new name goes last in the order and a repeated name keeps its place; the via entries are untouched |
| ReqParser.AddDependent | parser.py:81 | `dep` joins the dependents of `name`, which start out empty; no other name's dependents and neither the entries nor the order change |
| ReqParser.Run | parser.py:100-111 | the main loop fails only on a line `Requirement.parse` rejects; it never forgets a stored name and only appends to the order |
| ReqParser.AfterRequirement | parser.py:62-86 | after a requirement line the same holds, and the requirement's own name is stored whatever follows it |
| ReqParser.Via | parser.py:76-86 | through a via block the same holds, and the requirement is stored when the block ends, at the end of input too |
| ReqParser.ParseLines | parser.py:100-116 | only an input with no line at all is `EmptyInput`; a successful parse lists every name once |
| ReqParser.LinkedInOrder | parser.py:112-116 | once every target is linked, the dictionary is each requirement with exactly its dependents added, and its values in insertion order are the result of `Link` |
| ReqParser.StartInvariants | parser.py:34-35 | the empty dictionaries satisfy the parse invariants |
| ReqParser.StoreInvariants | parser.py:86 | storing keeps each name once in the insertion order, keeps earlier names in their places, and adds the name |
| ReqParser.RunInvariants | parser.py:100-111 | a parse keeps each stored name once in the insertion order, only appends to it, never forgets a name, and stores every name that has via entries |
| ReqParser.AfterRequirementInvariants | parser.py:62-86 | the same after a requirement line, and the requirement's own name is stored |
| ReqParser.ViaInvariants | parser.py:76-86 | the same through a via block |
| ReqParser.RequirementLineIsStored | parser.py:84-86 | a successfully parsed requirement line is always stored, even when the input ends inside its via block |
| ReqParser.RunReadsSuffix | parser.py:41-43 | the parse from a line depends only on the lines from there on |
| ReqParser.AfterRequirementReadsSuffix | parser.py:66-75 | the same after a requirement line |
| ReqParser.ViaReadsSuffix | parser.py:76-83 | the same inside a via block |
| ReqParser.SingleLineViaIsFirstEntry | parser.py:71-75 | `    # via X` reads exactly as a bare via line (`    # via` with any trailing whitespace) followed by `    #   X`, for any `X` holding a non-space character |
| ReqParser.FirstEntrySameRest | parser.py:76-83 | two via blocks at the same entry, followed by the same lines, read the same |
| ReqParser.LinkStep | parser.py:112-114 | linking one more target, whose via entries all name requirements, keeps every other requirement as it was and gives that target exactly its dependents |
| ReqParser.LinkIsExact | parser.py:112-116 | each requirement's `requirement_for` is exactly the set of non-`-r` names its via blocks listed; the parse fails exactly when one of them is not in the file |
| ReqParser.StoredUnlinked | parser.py:22-26 | before linking, every requirement is stored under its own name with empty `requirement_for` |
| ReqParser.AfterRequirementUnlinked | parser.py:62-86 | the same after a requirement line |
| ReqParser.StoreUnlinked | parser.py:86 | storing a fresh requirement keeps that |
| ReqParser.ViaUnlinked | parser.py:76-86 | the same through a via block |
| ReqParser.FirstIndex | parser.py:86 | the position of the first requirement with a name: it has that name and none before it does, or there is none |
| ReqParser.LastIndex | parser.py:86 | the position of the last requirement with a name: it has that name and none after it does, or there is none |
| ReqParser.StoreAllSnoc | parser.py:86 | storing one more requirement after a run of them is storing it into what the run left |
| ReqParser.RunStoresReads | parser.py:100-111 | the main loop fails exactly when reading the requirements does, with the same error; on success its dictionary and order are those of storing the requirements read, one after the other |
| ReqParser.StoreAllKeepsFirstPlaceLastEntry | parser.py:86 | filling the insertion-ordered dictionary from a run of requirements holds exactly their names, each once, in the order of first appearance, each with the last requirement of that name |
| ReqParser.ReadsFillScan | parser.py:100-111 | the dictionary the main loop leaves holds exactly the names read, each once, in the order of their first requirement line, each with the entry read last |
| ReqParser.LinkListsFirstAppearance | parser.py:112-116 | linking keeps that: the result lists those names, each once, in first-appearance order, with the specifiers and primary flag of the last entry read |
| ReqParser.ParseListsFirstAppearance | parser.py:100-116 | a successful parse lists exactly the names of the requirement lines read, each once, in the order of their first line, a repeated name taking the specifiers and primary flag of its last line |
| ReqParser.RequirementsParser.constructor | parser.py:33-39 | empty dictionaries; the cursor is on the first line |
| ReqParser.RequirementsParser.Next | parser.py:41-43 | moves to the next line and strips it, or reports the end of input and changes nothing |
| ReqParser.RequirementsParser.SkipCommented | parser.py:94-98 | consumes the line exactly when its stripped form starts with `#`; the rest of the parse is unchanged |
| ReqParser.RequirementsParser.SkipBlank | parser.py:88-92 | consumes the line exactly when it is blank after stripping; the rest of the parse is unchanged |
| ReqParser.RequirementsParser.SkipUnsupported | parser.py:45-60 | consumes the line exactly when its stripped form starts with one of the ten unsupported options |
| ReqParser.RequirementsParser.ParseRequirement | parser.py:62-86 | reads the requirement and its via block and stores it, as `Run` says; a rejected line fails with that line |
| ReqParser.RequirementsParser.ReadAfter | parser.py:66-75 | the steps after the requirement line agree with `AfterRequirement` |
| ReqParser.RequirementsParser.OpenVia | parser.py:71-75 | opening a via block agrees with `AfterRequirement` |
| ReqParser.RequirementsParser.ReadVia | parser.py:76-86 | the via loop agrees with `Via` |
| ReqParser.RequirementsParser.CloseVia | parser.py:76-86 | the block ends: the requirement is stored and the cursor stays on the line that ended it |
| ReqParser.RequirementsParser.ReadViaEntry | parser.py:77-83 | one entry of the via loop agrees with `Via`; at the end of input the requirement is stored |
| ReqParser.RequirementsParser.AddDependentEntry | parser.py:81 | adds the entry to the requirement's dependents, creating the set on first use |
| ReqParser.RequirementsParser.StoreRequirement | parser.py:86 | stores the requirement under its name; a new name goes last in the order |
| ReqParser.RequirementsParser.ParseLine | parser.py:103-109 | one pass of the main loop agrees with `Run` |
| ReqParser.RequirementsParser.Parse | parser.py:100-116 | the result is `ParseLines` of the input; after a successful parse the dictionaries hold what the main loop collected, with every requirement linked to exactly its dependents |
| ReqParser.RequirementsParser.LinkAll | parser.py:112-116 | the result is `Link` of the collected state; on success the dictionary becomes every requirement with its dependents added, with order and via entries unchanged; on `KeyError` the state is unchanged |
| ReqParser.LinkDependents | parser.py:112-114 | the linking loop, whatever order it visits the targets in, fails exactly when a via entry names no requirement, and otherwise gives every requirement exactly its dependents |
| ReqParser.LinkTarget | parser.py:113-114 | adds every dependent to `requirement_for`, or fails exactly when one of them is not a requirement |
| RequirementsTester.NameRun | requirements_tester.py:19-20 | `[^<>=\^~]+` taken greedily: the longest prefix without an operator character |
| RequirementsTester.VersionErrorMatchIsRegex | requirements_tester.py:19 | `re.match` of the first pattern gives group `name` exactly when the line starts with the literal text, followed by a maximal non-empty run of non-operator characters equal to `name` |
| RequirementsTester.RunIsUnique | requirements_tester.py:19-20 | a maximal operator-free prefix is unique: it is the greedy run |
| RequirementsTester.FromMatchAtIsRegex | requirements_tester.py:20 | `\(from ([^<>=\^~]+)[<>=\^~]` at a position gives group `name` exactly when `(from ` sits there, followed by a maximal non-empty run equal to `name` and an operator character |
| RequirementsTester.LastSomeIsLast | requirements_tester.py:20 | the last present candidate up to `k` is `x` exactly when some position holds `x` and no later one holds anything |
| RequirementsTester.IncompatibleVersionMatchIsRegex | requirements_tester.py:20 | with the greedy leading `.*`, the second pattern's group is the one at the last position where the rest of the pattern matches, in both directions |
| RequirementsTester.IncompatibleVersionMatchIsName | requirements_tester.py:20 | a match of the second pattern is a non-empty operator-free name made of characters of the line |
| RequirementsTester.LineProblem | requirements_tester.py:125-134 | the name found on a line is non-empty, free of operator characters and drawn from the line |
| RequirementsTester.LineProblemIsRegex | requirements_tester.py:125-134 | a line names `name` exactly when the first pattern matches with that group, or the first does not match and the second does |
| RequirementsTester.VersionErrorExample | requirements_tester.py:19 | `Could not find a version that matches django<3,>=3.1` names `django` |
| RequirementsTester.LastMarkerExample | requirements_tester.py:20 | with two `(from ` markers the later one wins |
| RequirementsTester.ProblemsOfSnoc | requirements_tester.py:124-134 | each line is judged on its own: one more line adds at most its own name |
| RequirementsTester.ProblemsOfAppend | requirements_tester.py:124-134 | the names of two runs of lines are the union of their names |
| RequirementsTester.ProblemNamesAreNames | requirements_tester.py:122-136 | every reported name is non-empty, operator-free and lies within one line |
| RequirementsTester.EmptyOutputHasNoProblems | requirements_tester.py:122-136 | the empty output reports nothing |
| RequirementsTester.GetProblemRequirements | requirements_tester.py:122-136 | the loop over the lines returns exactly `ProblemRequirements` of the output |

## Left out

- `EndNodeReached` is a `FailedResult` variant rather than an exception (searcher.py:5-7, 51). `failed()` on an emptied stack is the `Exhausted` variant, and `passed()` on one is the `StackEmpty` variant; in both cases Python raises `IndexError`. The end of the search, where `passed()` returns `None` (searcher.py:36), is the `Finished` variant.
- The commented-out pre-split in the constructor (searcher.py:14) is not modelled; the first candidate is always the whole forest, as line 13 makes it.
- Node identity is an explicit `id`. The source compares nodes with `==`, which for these objects is object identity. The distinctness of siblings is not demanded by the constructor, because the source does not demand it. The lemmas that rely on it require `WellFormed`.
- `get_children()` (parser.py:28-29, test_binary_search.py:12-13) is the `children` field of a node. Returning `None` for no children is modelled as the empty list.
- Searcher.BinarySearcher.constructor: refuses an empty forest. The source accepts one, but its first `failed()` would index the first node of nothing.
- `Requirement.parse` and the whole `requirements` library are a function parameter. Their grammar and errors are not part of this model; a parser that raises is `None`.
- ReqParser.Requirement: `requirement_for` is a set of names, not a list of objects. parser.py:114 appends objects in an order that comes from set iteration and is unspecified. The tests compare it as a set of names.
- ReqParser.RequirementsParser.constructor: refuses an empty input, where the source's constructor raises `StopIteration` from `_next`. `ParseLines` reports that case as `EmptyInput`.
- ReqParser.RequirementsParser.LinkAll: on a `KeyError` the model leaves the dictionary as it was before linking. The source leaves the requirements linked before the failing one half-linked, in an order that depends on set iteration, but nobody reads them after the exception.
- `strip()` and `rstrip()` strip the ASCII whitespace of `str.isspace` only (space, tab, newline, carriage return, vertical tab, form feed and the separators 0x1C-0x1F). Python also strips non-ASCII Unicode whitespace.
- The `print` calls of requirements_tester.py:127 and 132 are output only and are left out.
- Regular expressions in general are not modelled. The two fixed patterns of requirements_tester.py:19-20 are matched by hand-written functions, proved against their meaning.
- The rest of requirements_tester.py is not part of this model:
  - the commented-out copy of the parser (lines 23-119);
  - the functions that write files, run pip-compile and the test suite, and drive the search (lines 139-305).
  All of them are I/O around the modelled core.

## Findings

| source | as written | input that shows it | evidently intended | confidence | as-written member | corrected member |
|---|---|---|---|---|---|---|
| searcher.py:18 | `passed()` reads `[-1][-2]` of the active frame, which fails when the frame holds a single entry | the stack `[[[A]], [[A.A]], [[A.A.A]]]` of test_single_chain (test_binary_search.py:17-29) | a cleared single-entry frame is popped, and the search ends (`None` in the source, `Finished` in the model) | high, not executed | SearcherAsWritten.SingleEntryFrameIsIndexError | Searcher.PassedPopsClearedFrame |
| searcher.py:19 | the complement is sliced from the length of the frame, `[len(self._traversal[-1]):]` | forest `[A, B, C]` after `[A]` passes: the result is `[C]` and `B` is never tested (test_binary_search.py:48-58) | the complement is the second half, `[len(parent)//2:]`, here `[B, C]` | high, not executed | SearcherAsWritten.ComplementSlicedAtFrameLength | Searcher.PassedSwapsFirstHalf |
| searcher.py:32-37 | after popping a cleared frame it pops a second frame whenever more than one remains, and ends the search when one remains | forest `[X, B]` with the children of `X` cleared: it returns `None` and `[B]` is never tested | only the cleared frame is popped, and the ascent resumes in the frame beneath it | medium, not executed | SearcherAsWritten.ClearedFrameEndsSearchEarly | Searcher.PassedResumes |
| searcher.py:48 | the commented pre-split hands out `children[:len(children)//2]` | a node with a single child: the handed-out set is empty and the next `failed()` indexes nothing | a single child is handed out whole; only two or more are split | medium, not executed | SearcherAsWritten.PreSplitOfSingleChildIsEmpty | Searcher.ChildFrame |
