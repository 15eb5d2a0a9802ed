/**
 * The hierarchical bisection engine of searcher.py (`BinarySearcher`).
 *
 * The engine's whole state is the traversal stack: a stack of frames, one per
 * tree depth being explored, where each frame is a stack of candidate lists at
 * that depth. `failed()` narrows the current candidate (halving it, or
 * descending into the children of a single node, or reporting that node as an
 * irreducible culprit); `passed()` moves on to the complementary half or pops
 * what has been resolved.
 *
 * The transitions are first given as functions on an abstract stack value
 * (`OnFailed`, `OnPassed`), whose contracts and the lemmas below state what
 * the engine promises. The class `BinarySearcher` keeps the stack as the
 * source does, a list of lists updated in place, and is proved to follow
 * those functions through the abstraction `Abs`.
 */
module Searcher {

  /**
   * A candidate node. `id` stands for the node's identity (the source compares
   * nodes with Python `==`, which for these objects is identity); `children`
   * is its ordered list of children, empty when `get_children()` gives
   * nothing.
   */
  datatype Node = Node(id: nat, children: seq<Node>)

  /** A candidate set: sibling nodes tested together. */
  type Candidates = seq<Node>

  /** A stack: `Push(rest, top)` has `top` on top of `rest`. */
  datatype Stack<T> = Empty | Push(rest: Stack<T>, top: T)

  /** The halving history at one depth; the top entry is the active one. */
  type Frame = Stack<Candidates>
  /** One frame per depth; the top frame is the active one. */
  type Traversal = Stack<Frame>

  function Size<T>(s: Stack<T>): nat {
    if s.Empty? then 0 else Size(s.rest) + 1
  }

  /** The bottom element of a non-empty stack. */
  function Base<T>(s: Stack<T>): T
    requires s.Push?
  {
    if s.rest.Empty? then s.top else Base(s.rest)
  }

  // ---------------------------------------------------------------------------
  // Lists used as stacks
  // ---------------------------------------------------------------------------

  /** A list used as a stack, its last element on top. */
  function AsStack<T>(s: seq<T>): (r: Stack<T>)
    ensures Size(r) == |s|
  {
    if |s| == 0 then Empty else Push(AsStack(s[..|s| - 1]), s[|s| - 1])
  }

  /** The stack of frames held by the list of lists `t`. */
  function Abs(t: seq<seq<Candidates>>): (r: Traversal)
    ensures Size(r) == |t|
  {
    if |t| == 0 then Empty else Push(Abs(t[..|t| - 1]), AsStack(t[|t| - 1]))
  }

  /** `append` pushes on top. */
  lemma AsStackAppend<T>(s: seq<T>, x: T)
    ensures AsStack(s + [x]) == Push(AsStack(s), x)
  {
    assert (s + [x])[..|s|] == s;
  }

  /** Appending a frame pushes it. */
  lemma AbsAppend(t: seq<seq<Candidates>>, f: seq<Candidates>)
    ensures Abs(t + [f]) == Push(Abs(t), AsStack(f))
  {
    assert (t + [f])[..|t|] == t;
  }

  /** The last list is the top frame; the ones before it are the rest. */
  lemma AbsLast(t: seq<seq<Candidates>>)
    requires |t| > 0 && |t[|t| - 1]| > 0
    ensures Abs(t).rest == Abs(t[..|t| - 1]) && Abs(t).top == AsStack(t[|t| - 1])
    ensures Abs(t).top.top == t[|t| - 1][|t[|t| - 1]| - 1]
  {
  }

  // ---------------------------------------------------------------------------
  // Splitting a candidate set
  // ---------------------------------------------------------------------------

  /** `c[: len(c) // 2]`: the leading half of `c`, rounded down. */
  function FirstHalf(c: Candidates): (h: Candidates)
    ensures |h| == |c| / 2 && h <= c
  {
    c[..|c| / 2]
  }

  /** `c[len(c) // 2 :]`: what `FirstHalf` leaves of `c`. */
  function SecondHalf(c: Candidates): (h: Candidates)
    ensures FirstHalf(c) + h == c
  {
    assert c == c[..|c| / 2] + c[|c| / 2..];
    c[|c| / 2..]
  }

  /**
   * The two halves of a set partition it in order; the second is never
   * shorter than the first and at most one longer; a set of two or more has
   * two non-empty halves.
   */
  lemma HalvesPartition(c: Candidates)
    ensures FirstHalf(c) + SecondHalf(c) == c
    ensures |FirstHalf(c)| == |c| / 2 && |SecondHalf(c)| == |c| - |c| / 2
    ensures |FirstHalf(c)| <= |SecondHalf(c)| <= |FirstHalf(c)| + 1
    ensures |c| > 1 ==> |FirstHalf(c)| >= 1
  {
  }

  /** `h` is one of the two halves of the set `c` of two or more nodes. */
  predicate IsHalfOf(h: Candidates, c: Candidates) {
    |c| > 1 && (h == FirstHalf(c) || h == SecondHalf(c))
  }

  // ---------------------------------------------------------------------------
  // The shape of the traversal stack
  // ---------------------------------------------------------------------------

  /**
   * A frame is non-empty, every entry is a non-empty candidate set, and each
   * entry above the base is a half of the entry beneath it.
   */
  ghost predicate ValidFrame(f: Frame) {
    f.Push? && |f.top| >= 1
    && (f.rest.Push? ==> ValidFrame(f.rest) && IsHalfOf(f.top, f.rest.top))
  }

  /** Frame `child` was opened by descending into the single node on top of `parent`. */
  predicate DescendsFrom(child: Frame, parent: Frame) {
    child.Push? && parent.Push? && |parent.top| == 1 && Base(child) == parent.top[0].children
  }

  /**
   * The invariant every reachable traversal stack satisfies: every frame is
   * valid, and each frame above the bottom one was opened by descending into
   * the single node on top of the frame beneath it.
   */
  ghost predicate ValidTraversal(t: Traversal) {
    t.Empty?
    || (ValidTraversal(t.rest) && ValidFrame(t.top)
        && (t.rest.Push? ==> DescendsFrom(t.top, t.rest.top)))
  }

  /** The candidate set that was handed out last: the top entry of the top frame. */
  function Current(t: Traversal): (c: Candidates)
    requires ValidTraversal(t) && t.Push?
    ensures |c| >= 1
  {
    t.top.top
  }

  /** The forest under test: the base of the bottom frame. */
  function Forest(t: Traversal): Candidates
    requires ValidTraversal(t) && t.Push?
  {
    if t.rest.Empty? then Base(t.top) else Forest(t.rest)
  }

  /** The number of candidate sets on the stack, over all frames. */
  function EntryCount(t: Traversal): nat {
    if t.Empty? then 0 else EntryCount(t.rest) + Size(t.top)
  }

  // ---------------------------------------------------------------------------
  // Identity of nodes
  // ---------------------------------------------------------------------------

  /** Distinct nodes of one list have distinct identities. */
  predicate DistinctIds(s: seq<Node>) {
    forall i, j :: 0 <= i < j < |s| ==> s[i].id != s[j].id
  }

  /** At every depth of the forest, siblings have distinct identities. */
  predicate WellFormed(forest: seq<Node>)
    decreases forest
  {
    DistinctIds(forest) && forall i :: 0 <= i < |forest| ==> WellFormed(forest[i].children)
  }

  /** Every candidate set in the frame is a well-formed list of siblings. */
  predicate WellFormedFrame(f: Frame) {
    f.Empty? || (WellFormedFrame(f.rest) && WellFormed(f.top))
  }

  /** Every candidate set on the stack is a well-formed list of siblings. */
  predicate WellFormedTraversal(t: Traversal) {
    t.Empty? || (WellFormedTraversal(t.rest) && WellFormedFrame(t.top))
  }

  lemma WellFormedSlice(s: seq<Node>, lo: nat, hi: nat)
    requires WellFormed(s) && lo <= hi <= |s|
    ensures WellFormed(s[lo..hi])
  {
    var r := s[lo..hi];
    forall i | 0 <= i < |r| ensures WellFormed(r[i].children) {
      assert r[i] == s[lo + i];
    }
  }

  /** Either half of a well-formed set is well-formed. */
  lemma WellFormedHalves(c: Candidates)
    requires WellFormed(c)
    ensures WellFormed(FirstHalf(c)) && WellFormed(SecondHalf(c))
  {
    WellFormedSlice(c, 0, |c| / 2);
    assert c[0..|c| / 2] == FirstHalf(c);
    WellFormedSlice(c, |c| / 2, |c|);
    assert c[|c| / 2..|c|] == SecondHalf(c);
  }

  /**
   * The test at searcher.py:18 compares only the leading nodes of the two top
   * entries. Because the two halves of a set partition it and siblings have
   * distinct identities, that test holds exactly when the top entry is the
   * first half of the entry beneath it.
   */
  lemma SameLeadIffFirstHalf(a: Candidates, b: Candidates)
    requires DistinctIds(a) && IsHalfOf(b, a)
    ensures |b| >= 1
    ensures a[0].id == b[0].id <==> b == FirstHalf(a)
  {
    if b != FirstHalf(a) {
      assert b[0] == a[|a| / 2];
    }
  }

  // ---------------------------------------------------------------------------
  // failed()
  // ---------------------------------------------------------------------------

  /**
   * What `failed()` produces: the next candidate set, the irreducible node
   * (the source raises `EndNodeReached` carrying it), or `Exhausted` when the
   * stack is empty (the source then fails with an `IndexError`).
   */
  datatype FailedResult = Next(candidates: Candidates) | EndNodeReached(node: Node) | Exhausted

  datatype FailedStep = FailedStep(traversal: Traversal, result: FailedResult)

  /**
   * The frame opened when descending into a node with children `kids`:
   * `[kids]`, or, when the children are split immediately, `[kids, first
   * half]` (the commented variant at searcher.py:48). A single child is not
   * split: its first half would be empty (see `SearcherAsWritten`).
   */
  function ChildFrame(kids: Candidates, splitChildren: bool): (f: Frame)
    requires |kids| >= 1
    ensures ValidFrame(f) && Base(f) == kids
    ensures 1 <= |f.top| <= |kids| && f.top == kids[..|f.top|]
    ensures !splitChildren || |kids| == 1 ==> f == Push(Empty, kids)
    ensures splitChildren && |kids| > 1 ==> f == Push(Push(Empty, kids), FirstHalf(kids))
  {
    if splitChildren && |kids| > 1 then
      HalvesPartition(kids);
      Push(Push(Empty, kids), FirstHalf(kids))
    else
      Push(Empty, kids)
  }

  /**
   * The transition `failed()` on stack `t`. A set of two or more narrows to
   * its first half, a non-empty proper prefix of itself, pushed on the active
   * frame; a single node with children opens the new frame `ChildFrame` over
   * those children and hands out its top entry; a single node without
   * children is reported and the stack is left alone; an empty stack is
   * exhausted.
   */
  function OnFailed(t: Traversal, splitChildren: bool): (s: FailedStep)
    requires ValidTraversal(t)
    ensures s.result.Exhausted? <==> t.Empty?
    ensures s.result.Next? ==> s.traversal.Push? && s.traversal.top.Push? && s.result.candidates == s.traversal.top.top
    ensures t.Push? && |Current(t)| > 1 ==>
              s.result.Next?
              && s.result.candidates == FirstHalf(Current(t))
              && 0 < |s.result.candidates| < |Current(t)|
              && s.result.candidates == Current(t)[..|s.result.candidates|]
              && s.traversal == Push(t.rest, Push(t.top, s.result.candidates))
    ensures t.Push? && |Current(t)| == 1 && |Current(t)[0].children| > 0 ==>
              s.result.Next?
              && s.traversal == Push(t, ChildFrame(Current(t)[0].children, splitChildren))
              && s.traversal.top.Push? && Base(s.traversal.top) == Current(t)[0].children
              && 0 < |s.result.candidates| && s.result.candidates <= Current(t)[0].children
    ensures s.result.EndNodeReached? <==> t.Push? && |Current(t)| == 1 && |Current(t)[0].children| == 0
    ensures s.result.EndNodeReached? ==> s.result.node == Current(t)[0]
    ensures !s.result.Next? ==> s.traversal == t
  {
    if t.Empty? then FailedStep(t, Exhausted)
    else
      var cur := Current(t);
      if |cur| > 1 then
        var h := FirstHalf(cur);
        HalvesPartition(cur);
        FailedStep(Push(t.rest, Push(t.top, h)), Next(h))
      else
        var kids := cur[0].children;
        if |kids| > 0 then
          var f := ChildFrame(kids, splitChildren);
          FailedStep(Push(t, f), Next(f.top))
        else
          FailedStep(t, EndNodeReached(cur[0]))
  }

  /** `failed()` keeps the stack invariant and never changes the forest under test. */
  lemma FailedKeepsValid(t: Traversal, splitChildren: bool)
    requires ValidTraversal(t)
    ensures var t' := OnFailed(t, splitChildren).traversal;
            ValidTraversal(t') && (t.Push? ==> t'.Push? && Forest(t') == Forest(t))
  {
    if t.Push? && |Current(t)| > 1 {
      HalvesPartition(Current(t));
    }
  }

  /** `failed()` keeps every candidate set on the stack well-formed. */
  lemma FailedKeepsWellFormed(t: Traversal, splitChildren: bool)
    requires ValidTraversal(t) && WellFormedTraversal(t)
    ensures WellFormedTraversal(OnFailed(t, splitChildren).traversal)
  {
    if t.Push? {
      var cur := Current(t);
      assert WellFormedFrame(t.top);
      if |cur| > 1 {
        WellFormedHalves(cur);
      } else if |cur[0].children| > 0 {
        var kids := cur[0].children;
        assert WellFormed(kids);
        WellFormedHalves(kids);
        assert WellFormedFrame(ChildFrame(kids, splitChildren));
      }
    }
  }

  // ---------------------------------------------------------------------------
  // passed()
  // ---------------------------------------------------------------------------

  /**
   * What `passed()` produces: the complementary set to test next; `Finished`
   * when the call has emptied the stack and the search is over (the source
   * returns `None`); or `StackEmpty` when the stack was already empty before
   * the call (the source then fails with an `IndexError` on `[-1]`).
   */
  datatype PassedResult = Complement(candidates: Candidates) | Finished | StackEmpty

  datatype PassedStep = PassedStep(traversal: Traversal, result: PassedResult)

  /**
   * The transition `passed()` on stack `t`, as the tests of the source
   * require it (test_binary_search.py): a frame with one entry has been
   * cleared and is popped; a first half is swapped for the complementary
   * second half; a second half is popped; popping the last frame ends the
   * search. Every recursive step pops something, so the ascent terminates.
   */
  function OnPassed(t: Traversal): (s: PassedStep)
    requires ValidTraversal(t)
    // a call on an empty stack is a protocol error and changes nothing
    ensures s.result.StackEmpty? <==> t.Empty?
    ensures s.result.StackEmpty? ==> s.traversal == t
    // the search is over exactly when this call empties the stack; otherwise
    // the returned set is the new current one
    ensures s.result.Finished? <==> t.Push? && s.traversal.Empty?
    ensures s.result.Complement? ==> s.traversal.Push? && s.traversal.top.Push? && s.result.candidates == s.traversal.top.top
    decreases EntryCount(t)
  {
    if t.Empty? then PassedStep(Empty, StackEmpty)
    else
      var f := t.top;
      if f.rest.Empty? then
        if t.rest.Empty? then PassedStep(Empty, Finished) else OnPassed(t.rest)
      else
        var a := f.rest.top;
        var b := f.top;
        if a[0].id == b[0].id then
          var c := SecondHalf(a);
          PassedStep(Push(t.rest, Push(f.rest, c)), Complement(c))
        else
          OnPassed(Push(t.rest, f.rest))
  }

  /** `passed()` keeps the stack invariant and never changes the forest under test. */
  lemma {:induction false} PassedKeepsValid(t: Traversal)
    requires ValidTraversal(t)
    ensures var t' := OnPassed(t).traversal;
            ValidTraversal(t') && (t'.Push? ==> Forest(t') == Forest(t))
    decreases EntryCount(t)
  {
    if t.Push? {
      var f := t.top;
      if f.rest.Empty? {
        if t.rest.Push? { PassedKeepsValid(t.rest); }
      } else if f.rest.top[0].id == f.top[0].id {
        HalvesPartition(f.rest.top);
      } else {
        PassedKeepsValid(Push(t.rest, f.rest));
      }
    }
  }

  /** `passed()` keeps every candidate set on the stack well-formed. */
  lemma {:induction false} PassedKeepsWellFormed(t: Traversal)
    requires ValidTraversal(t) && WellFormedTraversal(t)
    ensures WellFormedTraversal(OnPassed(t).traversal)
    decreases EntryCount(t)
  {
    if t.Push? {
      var f := t.top;
      if f.rest.Empty? {
        if t.rest.Push? { PassedKeepsWellFormed(t.rest); }
      } else if f.rest.top[0].id == f.top[0].id {
        assert WellFormedFrame(f) && WellFormedFrame(f.rest);
        WellFormedHalves(f.rest.top);
      } else {
        assert WellFormedFrame(f);
        PassedKeepsWellFormed(Push(t.rest, f.rest));
      }
    }
  }

  /** `passed()` never grows the stack: the number of entries does not increase. */
  lemma {:induction false} PassedShrinks(t: Traversal)
    requires ValidTraversal(t)
    ensures EntryCount(OnPassed(t).traversal) <= EntryCount(t)
    decreases EntryCount(t)
  {
    if t.Push? {
      var f := t.top;
      if f.rest.Empty? {
        if t.rest.Push? { PassedShrinks(t.rest); }
      } else if f.rest.top[0].id != f.top[0].id {
        PassedShrinks(Push(t.rest, f.rest));
      }
    }
  }

  /**
   * Frame `g` is frame `f` with zero or more entries popped and then,
   * possibly, the top entry replaced.
   */
  predicate FrameResumes(f: Frame, g: Frame)
    decreases f
  {
    f.Push? && g.Push?
    && if Size(g) < Size(f) then FrameResumes(f.rest, g) else g.rest == f.rest
  }

  /**
   * Stack `t'` is `t` with zero or more frames popped and then, on the new
   * top frame, entries popped and the top entry possibly replaced: nothing
   * below is pushed again or redone.
   */
  predicate Resumes(t: Traversal, t': Traversal)
    decreases t
  {
    t'.Empty?
    || (t.Push? && t'.Push?
        && if Size(t') < Size(t) then Resumes(t.rest, t')
           else t'.rest == t.rest && FrameResumes(t.top, t'.top))
  }

  /** Resuming after popping the top entry resumes from `t`. */
  lemma PopEntryResumes(t: Traversal, u: Traversal)
    requires t.Push? && t.top.Push? && t.top.rest.Push?
    requires Resumes(Push(t.rest, t.top.rest), u)
    ensures Resumes(t, u)
  {
  }

  /** `passed()` resumes the search where it was. */
  lemma {:induction false} PassedResumes(t: Traversal)
    requires ValidTraversal(t)
    ensures Resumes(t, OnPassed(t).traversal)
    decreases EntryCount(t)
  {
    if t.Push? {
      var f := t.top;
      if f.rest.Empty? {
        if t.rest.Push? { PassedResumes(t.rest); }
      } else if f.rest.top[0].id != f.top[0].id {
        var t' := Push(t.rest, f.rest);
        PassedResumes(t');
        PopEntryResumes(t, OnPassed(t').traversal);
      }
    }
  }

  /**
   * A set handed out by `passed()` is the second half of the entry beneath
   * it on the active frame: `passed()` only ever moves on to the untested
   * complement of a half that passed.
   */
  lemma {:induction false} PassedReturnsSecondHalf(t: Traversal)
    requires ValidTraversal(t)
    ensures var s := OnPassed(t);
            s.result.Complement? ==> s.traversal.top.rest.Push? && s.result.candidates == SecondHalf(s.traversal.top.rest.top)
    decreases EntryCount(t)
  {
    if t.Push? {
      var f := t.top;
      if f.rest.Empty? {
        if t.rest.Push? { PassedReturnsSecondHalf(t.rest); }
      } else if f.rest.top[0].id != f.top[0].id {
        PassedReturnsSecondHalf(Push(t.rest, f.rest));
      }
    }
  }

  // ---------------------------------------------------------------------------
  // Properties of single steps
  // ---------------------------------------------------------------------------

  /**
   * `passed()` on a first half swaps it, in place, for the complementary
   * second half of its parent (searcher.py:18-20): the identity test picks
   * exactly this case.
   */
  lemma PassedSwapsFirstHalf(t: Traversal)
    requires ValidTraversal(t) && t.Push? && t.top.rest.Push?
    requires Current(t) == FirstHalf(t.top.rest.top)
    ensures var f := t.top; var c := SecondHalf(f.rest.top);
            OnPassed(t) == PassedStep(Push(t.rest, Push(f.rest, c)), Complement(c))
  {
  }

  /**
   * `passed()` on a second half pops it and carries on with the entry
   * beneath it: under well-formedness the identity test never mistakes a
   * second half for a first one.
   */
  lemma PassedPopsSecondHalf(t: Traversal)
    requires ValidTraversal(t) && WellFormedTraversal(t) && t.Push? && t.top.rest.Push?
    requires Current(t) == SecondHalf(t.top.rest.top)
    ensures var u := Push(t.rest, t.top.rest);
            ValidTraversal(u) && OnPassed(t) == OnPassed(u)
  {
    assert WellFormedFrame(t.top) && WellFormedFrame(t.top.rest);
    SameLeadIffFirstHalf(t.top.rest.top, t.top.top);
  }

  /**
   * A frame whose only entry has passed is dropped, and the ascent continues
   * below it; when it was the last frame, the search is over.
   */
  lemma PassedPopsClearedFrame(t: Traversal)
    requires ValidTraversal(t) && t.Push? && t.top.rest.Empty?
    ensures ValidTraversal(t.rest)
    ensures t.rest.Push? ==> OnPassed(t) == OnPassed(t.rest)
    ensures t.rest.Empty? ==> OnPassed(t) == PassedStep(Empty, Finished)
  {
  }

  /**
   * A split followed by `passed()` hands out the complementary second half:
   * after the first half of a set passes, its other half is tested next.
   */
  lemma SplitThenPassedTestsComplement(t: Traversal, splitChildren: bool)
    requires ValidTraversal(t) && t.Push? && |Current(t)| > 1
    ensures var cur := Current(t);
            OnPassed(OnFailed(t, splitChildren).traversal)
            == PassedStep(Push(t.rest, Push(t.top, SecondHalf(cur))), Complement(SecondHalf(cur)))
  {
    FailedKeepsValid(t, splitChildren);
    HalvesPartition(Current(t));
  }

  /** `p` is the slice of `b` that starts at `lo`. */
  predicate SliceAt(b: seq<Node>, lo: nat, p: Candidates) {
    lo + |p| <= |b| && p == b[lo..lo + |p|]
  }

  /** Where a half of `p` starts, when `p` itself starts at `lo`. */
  function HalfOffset(h: Candidates, p: Candidates, lo: nat): nat {
    if h == FirstHalf(p) then lo else lo + |p| / 2
  }

  /** A half of the slice of `b` at `lo` is itself a slice of `b`, at `HalfOffset`. */
  lemma HalfOfSlice(b: seq<Node>, lo: nat, p: Candidates, h: Candidates)
    requires SliceAt(b, lo, p) && IsHalfOf(h, p)
    ensures SliceAt(b, HalfOffset(h, p, lo), h)
  {
    var m := |p| / 2;
    if h == FirstHalf(p) {
      assert h == p[..m];
    } else {
      assert h == p[m..];
    }
  }

  /**
   * Where the top entry of a frame starts within the frame's base: a first
   * half starts where its parent does, a second half half-way along it.
   */
  function Offset(f: Frame): nat
    requires f.Push?
  {
    if f.rest.Empty? then 0 else HalfOffset(f.top, f.rest.top, Offset(f.rest))
  }

  /**
   * The top entry of a valid frame is a non-empty contiguous slice of the
   * frame's base, starting at `Offset(f)`.
   */
  lemma {:induction false} TopIsSliceOfBase(f: Frame)
    requires ValidFrame(f)
    ensures SliceAt(Base(f), Offset(f), f.top)
  {
    if f.rest.Empty? {
      assert f.top == Base(f)[0..|f.top|];
    } else {
      TopIsSliceOfBase(f.rest);
      HalfOfSlice(Base(f.rest), Offset(f.rest), f.rest.top, f.top);
    }
  }

  /**
   * Every candidate the engine hands out is a non-empty contiguous slice of
   * the base of its frame, and that base is the children of the single node
   * on top of the frame beneath (or, for the bottom frame, the whole forest).
   */
  lemma CurrentIsSliceOfBase(t: Traversal)
    requires ValidTraversal(t) && t.Push?
    ensures exists lo, hi :: 0 <= lo < hi <= |Base(t.top)| && Current(t) == Base(t.top)[lo..hi]
    ensures t.rest.Push? ==> Base(t.top) == Current(t.rest)[0].children
    ensures t.rest.Empty? ==> Base(t.top) == Forest(t)
  {
    TopIsSliceOfBase(t.top);
    var lo := Offset(t.top);
    assert Current(t) == Base(t.top)[lo..lo + |Current(t)|];
  }

  // ---------------------------------------------------------------------------
  // The engine
  // ---------------------------------------------------------------------------

  /**
   * `BinarySearcher`: the traversal stack is a list of lists updated in
   * place by `Failed` and `Passed`, which follow `OnFailed` and `OnPassed`.
   */
  class BinarySearcher {
    /** `_initial_tree` */
    const initialTree: Candidates
    /** Whether the children of a node are split as soon as it is descended into. */
    const splitChildren: bool
    /** `_traversal` */
    var traversal: seq<seq<Candidates>>

    ghost predicate Valid()
      reads this
    {
      ValidTraversal(Abs(traversal))
      && (|traversal| > 0 ==> Forest(Abs(traversal)) == initialTree)
    }

    /**
     * One frame holding the whole forest, so the first current candidate is
     * the full input. An empty forest is refused: `failed()` would index its
     * first node.
     */
    constructor (initialTree: Candidates, splitChildren: bool := false)
      requires |initialTree| >= 1
      ensures Valid()
      ensures this.initialTree == initialTree && this.splitChildren == splitChildren
      ensures traversal == [[initialTree]] && Current(Abs(traversal)) == initialTree
    {
      this.initialTree := initialTree;
      this.splitChildren := splitChildren;
      traversal := [[initialTree]];
      var t: seq<seq<Candidates>> := [[initialTree]];
      assert t[..0] == [] && t[0][..0] == [];
      var f: Frame := Push(Empty, initialTree);
      assert AsStack(t[0]) == f;
      assert Abs(t) == Push(Empty, f);
      assert ValidFrame(f) && Base(f) == initialTree;
      assert ValidTraversal(Push(Empty, f));
    }

    /** `failed()` */
    method Failed() returns (r: FailedResult)
      requires Valid()
      modifies this
      ensures Valid()
      ensures Abs(traversal) == OnFailed(Abs(old(traversal)), splitChildren).traversal
      ensures r == OnFailed(Abs(old(traversal)), splitChildren).result
    {
      if |traversal| == 0 {
        return Exhausted;
      }
      FailedKeepsValid(Abs(traversal), splitChildren);
      ghost var t := Abs(traversal);
      var n := |traversal|;
      var top := traversal[n - 1];
      assert |top| > 0 by { AbsLast(traversal); }
      var cur := top[|top| - 1];
      AbsLast(traversal);
      assert Current(t) == cur;
      if |cur| > 1 {
        // bisect a set of two or more: append its first half to the active frame
        var half := cur[..|cur| / 2];
        AsStackAppend(top, half);
        AbsAppend(traversal[..n - 1], top + [half]);
        traversal := traversal[..n - 1] + [top + [half]];
        assert Abs(traversal) == Push(t.rest, Push(t.top, half));
        return Next(half);
      }
      var children := cur[0].children;
      if |children| > 0 {
        // descend into the children of a single node
        var frame := if splitChildren && |children| > 1 then [children, children[..|children| / 2]] else [children];
        assert AsStack(frame) == ChildFrame(children, splitChildren);
        AbsAppend(traversal, frame);
        traversal := traversal + [frame];
        return Next(frame[|frame| - 1]);
      }
      return EndNodeReached(cur[0]);
    }

    /** `passed()`: carries on by calling itself after each pop, as the source does. */
    method Passed() returns (r: PassedResult)
      requires Valid()
      modifies this
      ensures Valid()
      ensures Abs(traversal) == OnPassed(Abs(old(traversal))).traversal
      ensures r == OnPassed(Abs(old(traversal))).result
      decreases EntryCount(Abs(traversal))
    {
      if |traversal| == 0 {
        return StackEmpty;
      }
      PassedKeepsValid(Abs(traversal));
      var n := |traversal|;
      var top := traversal[n - 1];
      if |top| == 1 {
        // the frame's only entry passed: leave this depth
        traversal := traversal[..n - 1];
        if n == 1 {
          return Finished;
        }
        r := Passed();
        return;
      }
      var a, b := top[|top| - 2], top[|top| - 1];
      assert AsStack(top).rest.top == a;
      if a[0].id == b[0].id {
        // a first half passed: test the second half next
        var second := a[|a| / 2..];
        AsStackAppend(top[..|top| - 1], second);
        AbsAppend(traversal[..n - 1], top[..|top| - 1] + [second]);
        traversal := traversal[..n - 1] + [top[..|top| - 1] + [second]];
        return Complement(second);
      }
      // a second half passed: its parent is resolved too
      AbsAppend(traversal[..n - 1], top[..|top| - 1]);
      traversal := traversal[..n - 1] + [top[..|top| - 1]];
      r := Passed();
    }
  }
}
