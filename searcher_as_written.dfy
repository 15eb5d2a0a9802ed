/**
 * `BinarySearcher.passed()` exactly as searcher.py:16-38 writes it, and the
 * pre-split of children that searcher.py:48 leaves commented out, set beside
 * the behaviour the tests in test_binary_search.py require (module
 * `Searcher`). Each lemma below names an input on which the two differ.
 */
module SearcherAsWritten {
  import opened Wrappers
  import opened Strings
  import opened Searcher

  /** What the literal `passed()` does: return a value, or fail with an `IndexError`. */
  datatype Outcome = Returned(traversal: Traversal, result: Option<Candidates>) | IndexError

  /**
   * searcher.py:16-38 as written, on the same stacks as `Searcher.OnPassed`.
   * The first-half test indexes `[-2]` of the active frame, so a frame with
   * one entry is an `IndexError`; the complement is sliced from the frame's
   * length rather than half the parent's; after a cleared frame it pops a
   * second frame whenever more than one is left.
   */
  function PassedAsWritten(t: Traversal): (o: Outcome)
    ensures o.Returned? && o.result.None? ==> Size(o.traversal) <= 1
    decreases EntryCount(t)
  {
    if t.Empty? || t.top.Empty? || t.top.rest.Empty? then IndexError
    else
      var a := t.top.rest.top;
      var b := t.top.top;
      if |a| == 0 || |b| == 0 then IndexError
      else if a[0].id == b[0].id then
        var c := Drop(a, Size(t.top));
        Returned(Push(t.rest, Push(t.top.rest, c)), Some(c))
      else
        var f := t.top.rest;
        if Size(f) > 1 then PassedAsWritten(Push(t.rest, f))
        else if Size(t.rest) > 1 then
          assert EntryCount(t.rest.rest) <= EntryCount(t.rest) < EntryCount(t);
          PassedAsWritten(t.rest.rest)
        else Returned(t.rest, None)
  }

  const A := Node(0, [])
  const B := Node(1, [])
  const C := Node(2, [])

  /**
   * test_binary_search.py:17-29: after descending `A` -> `A.A` -> `A.A.A`
   * and reaching the end node, `passed()` must report the end of the search.
   * As written every frame holds a single entry, so `[-1][-2]` is an
   * `IndexError`; `OnPassed` pops the three frames and ends the search.
   */
  lemma SingleEntryFrameIsIndexError()
    ensures var aaa := Node(2, []);
            var aa := Node(1, [aaa]);
            var a := Node(0, [aa]);
            var t := Abs([[[a]], [[aa]], [[aaa]]]);
            ValidTraversal(t)
            && PassedAsWritten(t) == IndexError
            && OnPassed(t) == PassedStep(Empty, Finished)
  {
    var aaa := Node(2, []);
    var aa := Node(1, [aaa]);
    var a := Node(0, [aa]);
    var f0, f1, f2: Frame := Push(Empty, [a]), Push(Empty, [aa]), Push(Empty, [aaa]);
    AsStackAppend([], [a]);
    AsStackAppend([], [aa]);
    AsStackAppend([], [aaa]);
    AbsAppend([], [[a]]);
    AbsAppend([[[a]]], [[aa]]);
    AbsAppend([[[a]], [[aa]]], [[aaa]]);
    assert [] + [[[a]]] == [[[a]]] && [[[a]]] + [[[aa]]] == [[[a]], [[aa]]];
    assert [[[a]], [[aa]]] + [[[aaa]]] == [[[a]], [[aa]], [[aaa]]];
    var t := Push(Push(Push(Empty, f0), f1), f2);
    assert Abs([[[a]], [[aa]], [[aaa]]]) == t;
    assert ValidFrame(f0) && ValidFrame(f1) && ValidFrame(f2);
    assert Base(f1) == [aa] == [a][0].children && Base(f2) == [aaa] == [aa][0].children;
    assert ValidTraversal(Push(Empty, f0));
    assert ValidTraversal(Push(Push(Empty, f0), f1));
    assert ValidTraversal(t);
    assert OnPassed(Push(Push(Empty, f0), f1)) == OnPassed(Push(Empty, f0));
  }

  /**
   * test_binary_search.py:48-58: with forest `[A, B, C]`, after `[A]` passes
   * the search must test `[B, C]`. As written the complement is
   * `[A, B, C][2:]`, sliced at the length of the frame, so it is `[C]` and
   * `B` is never tested.
   */
  lemma ComplementSlicedAtFrameLength()
    ensures var t := Abs([[[A, B, C], [A]]]);
            ValidTraversal(t)
            && PassedAsWritten(t).Returned? && PassedAsWritten(t).result == Some([C])
            && OnPassed(t).result == Complement([B, C])
  {
    var f: Frame := Push(Push(Empty, [A, B, C]), [A]);
    AsStackAppend([], [A, B, C]);
    AsStackAppend([[A, B, C]], [A]);
    assert [] + [[A, B, C]] == [[A, B, C]] && [[A, B, C]] + [[A]] == [[A, B, C], [A]];
    AbsAppend([], [[A, B, C], [A]]);
    assert [] + [[[A, B, C], [A]]] == [[[A, B, C], [A]]];
    assert Abs([[[A, B, C], [A]]]) == Push(Empty, f);
    assert [A, B, C][1..] == [B, C] && [A, B, C][2..] == [C];
    assert ValidFrame(f);
  }

  /**
   * Forest `[X, B]` where `X` has four children: the search failed on
   * `[X, B]` and `[X]`, descended into `X`'s children and both of their
   * halves then passed. `X`'s children are cleared, so the search must go
   * back up and test `[B]`, the complement of `[X]`. As written, popping the
   * cleared frame leaves a single frame, which it takes for the end of the
   * search: it returns `None` and `B` is never tested.
   */
  lemma ClearedFrameEndsSearchEarly()
    ensures var k1, k2, k3, k4 := Node(2, []), Node(3, []), Node(4, []), Node(5, []);
            var x := Node(0, [k1, k2, k3, k4]);
            var t := Abs([[[x, B], [x]], [[k1, k2, k3, k4], [k3, k4]]]);
            ValidTraversal(t)
            && PassedAsWritten(t) == Returned(Abs([[[x, B], [x]]]), None)
            && OnPassed(t).result == Complement([B])
  {
    var k1, k2, k3, k4 := Node(2, []), Node(3, []), Node(4, []), Node(5, []);
    var kids := [k1, k2, k3, k4];
    assert kids[2..] == [k3, k4];
    ClearedFrameStack(Node(0, kids), B, kids);
    ClearedFrameSearch(Node(0, kids), B, kids);
  }

  /** The stack of `ClearedFrameEndsSearchEarly`, for any parent `x`, sibling `y` and four children. */
  lemma ClearedFrameStack(x: Node, y: Node, kids: Candidates)
    requires |kids| == 4
    ensures Abs([[[x, y], [x]]]) == Push(Empty, Push(Push(Empty, [x, y]), [x]))
    ensures Abs([[[x, y], [x]], [kids, kids[2..]]])
            == Push(Push(Empty, Push(Push(Empty, [x, y]), [x])), Push(Push(Empty, kids), kids[2..]))
  {
    AsStackAppend([], [x, y]);
    AsStackAppend([[x, y]], [x]);
    assert [] + [[x, y]] == [[x, y]] && [[x, y]] + [[x]] == [[x, y], [x]];
    AsStackAppend([], kids);
    AsStackAppend([kids], kids[2..]);
    assert [] + [kids] == [kids] && [kids] + [kids[2..]] == [kids, kids[2..]];
    AbsAppend([], [[x, y], [x]]);
    AbsAppend([[[x, y], [x]]], [kids, kids[2..]]);
    assert [] + [[[x, y], [x]]] == [[[x, y], [x]]];
    assert [[[x, y], [x]]] + [[kids, kids[2..]]] == [[[x, y], [x]], [kids, kids[2..]]];
  }

  /** Both searches on that stack, when the first and third children differ. */
  lemma ClearedFrameSearch(x: Node, y: Node, kids: Candidates)
    requires |kids| == 4 && x.children == kids && kids[0].id != kids[2].id
    ensures var bottom := Push(Push(Empty, [x, y]), [x]);
            var t := Push(Push(Empty, bottom), Push(Push(Empty, kids), kids[2..]));
            ValidTraversal(t)
            && PassedAsWritten(t) == Returned(Push(Empty, bottom), None)
            && OnPassed(t).result == Complement([y])
  {
    var bottom := Push(Push(Empty, [x, y]), [x]);
    var top := Push(Push(Empty, kids), kids[2..]);
    var t := Push(Push(Empty, bottom), top);
    assert kids[..2] == FirstHalf(kids) && kids[2..] == SecondHalf(kids);
    assert kids[2..][0] == kids[2];
    assert Size(Push(Empty, kids)) == 1 && Size(Push(Empty, bottom)) == 1;
    assert [x, y][..1] == [x] && [x, y][1..] == [y];
    assert ValidFrame(bottom) && ValidFrame(top);
    assert ValidTraversal(Push(Empty, bottom));
    assert DescendsFrom(top, bottom);
    assert ValidTraversal(t);
    assert ValidTraversal(Push(Push(Empty, bottom), Push(Empty, kids)));
    assert OnPassed(t) == OnPassed(Push(Push(Empty, bottom), Push(Empty, kids)));
    assert OnPassed(Push(Push(Empty, bottom), Push(Empty, kids))) == OnPassed(Push(Empty, bottom));
  }

  /**
   * The frame searcher.py:48 (commented out) would open on descending: the
   * children and their first half, whatever their number. It hands out half
   * the children, rounded down, and is a valid frame exactly when there are
   * two or more of them.
   */
  function ChildFrameAsWritten(kids: Candidates): (f: Frame)
    ensures f.Push? && Base(f) == kids && |f.top| == |kids| / 2
    ensures ValidFrame(f) <==> |kids| > 1
  {
    Push(Push(Empty, kids), FirstHalf(kids))
  }

  /**
   * With a single child the pre-split of searcher.py:48 hands out an empty
   * candidate set (`children[:0]`), on which the next `failed()` indexes
   * `[0]` of nothing. `Searcher.ChildFrame` splits only two or more
   * children, so it always hands out a non-empty set and keeps the frame
   * valid.
   */
  lemma PreSplitOfSingleChildIsEmpty(k: Node)
    ensures ChildFrameAsWritten([k]).top == []
    ensures !ValidFrame(ChildFrameAsWritten([k]))
    ensures ChildFrame([k], true).top == [k] && ValidFrame(ChildFrame([k], true))
  {
  }
}
