/**
 * The scenarios of test_binary_search.py, played against `BinarySearcher`:
 * each method makes the same calls as one test and asserts the same results.
 * A node's `id` stands for its name in the test.
 */
module SearcherTraces {
  import opened Searcher

  /** The stack a new searcher holds: one frame whose only entry is the forest. */
  lemma Started(s: BinarySearcher)
    requires |s.traversal| == 1 && s.traversal[0] == [s.initialTree]
    ensures Abs(s.traversal) == Push(Empty, Push(Empty, s.initialTree))
  {
    assert s.traversal[..0] == [] && s.traversal[0][..0] == [];
  }

  /** test_binary_search.py:17-29 */
  method SingleChain() {
    var aaa := Node(2, []);
    var aa := Node(1, [aaa]);
    var a := Node(0, [aa]);
    var s := new BinarySearcher([a]);
    Started(s);
    var r := s.Failed();
    assert r == Next([aa]);
    r := s.Failed();
    assert r == Next([aaa]);
    r := s.Failed();
    assert r == EndNodeReached(aaa);
    var t1 := Push(Push(Empty, Push(Empty, [a])), Push(Empty, [aa]));
    assert OnPassed(Push(t1, Push(Empty, [aaa]))) == OnPassed(t1);
    assert OnPassed(t1) == OnPassed(t1.rest);
    var p := s.Passed();
    assert p == Finished;
  }

  /** test_binary_search.py:31-46 */
  method SingleLayerPair() {
    var a, b := Node(0, []), Node(1, []);
    var s := new BinarySearcher([a, b]);
    Started(s);
    assert [a, b][..1] == [a] && [a, b][1..] == [b];
    var r := s.Failed();
    assert r == Next([a]);
    r := s.Failed();
    assert r == EndNodeReached(a);
    var p := s.Passed();
    assert p == Complement([b]);
    r := s.Failed();
    assert r == EndNodeReached(b);
    assert OnPassed(Push(Empty, Push(Push(Empty, [a, b]), [b]))) == OnPassed(Push(Empty, Push(Empty, [a, b])));
    p := s.Passed();
    assert p == Finished;
  }

  /** test_binary_search.py:48-67 */
  method UnevenNumber() {
    var a, b, c := Node(0, []), Node(1, []), Node(2, []);
    var s := new BinarySearcher([a, b, c]);
    Started(s);
    var base: Frame := Push(Empty, [a, b, c]);
    assert [a, b, c][..1] == [a] && [a, b, c][1..] == [b, c] && [b, c][..1] == [b] && [b, c][1..] == [c];
    var r := s.Failed();
    assert r == Next([a]);
    r := s.Failed();
    assert r == EndNodeReached(a);
    var p := s.Passed();
    assert p == Complement([b, c]);
    r := s.Failed();
    assert r == Next([b]);
    r := s.Failed();
    assert r == EndNodeReached(b);
    p := s.Passed();
    assert p == Complement([c]);
    assert OnPassed(Push(Empty, Push(base, [b, c]))) == OnPassed(Push(Empty, base));
    p := s.Passed();
    assert p == Finished;
  }

  /** test_binary_search.py:69-86 */
  method MultipleUnderSingleNoInitialSplit() {
    var aa, ab := Node(1, []), Node(2, []);
    var a := Node(0, [aa, ab]);
    var s := new BinarySearcher([a], false);
    Started(s);
    assert [aa, ab][..1] == [aa] && [aa, ab][1..] == [ab];
    var r := s.Failed();
    assert r == Next([aa, ab]);
    r := s.Failed();
    assert r == Next([aa]);
    r := s.Failed();
    assert r == EndNodeReached(aa);
    var p := s.Passed();
    assert p == Complement([ab]);
    r := s.Failed();
    assert r == EndNodeReached(ab);
    var bottom := Push(Empty, Push(Empty, [a]));
    var pair: Frame := Push(Empty, [aa, ab]);
    assert OnPassed(Push(bottom, Push(pair, [ab]))) == OnPassed(Push(bottom, pair));
    assert OnPassed(Push(bottom, pair)) == OnPassed(bottom);
    p := s.Passed();
    assert p == Finished;
  }

  /** test_binary_search.py:88-103 */
  method MultipleUnderSingleInitialSplit() {
    var aa, ab := Node(1, []), Node(2, []);
    var a := Node(0, [aa, ab]);
    var s := new BinarySearcher([a], true);
    Started(s);
    assert [aa, ab][..1] == [aa] && [aa, ab][1..] == [ab];
    var r := s.Failed();
    assert r == Next([aa]);
    r := s.Failed();
    assert r == EndNodeReached(aa);
    var p := s.Passed();
    assert p == Complement([ab]);
    r := s.Failed();
    assert r == EndNodeReached(ab);
    var bottom := Push(Empty, Push(Empty, [a]));
    var pair: Frame := Push(Empty, [aa, ab]);
    assert OnPassed(Push(bottom, Push(pair, [ab]))) == OnPassed(Push(bottom, pair));
    assert OnPassed(Push(bottom, pair)) == OnPassed(bottom);
    p := s.Passed();
    assert p == Finished;
  }

  /** test_binary_search.py:105-136 */
  method UnequalDepth() {
    var aba, abb := Node(3, []), Node(4, []);
    var aa, ab := Node(1, []), Node(2, [aba, abb]);
    var a := Node(0, [aa, ab]);
    var s := new BinarySearcher([a]);
    Started(s);
    assert [aa, ab][..1] == [aa] && [aa, ab][1..] == [ab];
    assert [aba, abb][..1] == [aba] && [aba, abb][1..] == [abb];
    var r := s.Failed();
    assert r == Next([aa, ab]);
    r := s.Failed();
    assert r == Next([aa]);
    r := s.Failed();
    assert r == EndNodeReached(aa);
    var p := s.Passed();
    assert p == Complement([ab]);
    r := s.Failed();
    assert r == Next([aba, abb]);
    r := s.Failed();
    assert r == Next([aba]);
    p := s.Passed();
    assert p == Complement([abb]);
    r := s.Failed();
    assert r == EndNodeReached(abb);
    var bottom := Push(Push(Empty, Push(Empty, [a])), Push(Push(Empty, [aa, ab]), [ab]));
    var pair: Frame := Push(Empty, [aba, abb]);
    assert OnPassed(Push(bottom, Push(pair, [abb]))) == OnPassed(Push(bottom, pair));
    assert OnPassed(Push(bottom, pair)) == OnPassed(bottom);
    assert OnPassed(bottom) == OnPassed(Push(bottom.rest, Push(Empty, [aa, ab])));
    assert OnPassed(bottom.rest) == PassedStep(Empty, Finished);
    p := s.Passed();
    assert p == Finished;
  }
  // test_binary_search.py:138-208, played in three parts over this forest.
  const ADAA := Node(40, [])
  const ADAB := Node(41, [])
  const ADA := Node(30, [ADAA, ADAB])
  const ADB := Node(31, [])
  const AA := Node(10, [])
  const AB := Node(11, [Node(20, []), Node(21, [])])
  const AC := Node(12, [])
  const AD := Node(13, [ADA, ADB])
  const A := Node(0, [AA, AB, AC, AD])
  const C := Node(2, [Node(50, [Node(51, [Node(52, [Node(53, [])])])])])
  const Forest5 := [A, Node(1, []), C, Node(3, []), Node(4, [])]
  const Kids := [AA, AB, AC, AD]

  /** The bottom frame once the search has narrowed the forest to `[A]`. */
  const NarrowedToA: Frame := Push(Push(Push(Empty, Forest5), Forest5[..2]), [A])

  /** test_binary_search.py:175-185 */
  method TraversesPart1() returns (s: BinarySearcher)
    ensures fresh(s) && !s.splitChildren && s.Valid()
    ensures Abs(s.traversal) == Push(Push(Empty, NarrowedToA), Push(Push(Empty, Kids), [AC, AD]))
  {
    s := new BinarySearcher(Forest5);
    Started(s);
    assert Forest5[..2][..1] == [A] && Kids[..2] == [AA, AB] && Kids[2..] == [AC, AD];
    var r := s.Failed();
    assert r == Next(Forest5[..2]);
    r := s.Failed();
    assert r == Next([A]);
    r := s.Failed();
    assert r == Next(Kids);
    r := s.Failed();
    assert r == Next([AA, AB]);
    var p := s.Passed();
    assert p == Complement([AC, AD]);
  }

  /** test_binary_search.py:186-196 */
  method TraversesPart2(s: BinarySearcher)
    requires !s.splitChildren && s.Valid()
    requires Abs(s.traversal) == Push(Push(Empty, NarrowedToA), Push(Push(Empty, Kids), [AC, AD]))
    modifies s
    ensures s.Valid()
    ensures Abs(s.traversal)
            == Push(Push(Push(Empty, NarrowedToA), Push(Push(Push(Empty, Kids), [AC, AD]), [AD])),
                    Push(Push(Empty, [ADA, ADB]), [ADA]))
  {
    assert [AC, AD][..1] == [AC] && [AC, AD][1..] == [AD] && [ADA, ADB][..1] == [ADA];
    var r := s.Failed();
    assert r == Next([AC]);
    r := s.Failed();
    assert r == EndNodeReached(AC);
    var p := s.Passed();
    assert p == Complement([AD]);
    r := s.Failed();
    assert r == Next([ADA, ADB]);
    r := s.Failed();
    assert r == Next([ADA]);
  }

  /** test_binary_search.py:197-208; the test leaves the two last results unchecked. */
  method TraversesPart3(s: BinarySearcher)
    requires !s.splitChildren && s.Valid()
    requires Abs(s.traversal)
             == Push(Push(Push(Empty, NarrowedToA), Push(Push(Push(Empty, Kids), [AC, AD]), [AD])),
                     Push(Push(Empty, [ADA, ADB]), [ADA]))
    modifies s
  {
    assert [ADAA, ADAB][..1] == [ADAA] && [ADAA, ADAB][1..] == [ADAB] && [ADA, ADB][1..] == [ADB];
    var r := s.Failed();
    assert r == Next([ADAA, ADAB]);
    r := s.Failed();
    assert r == Next([ADAA]);
    r := s.Failed();
    assert r == EndNodeReached(ADAA);
    var p := s.Passed();
    assert p == Complement([ADAB]);
    r := s.Failed();
    assert r == EndNodeReached(ADAB);
    var pair: Frame := Push(Empty, [ADAA, ADAB]);
    var below := Abs(old(s.traversal));
    assert OnPassed(Push(below, Push(pair, [ADAB]))) == OnPassed(Push(below, pair));
    assert OnPassed(Push(below, pair)) == OnPassed(below);
    p := s.Passed();
    assert p == Complement([ADB]);
  }

  /** test_binary_search.py:138-208 */
  method TraversesWithoutAutosplitChildren() {
    var s := TraversesPart1();
    TraversesPart2(s);
    TraversesPart3(s);
  }
}
