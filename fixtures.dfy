/** The concrete runs of the repository's test suite (test/trie-test.js), over its alphabet
    of the terminator and a to z. */
module Fixtures {
  import opened Alphabet
  import opened DoubleArray
  import opened TailStore
  import opened Slots
  import opened Operations
  import opened Properties

  /** A new trie's arrays: base [1], check [0], an empty tail and the cursor at 1. */
  lemma InitialArrays()
    ensures Dense(Initial.base, Initial.checkLen) == [1] && Dense(Initial.check, Initial.checkLen) == [0]
    ensures Initial.tail == [] && Initial.pos == 1
  {
  }

  /** The state after writeTail of hello# at position 1 on a new trie. */
  const Hello: Store := Initial.(tail := Cells("ello#"), pos := 6)

  /** The state after writing world# at the cursor next. */
  const HelloWorld: Store := Initial.(tail := Cells("ello#orld#"), pos := 11)

  /** Writing a simple string: the cells after index 0 fill the empty tail and the cursor
      moves past them. */
  lemma WriteTailSimple()
    ensures WriteTail(Initial, Cells("hello#"), 1, 0) == Hello
  {
    WriteTailAppends(Initial, "hello#", 0);
    assert [] + Cells("hello#"[1..]) == Cells("ello#");
  }

  /** Writing the same string over itself changes nothing: the cursor stays at 6. */
  lemma WriteTailSameAgain()
    ensures WriteTail(Hello, Cells("hello#"), 1, 0) == Hello
  {
    var src := Cells("hello#");
    RunUpTo(src, 1, 5);
    WriteTailEffect(Hello, src, 1, 0);
    var r := WriteTail(Hello, src, 1, 0);
    assert r.tail == Hello.tail;
  }

  /** A second string written at the cursor goes after the first. */
  lemma WriteTailTwo()
    ensures WriteTail(Hello, Cells("world#"), Hello.pos, 0) == HelloWorld
  {
    WriteTailAppends(Hello, "world#", 0);
    assert Cells("ello#") + Cells("world#"[1..]) == Cells("ello#orld#");
  }

  /** The tail written over itself from its second cell on: each cell is read before a write
      reaches it, so the in-place copy is the copy of a snapshot, and the result is llo##. */
  lemma WriteTailOverItself()
    ensures WriteTail(Hello, Hello.tail, 1, 0) == Hello.(tail := Cells("llo##"))
  {
    var src := Hello.tail;
    RunUpTo(src, 1, 4);
    WriteTailEffect(Hello, src, 1, 0);
    var r := WriteTail(Hello, src, 1, 0);
    assert r.tail == Cells("llo##");
  }

  /** The copy this write makes reads the cells it has already overwritten: it is the
      in-place copy of the source's loop. */
  lemma WriteTailOverItselfLive()
    ensures CopyLive(Hello.tail, 0, 1) == Copy(Hello.tail, Hello.tail, 0, 1)
  {
    CopyLiveIsSnapshot(Hello.tail, Hello.tail, 0, 1);
  }

  /** The same from the middle of the tail: orld# written over itself from position 6 gives rld#
      there, the last cell keeps its terminator and the cursor stays at 11. */
  lemma WriteTailOverItselfMidTail()
    ensures WriteTail(HelloWorld, HelloWorld.tail, 6, 5) == HelloWorld.(tail := Cells("ello#rld##"))
  {
    var src := HelloWorld.tail;
    RunUpTo(src, 6, 9);
    WriteTailEffect(HelloWorld, src, 6, 5);
    var r := WriteTail(HelloWorld, src, 6, 5);
    assert r.tail == Cells("ello#rld##");
  }

  /** The copy this write makes reads the cells it has already overwritten: it is the
      in-place copy of the source's loop. */
  lemma WriteTailOverItselfMidTailLive()
    ensures CopyLive(HelloWorld.tail, 5, 6) == Copy(HelloWorld.tail, HelloWorld.tail, 5, 6)
  {
    CopyLiveIsSnapshot(HelloWorld.tail, HelloWorld.tail, 5, 6);
  }

  /** After inserting bachelor# into a new trie (case 1). */
  const Bachelor: Store := Store(map[1 := 1, 4 := -1], map[1 := 0, 4 := 1], 4, Cells("achelor#"), 9)

  /** After inserting jar# next, without a collision (case 2). */
  const BachelorJar: Store :=
    Store(map[1 := 1, 4 := -1, 12 := -9], map[1 := 0, 4 := 1, 12 := 1], 12, Cells("achelor#ar#"), 12)

  /** The suffixes stored after case 3 and after case 4. */
  const SuffixesThree: string := "helor#r#ar#ge#"
  const SuffixesFour: string := "helor#r#ar#ge#y#"

  /** After inserting badge# next, which splits the suffix of bachelor# (case 3). */
  const BachelorJarBadge: Store :=
    Store(map[1 := 1, 3 := 1, 4 := 1, 5 := -1, 6 := -12, 12 := -9],
          map[1 := 0, 3 := 4, 4 := 1, 5 := 3, 6 := 3, 12 := 1], 12, Cells(SuffixesThree), 15)

  /** Case 1: the walk of bachelor# finds cell 4 free below the root, which becomes a leaf
      pointing at tail position 1, where achelor# goes. */
  lemma InsertCase1()
    ensures WellFormed(TestAlphabet) && IsWord(TestAlphabet, "bachelor#")
    ensures Insert(TestAlphabet, Initial, "bachelor#") == (Bachelor, Finished)
  {
    TestAlphabetWellFormed();
    TestWord("bachelor#");
    WalkCase1();
    InsertAtFreeSlot(TestAlphabet, Initial, "bachelor#", 1, 4, 0);
    LeafCase1();
  }

  lemma WalkCase1()
    ensures IsWord(TestAlphabet, "bachelor#")
    ensures WalkFromRoot(TestAlphabet, Initial, "bachelor#") == Missing(1, 4, 0)
  {
    TestWord("bachelor#");
    TestCode('b');
  }

  lemma LeafCase1()
    ensures AddLeaf(Initial, 1, 4, "bachelor#", 0) == Bachelor
  {
    var s1 := SetCheck(SetBase(Initial, 4, -1), 4, 1);
    assert s1 == Store(map[1 := 1, 4 := -1], map[1 := 0, 4 := 1], 4, [], 1);
    WriteTailAppends(s1, "bachelor#", 0);
    assert "bachelor#"[1..] == "achelor#";
  }

  /** Case 2: jar# meets the free cell 12 below the root; its rest goes after achelor#. */
  lemma InsertCase2()
    ensures WellFormed(TestAlphabet) && IsWord(TestAlphabet, "jar#") && Valid(Bachelor)
    ensures Insert(TestAlphabet, Bachelor, "jar#") == (BachelorJar, Finished)
  {
    TestAlphabetWellFormed();
    TestWord("jar#");
    WalkCase2();
    InsertAtFreeSlot(TestAlphabet, Bachelor, "jar#", 1, 12, 0);
    LeafCase2();
  }

  lemma WalkCase2()
    ensures IsWord(TestAlphabet, "jar#")
    ensures WalkFromRoot(TestAlphabet, Bachelor, "jar#") == Missing(1, 12, 0)
  {
    TestWord("jar#");
    TestCode('j');
  }

  lemma LeafCase2()
    ensures AddLeaf(Bachelor, 1, 12, "jar#", 0) == BachelorJar
  {
    var s1 := SetCheck(SetBase(Bachelor, 12, -9), 12, 1);
    assert s1 == Store(map[1 := 1, 4 := -1, 12 := -9], map[1 := 0, 4 := 1, 12 := 1], 12, Cells("achelor#"), 9);
    WriteTailAppends(s1, "jar#", 0);
    assert "jar#"[1..] == "ar#" && "achelor#" + "ar#" == "achelor#ar#";
    CellsConcat("achelor#", "ar#");
  }

  /** Case 3: badge# stops on the leaf 4 of bachelor#; the shared a makes 4 a state with the
      one child 3, and at c/d, 3 gets base 1 with the old leaf at 5 (its suffix helor#
      rewritten at position 1) and the new leaf at 6 (ge# at the cursor 12). */
  lemma InsertCase3()
    ensures WellFormed(TestAlphabet) && IsWord(TestAlphabet, "badge#") && Valid(BachelorJar)
    ensures Insert(TestAlphabet, BachelorJar, "badge#") == (BachelorJarBadge, Finished)
  {
    InsertStepCase3();
    ShareCase3();
    SplitCase3();
  }

  /** badge# stops on the leaf 4, whose suffix differs: insert goes on to insertTail. */
  lemma InsertStepCase3()
    ensures WellFormed(TestAlphabet) && IsWord(TestAlphabet, "badge#") && Valid(BachelorJar)
    ensures Insert(TestAlphabet, BachelorJar, "badge#") == InsertTail(TestAlphabet, BachelorJar, 4, 1, "badge#", 1)
  {
    WalkCase3();
    InsertAtLeaf(TestAlphabet, BachelorJar, "badge#", 4, 0);
  }

  lemma WalkCase3()
    ensures WellFormed(TestAlphabet) && Valid(BachelorJar) && IsWord(TestAlphabet, "badge#")
    ensures WalkFromRoot(TestAlphabet, BachelorJar, "badge#") == Stopped(4, 0)
    ensures !Found(BachelorJar, "badge#", 4, 0) && Base(BachelorJar, 4) == -1
  {
    TestAlphabetWellFormed();
    TestWord("badge#");
    TestCode('b');
  }

  /** The state after the shared a of case 3: base(4) = x_check([2]) = 1 and check(3) = 4. */
  const SharedA: Store :=
    Store(map[1 := 1, 4 := 1, 12 := -9], map[1 := 0, 3 := 4, 4 := 1, 12 := 1], 12, Cells("achelor#ar#"), 12)

  /** The first turn of insertTail for badge# below the leaf 4: a is shared. */
  lemma ShareCase3()
    ensures WellFormed(TestAlphabet) && IsWord(TestAlphabet, "badge#") && Valid(BachelorJar)
    ensures InsertTail(TestAlphabet, BachelorJar, 4, 1, "badge#", 1)
            == SplitLoop(TestAlphabet, SharedA, 3, 1, "badge#", 1, 1, 1)
  {
    ShareFactsCase3();
    SplitLoopShared(TestAlphabet, BachelorJar, 4, 1, "badge#", 1, 0, 0);
  }

  /** The stored a and the word's a have the same code, and sharing it gives SharedA. */
  lemma ShareFactsCase3()
    ensures WellFormed(TestAlphabet) && IsWord(TestAlphabet, "badge#") && Valid(BachelorJar)
    ensures CellAt(BachelorJar.tail, 0) != Some(Terminator)
    ensures CellCode(TestAlphabet, CellAt(BachelorJar.tail, 0)).Some?
    ensures CellCode(TestAlphabet, CellAt(BachelorJar.tail, 0)) == CellCode(TestAlphabet, WordAt("badge#", 1))
    ensures var c := CellCode(TestAlphabet, CellAt(BachelorJar.tail, 0)).value;
            c >= 1 && Share(BachelorJar, 4, c) == SharedA && Base(SharedA, 4) + c == 3
  {
    TestAlphabetWellFormed();
    TestWord("badge#");
    TestCode('a');
    assert CellAt(BachelorJar.tail, 0) == Some('a') && WordAt("badge#", 1) == Some('a');
    FreeShareCase3();
  }

  /** Base 1 places a on the unused cell 3. */
  lemma FreeShareCase3()
    ensures Valid(BachelorJar) && XCheck(BachelorJar, [2]) == 1
  {
    assert Free(BachelorJar, [2], 1);
  }

  /** The second turn: c against d differ, and the split ends the loop. */
  lemma SplitCase3()
    ensures WellFormed(TestAlphabet) && IsWord(TestAlphabet, "badge#") && Valid(SharedA)
    ensures SplitLoop(TestAlphabet, SharedA, 3, 1, "badge#", 1, 1, 1) == (BachelorJarBadge, Finished)
  {
    SplitFactsCase3();
    SplitLoopDiffers(TestAlphabet, SharedA, 3, 1, "badge#", 1, 1, 1);
  }

  /** The stored c and the word's d have different codes, and the split at them gives
      the expected state. */
  lemma SplitFactsCase3()
    ensures WellFormed(TestAlphabet) && IsWord(TestAlphabet, "badge#") && Valid(SharedA)
    ensures |SharedA.tail| == 11
    ensures CellCode(TestAlphabet, CellAt(SharedA.tail, 1)).Some?
    ensures CellCode(TestAlphabet, WordAt("badge#", 2)).Some?
    ensures CellCode(TestAlphabet, CellAt(SharedA.tail, 1)) != CellCode(TestAlphabet, WordAt("badge#", 2))
    ensures var tc := CellCode(TestAlphabet, CellAt(SharedA.tail, 1)).value;
            var wc := CellCode(TestAlphabet, WordAt("badge#", 2)).value;
            tc >= 1 && wc >= 1 && Split(SharedA, 3, 1, "badge#", 1, 1, tc, wc) == BachelorJarBadge
  {
    SplitCodesCase3();
    SplitResultCase3();
  }

  /** The stored c has code 4 and the word's d code 5. */
  lemma SplitCodesCase3()
    ensures WellFormed(TestAlphabet) && IsWord(TestAlphabet, "badge#") && Valid(SharedA)
    ensures |SharedA.tail| == 11
    ensures CellCode(TestAlphabet, CellAt(SharedA.tail, 1)) == Some(4)
    ensures CellCode(TestAlphabet, WordAt("badge#", 2)) == Some(5)
  {
    TestAlphabetWellFormed();
    TestWord("badge#");
    TestCode('c');
    TestCode('d');
    assert CellAt(SharedA.tail, 1) == Some('c') && WordAt("badge#", 2) == Some('d');
  }

  /** The split at c/d as its three stages. */
  lemma SplitResultCase3()
    ensures Valid(SharedA) && Split(SharedA, 3, 1, "badge#", 1, 1, 4, 5) == BachelorJarBadge
  {
    ForkCase3();
    RewriteCase3();
    LeavesCase3();
  }

  /** The state after the fork of case 3: base(3) = x_check([4, 5]) = 1, the old leaf at 5. */
  const ForkCD: Store :=
    Store(map[1 := 1, 3 := 1, 4 := 1, 5 := -1, 12 := -9],
          map[1 := 0, 3 := 4, 4 := 1, 5 := 3, 12 := 1], 12, Cells("achelor#ar#"), 12)

  lemma ForkCase3()
    ensures Valid(SharedA) && Fork(SharedA, 3, 1, 4, 5) == ForkCD
  {
    FreeForkCase3();
  }

  /** Base 1 places c and d on the unused cells 5 and 6. */
  lemma FreeForkCase3()
    ensures Valid(SharedA) && XCheck(SharedA, [4, 5]) == 1
  {
    assert Free(SharedA, [4, 5], 1);
  }

  /** The old suffix helor# rewritten in place at tail position 1. */
  lemma RewriteCase3()
    ensures WriteTail(ForkCD, ForkCD.tail, 1, 1) == Rewritten
  {
    var src := ForkCD.tail;
    RunUpTo(src, 2, 7);
    WriteTailEffect(ForkCD, src, 1, 1);
    assert WriteTail(ForkCD, src, 1, 1).tail == Cells("helor#r#ar#");
  }

  /** The new leaf 6 below 3, with ge# at the cursor. */
  lemma LeavesCase3()
    ensures AddLeaf(Rewritten, 3, 6, "badge#", 2) == BachelorJarBadge
  {
    LeafCellsCase3();
    LeafTailCase3();
  }

  /** The fork with the old suffix rewritten. */
  const Rewritten: Store :=
    Store(map[1 := 1, 3 := 1, 4 := 1, 5 := -1, 12 := -9],
          map[1 := 0, 3 := 4, 4 := 1, 5 := 3, 12 := 1], 12, Cells("helor#r#ar#"), 12)

  /** The new leaf 6 recorded below 3, before its suffix is written. */
  const LeafSix: Store :=
    Store(map[1 := 1, 3 := 1, 4 := 1, 5 := -1, 6 := -12, 12 := -9],
          map[1 := 0, 3 := 4, 4 := 1, 5 := 3, 6 := 3, 12 := 1], 12, Cells("helor#r#ar#"), 12)

  lemma LeafCellsCase3()
    ensures SetCheck(SetBase(Rewritten, 6, -Rewritten.pos), 6, 3) == LeafSix
  {
  }

  lemma LeafTailCase3()
    ensures WriteTail(LeafSix, Cells("badge#"), LeafSix.pos, 2) == BachelorJarBadge
  {
    WriteTailAppends(LeafSix, "badge#", 2);
    assert "badge#"[3..] == "ge#" && "helor#r#ar#" + "ge#" == SuffixesThree;
    CellsConcat("helor#r#ar#", "ge#");
  }

  /** Case 4: baby# walks b, a and then meets cell 4, which belongs to the root. The root has
      fewer children than 3 with its new one, so the root moves: its base becomes
      x_check([3, 11]) = 4, the child 4 moves to 7 (its child 3, found from offset 1, is made
      to record 7) and the child 12 to 15; the new leaf takes cell 4 with y# at the cursor 15. */
  lemma InsertCase4()
    ensures WellFormed(TestAlphabet) && IsWord(TestAlphabet, "baby#") && Valid(BachelorJarBadge)
    ensures Insert(TestAlphabet, BachelorJarBadge, "baby#") == (FourWords, Finished)
  {
    InsertStepCase4();
    RelocateCase4();
  }

  /** After inserting baby# next (case 4). */
  const FourWords: Store :=
    Store(map[1 := 4, 3 := 1, 4 := -15, 5 := -1, 6 := -12, 7 := 1, 12 := 0, 15 := -9],
          map[1 := 0, 3 := 7, 4 := 3, 5 := 3, 6 := 3, 7 := 1, 12 := 0, 15 := 1], 15,
          Cells(SuffixesFour), 17)

  lemma InsertStepCase4()
    ensures WellFormed(TestAlphabet) && IsWord(TestAlphabet, "baby#") && Valid(BachelorJarBadge)
    ensures Insert(TestAlphabet, BachelorJarBadge, "baby#")
            == (Relocate(TestAlphabet, BachelorJarBadge, 3, 4, "baby#", 2), Finished)
  {
    WalkCase4();
    InsertAtCollision(TestAlphabet, BachelorJarBadge, "baby#", 3, 4, 2);
  }

  /** One turn of the walk loop that follows the arc of code c from n into cell t, a state
      with children. */
  lemma WalkOn(ab: Alphabet, s: Store, w: seq<char>, i: nat, n: int, m: int, c: int, t: int)
    requires IsWord(ab, w) && i < |w| && CodeAt(ab, w, i) == c
    requires Base(s, n) + c == t && Check(s, t) == n && Base(s, t) >= 0
    ensures Walk(ab, s, w, i, n, m) == Walk(ab, s, w, i + 1, t, t)
  {
  }

  /** The turn of the walk loop that follows the arc of code c from n onto the leaf t. */
  lemma WalkStops(ab: Alphabet, s: Store, w: seq<char>, i: nat, n: int, m: int, c: int, t: int)
    requires IsWord(ab, w) && i < |w| && CodeAt(ab, w, i) == c
    requires Base(s, n) + c == t && Check(s, t) == n && Base(s, t) < 0
    ensures Walk(ab, s, w, i, n, m) == Stopped(t, i)
  {
  }

  /** The turn of the walk loop that finds cell t, at code c from n, not owned by n. */
  lemma WalkMisses(ab: Alphabet, s: Store, w: seq<char>, i: nat, n: int, m: int, c: int, t: int)
    requires IsWord(ab, w) && i < |w| && CodeAt(ab, w, i) == c
    requires Base(s, n) + c == t && Check(s, t) != n
    ensures Walk(ab, s, w, i, n, m) == Missing(n, t, i)
  {
  }

  lemma BachelorJarBadgeCells()
    ensures Valid(BachelorJarBadge) && Base(BachelorJarBadge, 1) == 1
    ensures Check(BachelorJarBadge, 4) == 1 && Base(BachelorJarBadge, 4) == 1
    ensures Check(BachelorJarBadge, 3) == 4 && Base(BachelorJarBadge, 3) == 1
    ensures Check(BachelorJarBadge, 6) == 3 && Base(BachelorJarBadge, 6) == -12
  {
  }

  lemma WalkCase4()
    ensures WellFormed(TestAlphabet) && Valid(BachelorJarBadge) && IsWord(TestAlphabet, "baby#")
    ensures WalkFromRoot(TestAlphabet, BachelorJarBadge, "baby#") == Missing(3, 4, 2)
    ensures Check(BachelorJarBadge, 4) == 1
  {
    WalkCodesCase4();
    WalkLastCase4();
    WalkSecondCase4();
    WalkFirstCase4();
  }

  lemma WalkFirstCase4()
    ensures IsWord(TestAlphabet, "baby#") && Valid(BachelorJarBadge) && Check(BachelorJarBadge, 4) == 1
    ensures Walk(TestAlphabet, BachelorJarBadge, "baby#", 0, 1, 0) == Walk(TestAlphabet, BachelorJarBadge, "baby#", 1, 4, 4)
  {
    WalkCodesCase4();
    BachelorJarBadgeCells();
    WalkOn(TestAlphabet, BachelorJarBadge, "baby#", 0, 1, 0, 3, 4);
  }

  lemma WalkLastCase4()
    ensures IsWord(TestAlphabet, "baby#")
    ensures Walk(TestAlphabet, BachelorJarBadge, "baby#", 2, 3, 3) == Missing(3, 4, 2)
  {
    WalkCodesCase4();
    BachelorJarBadgeCells();
    WalkMisses(TestAlphabet, BachelorJarBadge, "baby#", 2, 3, 3, 3, 4);
  }

  lemma WalkSecondCase4()
    ensures IsWord(TestAlphabet, "baby#")
    ensures Walk(TestAlphabet, BachelorJarBadge, "baby#", 1, 4, 4) == Walk(TestAlphabet, BachelorJarBadge, "baby#", 2, 3, 3)
  {
    WalkCodesCase4();
    BachelorJarBadgeCells();
    WalkOn(TestAlphabet, BachelorJarBadge, "baby#", 1, 4, 4, 2, 3);
  }

  lemma WalkCodesCase4()
    ensures WellFormed(TestAlphabet) && IsWord(TestAlphabet, "baby#")
    ensures CodeAt(TestAlphabet, "baby#", 0) == 3 && CodeAt(TestAlphabet, "baby#", 1) == 2
    ensures CodeAt(TestAlphabet, "baby#", 2) == 3
  {
    TestAlphabetWellFormed();
    TestWord("baby#");
    TestCode('b');
    TestCode('a');
  }

  lemma RelocateCase4()
    ensures WellFormed(TestAlphabet) && IsWord(TestAlphabet, "baby#") && Valid(BachelorJarBadge)
    ensures Relocate(TestAlphabet, BachelorJarBadge, 3, 4, "baby#", 2) == FourWords
  {
    RelocatedCase4();
    LeafCodeCase4();
    MovedParentCase4();
    assert Relocate(TestAlphabet, BachelorJarBadge, 3, 4, "baby#", 2) == AddLeaf(Moved, 3, 4, "baby#", 2);
    LeafCase4();
  }

  lemma MovedParentCase4()
    ensures Base(Moved, 3) == 1
  {
  }

  lemma LeafCodeCase4()
    ensures WellFormed(TestAlphabet) && IsWord(TestAlphabet, "baby#")
    ensures CodeAt(TestAlphabet, "baby#", 2) == 3
  {
    TestAlphabetWellFormed();
    TestWord("baby#");
    TestCode('b');
  }

  /** The children of 3 are at codes c and d; those of the root at codes b and j. */
  lemma TargetCase4()
    ensures WellFormed(TestAlphabet) && RelocationTarget(TestAlphabet, BachelorJarBadge, 3, 4) == (1, [3, 11])
  {
    TestAlphabetWellFormed();
    ArcsCase4();
    RootArcsCase4();
  }

  lemma ArcsCase4()
    ensures Arcs(TestAlphabet, BachelorJarBadge, 3) == [4, 5]
  {
    TestAlphabetEntries();
    assert Base(BachelorJarBadge, 3) == 1;
    ArcsOfSkip(TestAlphabet, BachelorJarBadge, 3, 0, 3);
    assert ArcsOf(TestAlphabet, BachelorJarBadge, 3, 5) == [4, 5];
    ArcsOfSkip(TestAlphabet, BachelorJarBadge, 3, 5, 27);
  }

  lemma RootArcsCase4()
    ensures Arcs(TestAlphabet, BachelorJarBadge, 1) == [3, 11]
  {
    RootArcsLowCase4();
    TestAlphabetEntries();
    assert TestAlphabet[10].1 == 11 && Check(BachelorJarBadge, 12) == 1;
    assert ArcsOf(TestAlphabet, BachelorJarBadge, 1, 11) == [3, 11];
    ArcsOfSkip(TestAlphabet, BachelorJarBadge, 1, 11, 27);
  }

  lemma RootArcsLowCase4()
    ensures |TestAlphabet| == 27 && ArcsOf(TestAlphabet, BachelorJarBadge, 1, 10) == [3]
    ensures Base(BachelorJarBadge, 1) == 1
  {
    TestAlphabetEntries();
    assert Base(BachelorJarBadge, 1) == 1;
    ArcsOfSkip(TestAlphabet, BachelorJarBadge, 1, 0, 2);
    assert TestAlphabet[2].1 == 3 && Check(BachelorJarBadge, 4) == 1;
    assert ArcsOf(TestAlphabet, BachelorJarBadge, 1, 3) == [3];
    ArcsOfSkip(TestAlphabet, BachelorJarBadge, 1, 3, 10);
  }

  lemma RelocatedCase4()
    ensures WellFormed(TestAlphabet) && Valid(BachelorJarBadge)
    ensures Relocated(TestAlphabet, BachelorJarBadge, 3, 4) == Moved
  {
    TargetCase4();
    RebaseCase4();
    MovesCase4();
  }

  /** The root rebased at 4, before its children move. */
  const Rebased: Store :=
    Store(map[1 := 4, 3 := 1, 4 := 1, 5 := -1, 6 := -12, 12 := -9],
          map[1 := 0, 3 := 4, 4 := 1, 5 := 3, 6 := 3, 12 := 1], 12, Cells(SuffixesThree), 15)

  /** The child 4 moved to 7. */
  const MovedOne: Store :=
    Store(map[1 := 4, 3 := 1, 4 := 0, 5 := -1, 6 := -12, 7 := 1, 12 := -9],
          map[1 := 0, 3 := 7, 4 := 0, 5 := 3, 6 := 3, 7 := 1, 12 := 1], 12, Cells(SuffixesThree), 15)

  /** The child 12 moved to 15 as well. */
  const Moved: Store :=
    Store(map[1 := 4, 3 := 1, 4 := 0, 5 := -1, 6 := -12, 7 := 1, 12 := 0, 15 := -9],
          map[1 := 0, 3 := 7, 4 := 0, 5 := 3, 6 := 3, 7 := 1, 12 := 0, 15 := 1], 15, Cells(SuffixesThree), 15)

  lemma MovesCase4()
    ensures Valid(Rebased) && MoveFirst(Rebased, 1, 1, [3, 11], 2) == Moved
  {
    MoveFirstCase4();
    assert Base(MovedOne, 1) == 4;
    MoveTwoCase4();
  }

  lemma MoveFirstCase4()
    ensures Valid(Rebased) && MoveFirst(Rebased, 1, 1, [3, 11], 1) == MovedOne
  {
    assert MoveFirst(Rebased, 1, 1, [3, 11], 0) == Rebased;
    assert Base(Rebased, 1) == 4;
    MoveOneCase4();
  }

  lemma RebaseCase4()
    ensures Valid(BachelorJarBadge) && Positive([3, 11])
    ensures Base(BachelorJarBadge, 1) == 1
    ensures SetBase(BachelorJarBadge, 1, XCheck(BachelorJarBadge, [3, 11])) == Rebased
  {
    XCheckCase4();
  }

  /** x_check([3, 11]) = 4: bases 1 to 3 put b on the used cells 4 to 6. */
  lemma XCheckCase4()
    ensures Valid(BachelorJarBadge) && Positive([3, 11]) && XCheck(BachelorJarBadge, [3, 11]) == 4
  {
    var codes := [3, 11];
    assert Check(BachelorJarBadge, 1 + codes[0]) != 0 && Check(BachelorJarBadge, 2 + codes[0]) != 0;
    assert Check(BachelorJarBadge, 3 + codes[0]) != 0 && Free(BachelorJarBadge, codes, 4);
  }

  lemma MoveOneCase4()
    ensures MoveChild(Rebased, 1, 4, 7) == MovedOne
  {
    CopyOneCase4();
    OwnerCase4();
    ClearOneCase4();
  }

  /** Cell 7 holding the base of 4 and recording the root. */
  const CopiedOne: Store :=
    Store(map[1 := 4, 3 := 1, 4 := 1, 5 := -1, 6 := -12, 7 := 1, 12 := -9],
          map[1 := 0, 3 := 4, 4 := 1, 5 := 3, 6 := 3, 7 := 1, 12 := 1], 12, Cells(SuffixesThree), 15)

  lemma CopyOneCase4()
    ensures Valid(Rebased) && MoveSteps(Rebased, 1, 4, 7, 2) == MoveSteps(CopiedOne, 1, 4, 7, 1)
  {
    CopyOneBaseCase4();
    CopyOneCheckCase4();
    assert Base(Rebased, 4) == 1;
    assert SetCheck(SetBase(Rebased, 7, 1), 7, 1) == CopiedOne;
  }

  lemma CopyOneBaseCase4()
    ensures Rebased.base[7 := 1] == CopiedOne.base
  {
  }

  lemma CopyOneCheckCase4()
    ensures Rebased.check[7 := 1] == CopiedOne.check
  {
  }

  /** The grandchild 3 of the root, below 4, is found at offset 2 from 1. */
  lemma OwnerCase4()
    ensures Base(CopiedOne, 4) == 1 && OwnerOffset(CopiedOne, 1, 4, 1) == 2
  {
    assert Check(CopiedOne, 2) == 0 && Check(CopiedOne, 3) == 4;
  }

  lemma ClearOneCase4()
    ensures Valid(CopiedOne) && SetCheck(SetBase(SetCheck(CopiedOne, 3, 7), 4, 0), 4, 0) == MovedOne
  {
    ClearOneBaseCase4();
    ClearOneCheckCase4();
  }

  lemma ClearOneBaseCase4()
    ensures CopiedOne.base[4 := 0] == MovedOne.base
  {
  }

  lemma ClearOneCheckCase4()
    ensures CopiedOne.check[3 := 7][4 := 0] == MovedOne.check
  {
  }

  lemma MoveTwoCase4()
    ensures MoveChild(MovedOne, 1, 12, 15) == Moved
  {
  }

  /** The new leaf 4 below 3 before its suffix is written. */
  const LeafFour: Store :=
    Store(map[1 := 4, 3 := 1, 4 := -15, 5 := -1, 6 := -12, 7 := 1, 12 := 0, 15 := -9],
          map[1 := 0, 3 := 7, 4 := 3, 5 := 3, 6 := 3, 7 := 1, 12 := 0, 15 := 1], 15, Cells(SuffixesThree), 15)

  lemma LeafCase4()
    ensures AddLeaf(Moved, 3, 4, "baby#", 2) == FourWords
  {
    LeafCellsCase4();
    LeafTailCase4();
  }

  lemma LeafCellsCase4()
    ensures SetCheck(SetBase(Moved, 4, -Moved.pos), 4, 3) == LeafFour
  {
    LeafBaseCase4();
    LeafCheckCase4();
  }

  lemma LeafBaseCase4()
    ensures Moved.base[4 := -15] == LeafFour.base
  {
  }

  lemma LeafCheckCase4()
    ensures Moved.check[4 := 3] == LeafFour.check
  {
  }

  lemma LeafTailCase4()
    ensures WriteTail(LeafFour, Cells("baby#"), LeafFour.pos, 2) == FourWords
  {
    WriteTailAppends(LeafFour, "baby#", 2);
    assert "baby#"[3..] == "y#" && SuffixesThree + "y#" == SuffixesFour;
    CellsConcat(SuffixesThree, "y#");
  }
}
