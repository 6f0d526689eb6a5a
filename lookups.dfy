/** The lookups of the repository's test suite (test/trie-test.js): contains on the state
    the suite sets up by hand, and a second insert of each inserted word. */
module Lookups {
  import opened Alphabet
  import opened DoubleArray
  import opened TailStore
  import opened Operations
  import opened Properties
  import opened Fixtures

  /** The state the lookup tests install: the arrays after case 4, with the two cells of
      the old suffix r# that case 3 left behind cleared to holes. */
  const Lookup: Store :=
    Store(FourWords.base, FourWords.check, 15, Cells(SuffixesThree[..6]) + [None, None] + Cells(SuffixesFour[8..]), 17)

  lemma LookupCells()
    ensures Valid(Lookup)
    ensures Base(Lookup, 1) == 4 && Check(Lookup, 7) == 1 && Base(Lookup, 7) == 1
    ensures Check(Lookup, 3) == 7 && Base(Lookup, 3) == 1
    ensures Check(Lookup, 4) == 3 && Base(Lookup, 4) == -15
    ensures Check(Lookup, 5) == 3 && Base(Lookup, 5) == -1
    ensures Check(Lookup, 6) == 3 && Base(Lookup, 6) == -12
    ensures Check(Lookup, 15) == 1 && Base(Lookup, 15) == -9
    ensures Check(Lookup, 2) == 0 && Check(Lookup, 10) == 0 && Check(Lookup, 25) == 0
  {
  }

  /** The tail the lookup tests install, cell by cell. */
  lemma LookupTail()
    ensures Lookup.tail == [Some('h'), Some('e'), Some('l'), Some('o'), Some('r'), Some('#'), None, None,
                            Some('a'), Some('r'), Some('#'), Some('g'), Some('e'), Some('#'), Some('y'), Some('#')]
  {
    assert SuffixesThree[..6] == "helor#" && SuffixesFour[8..] == "ar#ge#y#";
  }

  /** bachelor# walks b and a to state 3 and stops on the leaf 5, whose suffix helor# at
      tail position 1 is the rest of the word. */
  lemma ContainsBachelor()
    ensures IsWord(TestAlphabet, "bachelor#") && Contains(TestAlphabet, Lookup, "bachelor#")
  {
    WalkBachelor();
    TailBachelor();
  }

  lemma WalkBachelor()
    ensures IsWord(TestAlphabet, "bachelor#")
    ensures WalkFromRoot(TestAlphabet, Lookup, "bachelor#") == Stopped(5, 2) && Base(Lookup, 5) == -1
  {
    CodesBachelor();
    LookupCells();
    WalkOn(TestAlphabet, Lookup, "bachelor#", 0, 1, 0, 3, 7);
    WalkOn(TestAlphabet, Lookup, "bachelor#", 1, 7, 7, 2, 3);
    WalkStops(TestAlphabet, Lookup, "bachelor#", 2, 3, 3, 4, 5);
  }

  lemma TailBachelor()
    ensures TailEquals(Lookup.tail, 1, "bachelor#", 3)
  {
    LookupTail();
    MatchesEqualRun(Lookup.tail, 0, "bachelor#", 3, 6);
  }

  lemma CodesBachelor()
    ensures IsWord(TestAlphabet, "bachelor#")
    ensures CodeAt(TestAlphabet, "bachelor#", 0) == 3 && CodeAt(TestAlphabet, "bachelor#", 1) == 2 && CodeAt(TestAlphabet, "bachelor#", 2) == 4
  {
    TestCodes("bachelor#");
  }

  /** jar# stops on the leaf 15 right below the root; its suffix ar# is at position 9. */
  lemma ContainsJar()
    ensures IsWord(TestAlphabet, "jar#") && Contains(TestAlphabet, Lookup, "jar#")
  {
    WalkJar();
    TailJar();
  }

  lemma WalkJar()
    ensures IsWord(TestAlphabet, "jar#")
    ensures WalkFromRoot(TestAlphabet, Lookup, "jar#") == Stopped(15, 0) && Base(Lookup, 15) == -9
  {
    CodesJar();
    LookupCells();
    WalkStops(TestAlphabet, Lookup, "jar#", 0, 1, 0, 11, 15);
  }

  lemma TailJar()
    ensures TailEquals(Lookup.tail, 9, "jar#", 1)
  {
    LookupTail();
    MatchesEqualRun(Lookup.tail, 8, "jar#", 1, 3);
  }

  lemma CodesJar()
    ensures IsWord(TestAlphabet, "jar#")
    ensures CodeAt(TestAlphabet, "jar#", 0) == 11
  {
    TestCodes("jar#");
  }

  /** badge# stops on the leaf 6 below state 3; its suffix ge# is at position 12. */
  lemma ContainsBadge()
    ensures IsWord(TestAlphabet, "badge#") && Contains(TestAlphabet, Lookup, "badge#")
  {
    WalkBadge();
    TailBadge();
  }

  lemma WalkBadge()
    ensures IsWord(TestAlphabet, "badge#")
    ensures WalkFromRoot(TestAlphabet, Lookup, "badge#") == Stopped(6, 2) && Base(Lookup, 6) == -12
  {
    CodesBadge();
    LookupCells();
    WalkOn(TestAlphabet, Lookup, "badge#", 0, 1, 0, 3, 7);
    WalkOn(TestAlphabet, Lookup, "badge#", 1, 7, 7, 2, 3);
    WalkStops(TestAlphabet, Lookup, "badge#", 2, 3, 3, 5, 6);
  }

  lemma TailBadge()
    ensures TailEquals(Lookup.tail, 12, "badge#", 3)
  {
    LookupTail();
    MatchesEqualRun(Lookup.tail, 11, "badge#", 3, 3);
  }

  lemma CodesBadge()
    ensures IsWord(TestAlphabet, "badge#")
    ensures CodeAt(TestAlphabet, "badge#", 0) == 3 && CodeAt(TestAlphabet, "badge#", 1) == 2 && CodeAt(TestAlphabet, "badge#", 2) == 5
  {
    TestCodes("badge#");
  }

  /** baby# stops on the leaf 4 below state 3; its suffix y# is at position 15. */
  lemma ContainsBaby()
    ensures IsWord(TestAlphabet, "baby#") && Contains(TestAlphabet, Lookup, "baby#")
  {
    WalkBaby();
    TailBaby();
  }

  lemma WalkBaby()
    ensures IsWord(TestAlphabet, "baby#")
    ensures WalkFromRoot(TestAlphabet, Lookup, "baby#") == Stopped(4, 2) && Base(Lookup, 4) == -15
  {
    CodesBaby();
    LookupCells();
    WalkOn(TestAlphabet, Lookup, "baby#", 0, 1, 0, 3, 7);
    WalkOn(TestAlphabet, Lookup, "baby#", 1, 7, 7, 2, 3);
    WalkStops(TestAlphabet, Lookup, "baby#", 2, 3, 3, 3, 4);
  }

  lemma TailBaby()
    ensures TailEquals(Lookup.tail, 15, "baby#", 3)
  {
    LookupTail();
    MatchesEqualRun(Lookup.tail, 14, "baby#", 3, 2);
  }

  lemma CodesBaby()
    ensures IsWord(TestAlphabet, "baby#")
    ensures CodeAt(TestAlphabet, "baby#", 0) == 3 && CodeAt(TestAlphabet, "baby#", 1) == 2 && CodeAt(TestAlphabet, "baby#", 2) == 3
  {
    TestCodes("baby#");
  }

  /** example# has no arc for e below the root: cell 10 is unused. */
  lemma ContainsNotExample()
    ensures IsWord(TestAlphabet, "example#") && !Contains(TestAlphabet, Lookup, "example#")
  {
    CodesExample();
    LookupCells();
    WalkMisses(TestAlphabet, Lookup, "example#", 0, 1, 0, 6, 10);
  }

  lemma CodesExample()
    ensures IsWord(TestAlphabet, "example#")
    ensures CodeAt(TestAlphabet, "example#", 0) == 6
  {
    TestCodes("example#");
  }

  /** test# has no arc for t below the root: cell 25 is unused. */
  lemma ContainsNotTest()
    ensures IsWord(TestAlphabet, "test#") && !Contains(TestAlphabet, Lookup, "test#")
  {
    CodesTest();
    LookupCells();
    WalkMisses(TestAlphabet, Lookup, "test#", 0, 1, 0, 21, 25);
  }

  lemma CodesTest()
    ensures IsWord(TestAlphabet, "test#")
    ensures CodeAt(TestAlphabet, "test#", 0) == 21
  {
    TestCodes("test#");
  }

  /** back# reaches the leaf of bachelor#, whose suffix helor# differs from k# at once. */
  lemma ContainsNotBack()
    ensures IsWord(TestAlphabet, "back#") && !Contains(TestAlphabet, Lookup, "back#")
  {
    WalkBac("back#");
    LookupTail();
    assert !TailMatch(Lookup.tail, 0, "back#", 3);
  }

  /** back# and bac# share the prefix bac, which leads to the leaf of bachelor#. */
  lemma WalkBac(w: seq<char>)
    requires w == "back#" || w == "bac#"
    ensures IsWord(TestAlphabet, w)
    ensures WalkFromRoot(TestAlphabet, Lookup, w) == Stopped(5, 2) && Base(Lookup, 5) == -1
  {
    TestCodes(w);
    LookupCells();
    WalkOn(TestAlphabet, Lookup, w, 0, 1, 0, 3, 7);
    WalkOn(TestAlphabet, Lookup, w, 1, 7, 7, 2, 3);
    WalkStops(TestAlphabet, Lookup, w, 2, 3, 3, 4, 5);
  }

  /** jaded# reaches the leaf of jar#, whose suffix ar# differs from aded# at the second cell. */
  lemma ContainsNotJaded()
    ensures IsWord(TestAlphabet, "jaded#") && !Contains(TestAlphabet, Lookup, "jaded#")
  {
    WalkJaded();
    LookupTail();
    assert TailMatch(Lookup.tail, 8, "jaded#", 1) == TailMatch(Lookup.tail, 9, "jaded#", 2);
    assert !TailMatch(Lookup.tail, 9, "jaded#", 2);
  }

  lemma WalkJaded()
    ensures IsWord(TestAlphabet, "jaded#")
    ensures WalkFromRoot(TestAlphabet, Lookup, "jaded#") == Stopped(15, 0) && Base(Lookup, 15) == -9
  {
    TestCodes("jaded#");
    LookupCells();
    WalkStops(TestAlphabet, Lookup, "jaded#", 0, 1, 0, 11, 15);
  }

  /** bac# reaches the leaf of bachelor#, whose suffix helor# is not the remaining #. */
  lemma ContainsNotBac()
    ensures IsWord(TestAlphabet, "bac#") && !Contains(TestAlphabet, Lookup, "bac#")
  {
    WalkBac("bac#");
    LookupTail();
    assert !TailMatch(Lookup.tail, 0, "bac#", 3);
  }


  /** ba# reaches state 3, which has no arc for the terminator: cell 2 is unused. */
  lemma ContainsNotBa()
    ensures IsWord(TestAlphabet, "ba#") && !Contains(TestAlphabet, Lookup, "ba#")
  {
    CodesBa();
    LookupCells();
    WalkOn(TestAlphabet, Lookup, "ba#", 0, 1, 0, 3, 7);
    WalkOn(TestAlphabet, Lookup, "ba#", 1, 7, 7, 2, 3);
    WalkMisses(TestAlphabet, Lookup, "ba#", 2, 3, 3, 1, 2);
  }

  lemma CodesBa()
    ensures IsWord(TestAlphabet, "ba#")
    ensures CodeAt(TestAlphabet, "ba#", 0) == 3 && CodeAt(TestAlphabet, "ba#", 1) == 2 && CodeAt(TestAlphabet, "ba#", 2) == 1
  {
    TestCodes("ba#");
  }

  /** A second insert of each word of cases 1 to 4 finds it and leaves the state as it was. */
  lemma InsertAgainCase1()
    ensures WellFormed(TestAlphabet) && Valid(Bachelor) && IsWord(TestAlphabet, "bachelor#")
    ensures Insert(TestAlphabet, Bachelor, "bachelor#") == (Bachelor, Finished)
  {
    TestAlphabetWellFormed();
    ContainsAgainCase1();
    InsertWhenPresent(TestAlphabet, Bachelor, "bachelor#");
  }

  lemma ContainsAgainCase1()
    ensures Valid(Bachelor) && IsWord(TestAlphabet, "bachelor#") && Contains(TestAlphabet, Bachelor, "bachelor#")
  {
    CodesBachelor();
    BachelorCells();
    WalkStops(TestAlphabet, Bachelor, "bachelor#", 0, 1, 0, 3, 4);
    MatchesEqualRun(Bachelor.tail, 0, "bachelor#", 1, 8);
  }

  lemma BachelorCells()
    ensures Valid(Bachelor) && Base(Bachelor, 1) == 1 && Check(Bachelor, 4) == 1 && Base(Bachelor, 4) == -1
  {
  }

  lemma InsertAgainCase2()
    ensures WellFormed(TestAlphabet) && Valid(BachelorJar) && IsWord(TestAlphabet, "jar#")
    ensures Insert(TestAlphabet, BachelorJar, "jar#") == (BachelorJar, Finished)
  {
    TestAlphabetWellFormed();
    ContainsAgainCase2();
    InsertWhenPresent(TestAlphabet, BachelorJar, "jar#");
  }

  lemma ContainsAgainCase2()
    ensures Valid(BachelorJar) && IsWord(TestAlphabet, "jar#") && Contains(TestAlphabet, BachelorJar, "jar#")
  {
    CodesJar();
    BachelorJarCells();
    WalkStops(TestAlphabet, BachelorJar, "jar#", 0, 1, 0, 11, 12);
    MatchesEqualRun(BachelorJar.tail, 8, "jar#", 1, 3);
  }

  lemma BachelorJarCells()
    ensures Valid(BachelorJar) && Base(BachelorJar, 1) == 1 && Check(BachelorJar, 12) == 1
    ensures Base(BachelorJar, 12) == -9
  {
  }

  lemma InsertAgainCase3()
    ensures WellFormed(TestAlphabet) && Valid(BachelorJarBadge) && IsWord(TestAlphabet, "badge#")
    ensures Insert(TestAlphabet, BachelorJarBadge, "badge#") == (BachelorJarBadge, Finished)
  {
    TestAlphabetWellFormed();
    ContainsAgainCase3();
    InsertWhenPresent(TestAlphabet, BachelorJarBadge, "badge#");
  }

  lemma ContainsAgainCase3()
    ensures Valid(BachelorJarBadge) && IsWord(TestAlphabet, "badge#")
    ensures Contains(TestAlphabet, BachelorJarBadge, "badge#")
  {
    WalkAgainCase3();
    MatchesEqualRun(BachelorJarBadge.tail, 11, "badge#", 3, 3);
  }

  lemma WalkAgainCase3()
    ensures Valid(BachelorJarBadge) && IsWord(TestAlphabet, "badge#")
    ensures WalkFromRoot(TestAlphabet, BachelorJarBadge, "badge#") == Stopped(6, 2)
    ensures Base(BachelorJarBadge, 6) == -12
  {
    CodesBadge();
    BachelorJarBadgeCells();
    WalkOn(TestAlphabet, BachelorJarBadge, "badge#", 0, 1, 0, 3, 4);
    WalkOn(TestAlphabet, BachelorJarBadge, "badge#", 1, 4, 4, 2, 3);
    WalkStops(TestAlphabet, BachelorJarBadge, "badge#", 2, 3, 3, 5, 6);
  }

  lemma InsertAgainCase4()
    ensures WellFormed(TestAlphabet) && Valid(FourWords) && IsWord(TestAlphabet, "baby#")
    ensures Insert(TestAlphabet, FourWords, "baby#") == (FourWords, Finished)
  {
    TestAlphabetWellFormed();
    ContainsAgainCase4();
    InsertWhenPresent(TestAlphabet, FourWords, "baby#");
  }

  lemma ContainsAgainCase4()
    ensures Valid(FourWords) && IsWord(TestAlphabet, "baby#") && Contains(TestAlphabet, FourWords, "baby#")
  {
    WalkAgainCase4();
    MatchesEqualRun(FourWords.tail, 14, "baby#", 3, 2);
  }

  lemma WalkAgainCase4()
    ensures Valid(FourWords) && IsWord(TestAlphabet, "baby#")
    ensures WalkFromRoot(TestAlphabet, FourWords, "baby#") == Stopped(4, 2) && Base(FourWords, 4) == -15
  {
    CodesBaby();
    FourWordsCells();
    WalkOn(TestAlphabet, FourWords, "baby#", 0, 1, 0, 3, 7);
    WalkOn(TestAlphabet, FourWords, "baby#", 1, 7, 7, 2, 3);
    WalkStops(TestAlphabet, FourWords, "baby#", 2, 3, 3, 3, 4);
  }

  lemma FourWordsCells()
    ensures Valid(FourWords) && Base(FourWords, 1) == 4
    ensures Check(FourWords, 7) == 1 && Base(FourWords, 7) == 1
    ensures Check(FourWords, 3) == 7 && Base(FourWords, 3) == 1
    ensures Check(FourWords, 4) == 3 && Base(FourWords, 4) == -15
  {
  }
}
