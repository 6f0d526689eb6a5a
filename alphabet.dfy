/** Symbols and the alphabet that maps them to the integer codes used as array offsets. */
module Alphabet {

  datatype Option<T> = None | Some(value: T)

  /** A tail cell, or what a read of a word position gives: None is an unset cell
      (a hole in the array) or a read outside the word, both `undefined` in the source. */
  type Cell = Option<char>

  /** The end-of-word symbol every stored suffix is closed with. */
  const Terminator: char := '#'

  /** The symbol-to-code mapping, listed in the order in which the trie visits it
      when it enumerates a state's children. */
  type Alphabet = seq<(char, int)>

  /** Every code is a usable, strictly positive offset (0 is the "unused" value of `check`),
      and no symbol is listed twice (the source's alphabet is an object keyed by symbol). */
  predicate WellFormed(ab: Alphabet)
  {
    (forall k :: 0 <= k < |ab| ==> ab[k].1 >= 1) && Distinct(ab, 0)
  }

  /** No symbol of the entries from index `from` on is listed again after its entry. */
  predicate Distinct(ab: Alphabet, from: nat)
    decreases |ab| - from
  {
    from >= |ab| || (!HasSymbolFrom(ab, ab[from].0, from + 1) && Distinct(ab, from + 1))
  }

  /** The symbol of entry k is not listed again after it. */
  lemma {:induction false} DistinctAt(ab: Alphabet, from: nat, k: nat)
    requires Distinct(ab, from) && from <= k < |ab|
    ensures !HasSymbolFrom(ab, ab[k].0, k + 1)
    decreases k - from
  {
    if from < k {
      DistinctAt(ab, from + 1, k);
    }
  }

  predicate HasSymbolFrom(ab: Alphabet, c: char, from: nat)
  {
    exists k :: from <= k < |ab| && ab[k].0 == c
  }

  predicate HasSymbol(ab: Alphabet, c: char)
  {
    HasSymbolFrom(ab, c, 0)
  }

  /** The lookup of `getCharCode` over the entries from index `from` on. */
  function CodeFrom(ab: Alphabet, c: char, from: nat): (r: Option<int>)
    ensures r.Some? <==> HasSymbolFrom(ab, c, from)
    ensures r.Some? ==> exists k :: from <= k < |ab| && ab[k] == (c, r.value)
    decreases |ab| - from
  {
    if from >= |ab| then None
    else if ab[from].0 == c then Some(ab[from].1)
    else CodeFrom(ab, c, from + 1)
  }

  /** `getCharCode`: the code of a symbol, None for a symbol the alphabet does not map. */
  function Code(ab: Alphabet, c: char): (r: Option<int>)
    ensures r.Some? <==> HasSymbol(ab, c)
    ensures WellFormed(ab) && r.Some? ==> r.value >= 1
  {
    CodeFrom(ab, c, 0)
  }

  /** In a well-formed alphabet the code looked up for the symbol of an entry is that entry's code. */
  lemma {:induction false} CodeOfEntry(ab: Alphabet, k: nat)
    requires WellFormed(ab) && k < |ab|
    ensures Code(ab, ab[k].0) == Some(ab[k].1)
  {
    var i := 0;
    while i < k
      invariant 0 <= i <= k
      invariant CodeFrom(ab, ab[k].0, 0) == CodeFrom(ab, ab[k].0, i)
    {
      DistinctAt(ab, 0, i);
      assert ab[i].0 != ab[k].0;
      i := i + 1;
    }
  }

  /** `getCharCode` applied to a cell: an unset cell or an out-of-range read has no code. */
  function CellCode(ab: Alphabet, c: Cell): (r: Option<int>)
    ensures r.Some? <==> c.Some? && HasSymbol(ab, c.value)
    ensures WellFormed(ab) && r.Some? ==> r.value >= 1
  {
    if c.Some? then Code(ab, c.value) else None
  }

  /** A word the trie accepts as input: every symbol is mapped by the alphabet. */
  predicate IsWord(ab: Alphabet, w: seq<char>)
  {
    forall k :: 0 <= k < |w| ==> HasSymbol(ab, w[k])
  }

  /** The code of the word's symbol at index k. */
  function CodeAt(ab: Alphabet, w: seq<char>, k: nat): (r: int)
    requires IsWord(ab, w) && k < |w|
    ensures WellFormed(ab) ==> r >= 1
  {
    Code(ab, w[k]).value
  }

  /** Reading index i of a cell sequence; outside the sequence the read gives None. */
  function CellAt(cells: seq<Cell>, i: int): Cell
  {
    if 0 <= i < |cells| then cells[i] else None
  }

  /** Reading index i of a word; outside the word the read gives None. */
  function WordAt(w: seq<char>, i: int): Cell
  {
    if 0 <= i < |w| then Some(w[i]) else None
  }

  /** A word seen as cells, as `writeTail` copies it. */
  function Cells(w: seq<char>): (r: seq<Cell>)
    ensures |r| == |w|
    ensures forall i :: CellAt(r, i) == WordAt(w, i)
  {
    seq(|w|, k requires 0 <= k < |w| => Some(w[k]))
  }

  /** Cells of a concatenation are the concatenated cells. */
  lemma CellsConcat(a: seq<char>, b: seq<char>)
    ensures Cells(a + b) == Cells(a) + Cells(b)
  {
    assert forall k :: 0 <= k < |a| + |b| ==> Cells(a + b)[k] == (Cells(a) + Cells(b))[k];
  }

  /** The alphabet of the repository's test suite: the terminator and a to z. */
  const TestAlphabet: Alphabet :=
    [(Terminator, 1)] + seq(26, k requires 0 <= k < 26 => ((97 + k) as char, k + 2))

  /** Entry k of the test alphabet, k >= 1, is the k-th letter with code k + 1. */
  lemma TestAlphabetEntries()
    ensures |TestAlphabet| == 27 && TestAlphabet[0] == (Terminator, 1)
    ensures forall k :: 1 <= k < 27 ==> TestAlphabet[k] == ((96 + k) as char, k + 1)
  {
  }

  /** The test alphabet lists its symbols in increasing order, so none twice. */
  lemma TestAlphabetWellFormed()
    ensures WellFormed(TestAlphabet)
  {
    TestAlphabetEntries();
    var j := 27;
    while j > 0
      invariant 0 <= j <= 27 && Distinct(TestAlphabet, j)
    {
      j := j - 1;
      assert !HasSymbolFrom(TestAlphabet, TestAlphabet[j].0, j + 1);
    }
  }

  /** The terminator and the letters a to z are the test alphabet's symbols. */
  lemma TestAlphabetSymbols(c: char)
    requires c == Terminator || 'a' <= c <= 'z'
    ensures HasSymbol(TestAlphabet, c)
  {
    TestAlphabetEntries();
    if c != Terminator {
      var k := c as int - 96;
      assert TestAlphabet[k].0 == c;
    } else {
      assert TestAlphabet[0].0 == c;
    }
  }

  /** A word over a to z and the terminator is a word of the test alphabet. */
  lemma TestWord(w: seq<char>)
    requires forall k :: 0 <= k < |w| ==> w[k] == Terminator || 'a' <= w[k] <= 'z'
    ensures IsWord(TestAlphabet, w)
  {
    forall k | 0 <= k < |w| ensures HasSymbol(TestAlphabet, w[k]) {
      TestAlphabetSymbols(w[k]);
    }
  }

  /** The codes of the test alphabet: 1 for the terminator, 2 to 27 for a to z. */
  lemma TestCode(c: char)
    requires c == Terminator || 'a' <= c <= 'z'
    ensures Code(TestAlphabet, c) == Some(if c == Terminator then 1 else c as int - 95)
  {
    TestAlphabetWellFormed();
    TestAlphabetEntries();
    CodeOfEntry(TestAlphabet, if c == Terminator then 0 else c as int - 96);
  }

  /** The codes of a word over the test alphabet, symbol by symbol. */
  lemma TestCodes(w: seq<char>)
    requires forall k :: 0 <= k < |w| ==> w[k] == Terminator || 'a' <= w[k] <= 'z'
    ensures IsWord(TestAlphabet, w)
    ensures forall k :: 0 <= k < |w| ==> CodeAt(TestAlphabet, w, k) == if w[k] == Terminator then 1 else w[k] as int - 95
  {
    TestWord(w);
    forall k | 0 <= k < |w|
      ensures CodeAt(TestAlphabet, w, k) == if w[k] == Terminator then 1 else w[k] as int - 95
    {
      TestCode(w[k]);
    }
  }
}
