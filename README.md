# A double-array trie with a tail store

This project models `lib/trie.js`, a double-array trie in Aoe's style. The trie has one
object with four pieces of state:

- `base` and `check`: two parallel integer arrays. They are addressed 1-based through
  `getBase`/`getCheck`/`setBase`/`setCheck`, and an unset cell reads 0.
- `tail`: a flat array of symbols holding the compressed suffixes. It may have holes.
- `pos`: the cursor to the first free position of the tail.

A word is a sequence of symbols ending in the terminator `#`. `contains` walks from the
root, state 1: at state `n` the next symbol of code `c` leads to cell `base(n) + c`, which
belongs to `n` when `check` there records `n`. A cell with a negative base is a leaf, and
minus its base is the tail position of its stored suffix.

`insert` does one of four things:

- it installs a leaf in a free cell;
- it calls `relocateBase` when the cell belongs to another state, which moves the arcs of
  either the current state or the owner;
- it does nothing when the word is already stored;
- it calls `insertTail`, which turns the shared prefix of the stored suffix and the word
  into a chain of one-child states, then places two leaves at the first difference.

`remove` clears the last cell of its walk when the word ends on `#` there or its rest
equals the stored suffix.

The model has two layers.

- **Specification functions on a `Store` value.** These are the modules `DoubleArray`,
  `Slots`, `TailStore` and `Operations`. There is one function per operation and per loop
  of the source.
- **The class `DoubleArrayTrie.Trie`.** It holds the same four fields and has one method
  per function of the source. Each method does the source's work step by step, with its
  loops. Each method is proved to leave the state, and return the result, that its
  specification function gives.

The local contracts the source promises are proved as lemmas about the specification
functions, in `Properties` and `TailStore`. These cover:

- which cells each update writes;
- how the cursor moves;
- the least free base `x_check` finds;
- the overlap-safe copy of `writeTail`.

The concrete runs of the repository's test suite are proved in `Fixtures` and `Lookups`,
over the suite's alphabet (`#` = 1, `a` to `z` = 2 to 27). They include the state after
each of the four insert cases and the idempotence of inserting the same word again.

The source's flaws are modelled as written, not repaired:

- `relocateBase`'s grandchild search starts at offset `node`, and only the first
  grandchild it finds is redirected.
- `x_check` for the moved state `n` runs without the new arc's code.
- `insertTail` passes `i + j` as the start of the word's rest.
- `remove` walks without testing `check`.

An array is a `map<int, int>` from 1-based position to value. Its length `checkLen` is
tracked because `relocateBase`'s grandchild search reads `check.length`. It also bounds
the model's `x_check` search, which the source leaves unbounded. A tail cell is an
`Option<char>`. `None` stands for a hole, or for a read outside the word, which is
`undefined` in the source.

## Model

| member | source | states |
|---|---|---|
| Alphabet.Code | lib/trie.js:220-222 | `getCharCode`: a code exists exactly when the alphabet has the symbol. In a well-formed alphabet it is at least 1. |
| Alphabet.CellCode | lib/trie.js:220-222 | The code of a tail cell or a word read. None for a hole, a read past the word, or an unmapped symbol. |
| Alphabet.CodeOfEntry | lib/trie.js:122-124 | The code looked up for the symbol of any alphabet entry is that entry's code. `findArcs` relies on this. |
| Alphabet.TestAlphabetWellFormed | test/trie-test.js:8-36 | The suite's alphabet has positive codes and no repeated symbol. |
| Alphabet.TestCode | test/trie-test.js:8-36 | In the suite's alphabet, `#` has code 1 and the letters `a` to `z` have codes 2 to 27. |
| DoubleArray.SetBase | lib/trie.js:212-214 | Position p reads v afterwards. No other position of `base` changes. `check`, tail and cursor are untouched. |
| DoubleArray.SetCheck | lib/trie.js:216-218 | Position p reads v afterwards. No other position changes. The array's length grows to p when p is past its end. |
| Slots.XCheckFrom | lib/trie.js:80-96 | The scan from candidate q returns a base at least q that is free for every code. Every candidate it passes collides. It stops by the array's length. |
| Slots.XCheck | lib/trie.js:79-98 | `x_check` returns the least q >= 1 with `check(q + c) = 0` for every code c of the list. It is 1 or at most `check.length`, so the search always ends. |
| Slots.ArcsOf | lib/trie.js:122-126 | Among the first len entries, code c is listed exactly when its cell off `base(n)` records n. All listed codes are positive. |
| Slots.Arcs | lib/trie.js:119-128 | `findArcs(n)`: c is listed exactly when the alphabet has c and `check(base(n) + c) = n`. |
| TailStore.Put | lib/trie.js:107 | The array assignment `tail[d] = c`: cell d reads c and every other cell keeps its value. Past the end the array grows, with holes in between. |
| TailStore.CopyEffect | lib/trie.js:106-112 | The copy loop writes the run of the source, up to and including the first `#`, at d, d+1, .... Every other cell is kept. The counter left is the run's length, one less when the run closed on `#`. |
| TailStore.CopyLiveIsSnapshot | lib/trie.js:106-112 | Copying the tail onto itself, reading each cell as it stands after the earlier writes, equals copying a snapshot whenever the destination index is not past the source index. |
| TailStore.WriteTail | lib/trie.js:105-117 | `writeTail` never changes `base`/`check`, never shrinks the tail, never lowers the cursor, and keeps the invariant. |
| TailStore.WriteTailEffect | lib/trie.js:105-117 | The run of `str` from `start + 1` lands at position `pos` (1-based) and every other tail cell is kept. The cursor becomes the larger of its old value and `pos` + the run's length, plus one when no `#` ended the run. |
| TailStore.WriteTailAppends | lib/trie.js:105-117 | Writing a terminated word's rest at the cursor, when the tail ends just before it, appends that rest and moves the cursor past it. |
| TailStore.TailEquals | lib/trie.js:66-77 | Starting past the end of the tail, `tailEquals` is true without comparing anything. |
| TailStore.MatchesEqualRun | lib/trie.js:67-75 | A tail run equal to the word's cells is matched, when the run closes on `#` or reaches the tail's end. |
| TailStore.TailRunShape | lib/trie.js:45-56 | `getTailString` reads the cells from pos on, up to and including the first `#` or to the tail's end. It is empty exactly when pos is past the end. |
| TailStore.TailMatchIsRunPrefix | lib/trie.js:66-77 | The comparison loop succeeds exactly when every cell of the run that `getTailString` would read equals the word cell at the same offset. It fails at the first differing cell. |
| TailStore.TailEqualsIsRunPrefix | lib/trie.js:45-77 | `tailEquals(start, chars, p)` holds exactly when `getTailString(start)` matches `chars` from p, cell by cell. |
| Operations.Walk | lib/trie.js:24-35 | A walk that ends Missing at step i found `check(base(n) + code) != n`. One that ends Stopped before the word's end is on a leaf. |
| Operations.AddLeaf | lib/trie.js:181-183 | The install of a leaf keeps the invariant and never lowers the cursor. |
| Operations.Insert | lib/trie.js:169-202 | `insert` keeps the invariant and never lowers the cursor. |
| Operations.InsertTail | lib/trie.js:224-254 | `insertTail` keeps the invariant and never lowers the cursor. |
| Operations.SplitLoop | lib/trie.js:227-253 | Started past the end of the tail, the loop leaves the state alone and finishes. Every turn keeps the invariant and never lowers the cursor. |
| Operations.SplitTurn | lib/trie.js:228-252 | A tail cell or word read with no code stops the loop as Unmapped, with nothing changed. |
| Operations.Share | lib/trie.js:231-234 | A shared symbol of code c: n's base becomes the least base with that cell free, and that cell records n. No other cell changes. |
| Operations.Split | lib/trie.js:236-247 | The split at the first difference keeps the invariant and never lowers the cursor. |
| Operations.Fork | lib/trie.js:236-240 | The old leaf goes under n's new base `x_check([tc, wc])` at code tc, with base `-tempBase`, and records n. |
| Operations.RelocationTarget | lib/trie.js:131-136 | n is moved when `|findArcs(n)| + 1 < |findArcs(check(m))|`, and the owner `check(m)` otherwise. The list is the moved state's arcs. |
| Operations.Relocate | lib/trie.js:130-167 | `relocateBase` keeps the invariant and never lowers the cursor. |
| Operations.Relocated | lib/trie.js:138-162 | The move phase of `relocateBase` changes neither tail nor cursor. |
| Operations.MoveFirst | lib/trie.js:142-162 | The first j turns of the move loop keep the invariant, the tail and the cursor. |
| Operations.MoveChild | lib/trie.js:143-161 | One turn of the move loop keeps the invariant, the tail and the cursor. |
| Operations.OwnerOffset | lib/trie.js:150-157 | The grandchild search returns an offset w >= from. Below `check.length`, cell b + w records t1. Otherwise it is the exit value of the loop. |
| Operations.RemoveWalk | lib/trie.js:261-268 | The walk of `remove` stops within the word. When it breaks before the word's end, it is on a cell with a negative base, i.e. a leaf. |
| Operations.Remove | lib/trie.js:256-274 | `remove` keeps the invariant. |
| Properties.AddLeafEffect | lib/trie.js:181-183 | The leaf cell gets base `-(old pos)` and records n. No other array cell changes. The tail changes as `writeTail` of the word's rest at the old cursor. |
| Properties.InsertAtFreeSlot | lib/trie.js:177-185 | At a free cell m below n, `insert` writes exactly `base(m) = -(old pos)` and `check(m) = n`, plus the word's rest at the old cursor. It creates one new branch only. |
| Properties.InsertWhenPresent | lib/trie.js:195-197 | `insert` of a word that `contains` accepts leaves all four fields unchanged. |
| Properties.InsertAtCollision | lib/trie.js:177-179 | A word whose walk meets a cell owned by another state is inserted by `relocateBase`. After the move, the new leaf off n's new base gets base `-(old pos)` and records n. No other cell changes from the moved arrays, and the tail holds the word's rest written at the old cursor (lib/trie.js:164-166). |
| Properties.WalkIgnoresTail | lib/trie.js:24-35 | The walk reads only `base` and `check`. |
| Properties.ContainsOnTerminator | lib/trie.js:37 | A walk that steps onto a leaf by the `#` arc accepts the word whatever the tail holds. |
| Properties.SplitLoopShared | lib/trie.js:231-234 | On a shared symbol, n's base becomes `x_check([c])` and its child records n. The loop goes on from the child unless the symbol is `#`. |
| Properties.SplitEffect | lib/trie.js:236-247 | For two different codes and a state n that is not a free cell (both hold on the split branch, where n is a walked-to cell): at the first difference, n gets the least base b free for both codes. The old leaf b + tc has base `-tempBase`. The new leaf b + wc points at the cursor. Both record n. No other array cell changes. The tail holds both rewrites. |
| Properties.SplitArrays | lib/trie.js:236-245 | The array part of the split, as in SplitEffect. |
| Properties.SplitTail | lib/trie.js:241-246 | The tail part of the split: the two `writeTail` calls in order. |
| Properties.ForkEffect | lib/trie.js:236-240 | For two different codes and a state n that is not a free cell, as on the split branch: both cells off the new base are free before the fork. n takes the base and the old leaf its cell. Nothing else changes. |
| Properties.OwnerOffsetLeast | lib/trie.js:150-157 | No cell between b + from and the found offset records t1. |
| Properties.MoveChildEffect | lib/trie.js:143-161 | The new cell t2 gets t1's base and records node, unless t2 is the redirected grandchild. The first grandchild cell g found records t2. t1 is zeroed in both arrays. Nothing else changes. |
| Properties.MoveChildBases | lib/trie.js:146-160 | A turn of the move loop writes `base` at its old and new cell only. |
| Properties.MoveFirstKeepsBase | lib/trie.js:142-162 | The move loop leaves the moved state's own base alone when none of the children's cells is that state's cell. |
| Properties.RelocatedBase | lib/trie.js:138-162 | After the move loop, the moved state has the base `x_check` found for its children's codes, when no child's old or new cell is its own. |
| Properties.RelocateNewLeaf | lib/trie.js:163-166 | `relocateBase` ends with the new leaf off n's base after the move: base `-(old pos)`, recording n, with the word's rest at the old cursor. No other cell changes. |
| Properties.RemoveEffect | lib/trie.js:256-274 | `remove` changes only `base(m)` and `check(m)` of the last walked cell m, setting both to 0. It does so only when the word ends on `#` there or its rest equals the stored suffix. Tail and cursor never change. |
| Properties.RemoveWalkIgnoresCheck | lib/trie.js:261-268 | The walk of `remove` is the same whatever `check` holds. |
| DoubleArrayTrie.CopySuffix | lib/trie.js:106-112 | The loop of `writeTail` computes the cells and the counter of the specification's copy. |
| DoubleArrayTrie.Trie.constructor | lib/trie.js:4-11 | A new trie has base `[1]`, check `[0]`, an empty tail and cursor 1, and satisfies the invariant. |
| DoubleArrayTrie.Trie.GetBase | lib/trie.js:204-206 | Reads `base` at a 1-based position. An unset cell reads 0. |
| DoubleArrayTrie.Trie.GetCheck | lib/trie.js:208-210 | Reads `check` at a 1-based position. An unset cell reads 0. |
| DoubleArrayTrie.Trie.SetBase | lib/trie.js:212-214 | The new state is the specification's `setBase`. |
| DoubleArrayTrie.Trie.SetCheck | lib/trie.js:216-218 | The new state is the specification's `setCheck`, including the array's growth. |
| DoubleArrayTrie.Trie.GetCharCode | lib/trie.js:220-222 | A code exists exactly for a mapped symbol, and it is positive. |
| DoubleArrayTrie.Trie.XCheck | lib/trie.js:79-98 | The nested loops return the least base q >= 1 at which every code lands on an unused cell. |
| DoubleArrayTrie.Trie.WriteTail | lib/trie.js:105-117 | The new state is the specification's `writeTail`. |
| DoubleArrayTrie.Trie.FindArcs | lib/trie.js:119-128 | The loop over the alphabet returns the specification's arc list. |
| DoubleArrayTrie.Trie.TailEquals | lib/trie.js:66-77 | The loop returns the specification's comparison. |
| DoubleArrayTrie.Trie.GetTailString | lib/trie.js:45-56 | The loop returns the stored run at the position. |
| DoubleArrayTrie.Trie.Contains | lib/trie.js:19-38 | The walk, then the `#` test or the tail comparison. The answer is the specification's, and the state is not changed. |
| DoubleArrayTrie.Trie.Insert | lib/trie.js:169-202 | The loop and its branches leave the specification's state and status. |
| DoubleArrayTrie.Trie.InsertAtLeaf | lib/trie.js:195-201 | The part of `insert` after a walk that stopped on a leaf. |
| DoubleArrayTrie.Trie.AddLeaf | lib/trie.js:181-183 | The install of a leaf (also lib/trie.js:164-166 and 244-246). |
| DoubleArrayTrie.Trie.InsertTail | lib/trie.js:224-254 | The loop leaves the specification's state and status. |
| DoubleArrayTrie.Trie.SplitStep | lib/trie.js:228-252 | One turn of the loop: it stops with the specification's result, or goes on from the returned child with the tail unchanged. |
| DoubleArrayTrie.Trie.ShareSymbol | lib/trie.js:232-234 | The shared-symbol step, returning the child. |
| DoubleArrayTrie.Trie.Split | lib/trie.js:236-247 | The split at the first difference. |
| DoubleArrayTrie.Trie.Fork | lib/trie.js:236-240 | The first stage of the split. |
| DoubleArrayTrie.Trie.RelocateBase | lib/trie.js:130-167 | The new state is the specification's `relocateBase`. |
| DoubleArrayTrie.Trie.MoveNode | lib/trie.js:131-162 | The choice of the moved state, its new base and the move loop. |
| DoubleArrayTrie.Trie.MoveArcs | lib/trie.js:142-162 | The move loop over the list of children. |
| DoubleArrayTrie.Trie.MoveChild | lib/trie.js:143-161 | One turn of the move loop. |
| DoubleArrayTrie.Trie.FindOwnerOffset | lib/trie.js:150-157 | The inner search loop returns the specification's offset. |
| DoubleArrayTrie.Trie.Remove | lib/trie.js:256-274 | The walk without `check`, then the clearing. The new state is the specification's. |
| Fixtures.InitialArrays | test/trie-test.js:39-44 | A new trie's arrays read `[1]` and `[0]`, with an empty tail and the cursor at 1. |
| Fixtures.WriteTailSimple | test/trie-test.js:189-194 | `writeTail(hello#, 1, 0)` on a new trie gives tail `ello#` and cursor 6. |
| Fixtures.WriteTailSameAgain | test/trie-test.js:196-202 | Writing `hello#` again at 1 changes nothing; the cursor stays 6. |
| Fixtures.WriteTailTwo | test/trie-test.js:204-210 | `world#` at the cursor then gives `ello#orld#` and cursor 11. |
| Fixtures.WriteTailOverItself | test/trie-test.js:212-218 | The tail written over itself from position 1 gives `llo##`, with cursor 6. |
| Fixtures.WriteTailOverItselfLive | test/trie-test.js:212-218 | That in-place copy equals the snapshot copy. |
| Fixtures.WriteTailOverItselfMidTail | test/trie-test.js:220-228 | The tail written over itself at position 6 gives `ello#rld##`, with cursor 11. |
| Fixtures.WriteTailOverItselfMidTailLive | test/trie-test.js:220-228 | That in-place copy equals the snapshot copy. |
| Fixtures.InsertCase1 | test/trie-test.js:74-84 | `bachelor#` into a new trie gives base `[1, , , -1]`, check `[0, , , 1]`, tail `achelor#` and cursor 9. |
| Fixtures.InsertCase2 | test/trie-test.js:95-106 | `jar#` next gives `base(12) = -9`, `check(12) = 1`, tail `achelor#ar#` and cursor 12. |
| Fixtures.InsertCase3 | test/trie-test.js:117-129 | `badge#` next gives base `[1, , 1, 1, -1, -12, …, -9]` and check `[0, , 4, 1, 3, 3, …, 1]`, with tail `helor#r#ar#ge#` and cursor 15. |
| Fixtures.InsertCase4 | test/trie-test.js:140-153 | `baby#` next relocates the root. The result is base `[4, , 1, -15, -1, -12, 1, …, 0, , , -9]` and check `[0, , 7, 3, 3, 3, 1, …, 0, , , 1]`, with tail `…y#` and cursor 17. |
| Lookups.ContainsBachelor | test/trie-test.js:55 | `contains(bachelor#)` is true on the lookup arrays. |
| Lookups.ContainsJar | test/trie-test.js:56 | `contains(jar#)` is true. |
| Lookups.ContainsBadge | test/trie-test.js:57 | `contains(badge#)` is true. |
| Lookups.ContainsBaby | test/trie-test.js:58 | `contains(baby#)` is true. |
| Lookups.ContainsNotExample | test/trie-test.js:62 | `contains(example#)` is false. |
| Lookups.ContainsNotTest | test/trie-test.js:63 | `contains(test#)` is false. |
| Lookups.ContainsNotBack | test/trie-test.js:67 | `contains(back#)` is false: the stored suffix differs. |
| Lookups.ContainsNotJaded | test/trie-test.js:68 | `contains(jaded#)` is false: the stored suffix differs. |
| Lookups.ContainsNotBac | test/trie-test.js:69 | `contains(bac#)` is false: the word is shorter than the stored suffix. |
| Lookups.ContainsNotBa | test/trie-test.js:70 | `contains(ba#)` is false. |
| Lookups.InsertAgainCase1 | test/trie-test.js:86-92 | Inserting `bachelor#` again leaves the state of case 1 unchanged. |
| Lookups.InsertAgainCase2 | test/trie-test.js:108-114 | Inserting `jar#` again leaves the state of case 2 unchanged. |
| Lookups.InsertAgainCase3 | test/trie-test.js:131-137 | Inserting `badge#` again leaves the state of case 3 unchanged. |
| Lookups.InsertAgainCase4 | test/trie-test.js:155-161 | Inserting `baby#` again leaves the state of case 4 unchanged. |

## Left out

- `toString` (lib/trie.js:276-283): debug output through `JSON.stringify`, a foreign call.
- `word.split('')`: words are taken directly as sequences of symbols.
- The alphabet object: it is a sequence of (symbol, code) pairs, listed in the order
  `for … in` visits the object. `WellFormed` asks for codes >= 1 and no symbol listed twice,
  which the source takes for granted.
- Unmapped symbols in a word: `contains`, `insert` and `remove` require every symbol of the
  word to be in the alphabet. The source would go on with NaN offsets.
- Operations.SplitTurn: in `insertTail`, a tail hole or a read past the word has no code,
  because `getCharCode` gives `undefined`. The model stops there with status `Unmapped` and
  leaves the state as it was. The source does not stop: it writes real cells.
  - When exactly one of the two codes is undefined, the codes differ and the split branch
    runs. `x_check` reads the undefined code's cell at the index NaN, which is free while
    nothing is stored under that key. So `base(n)` becomes the least base free for the
    defined code. The leaf of the missing code is stored under the key NaN. The old suffix
    is rewritten at tempBase, the other leaf is installed at its real cell, and the cursor
    moves.
  - When both codes are undefined, `undefined === undefined` takes the shared branch. n
    gets base 1, `check` is written under NaN, and the loop goes on from state NaN.
  - Tail holes come from the `i + j` offset kept as written at lib/trie.js:246. When
    `i + j + 1` is already past the word, `writeTail` writes nothing but still moves the
    cursor one cell on, which leaves an unwritten cell in the tail. A later `insertTail`
    at that leaf reaches the hole.
- `null` and `undefined`: both are `None`. The source's strict comparison tells them
  apart, which only matters when a `null` tail cell is compared with a read past the word.
  No fixture reaches such a comparison.
- Explicit zeros and holes: the lookup arrays of test/trie-test.js:48-49 have explicit
  zeros where the model has unset cells. This changes no read, because an unset cell reads
  0.
- DoubleArrayTrie.Trie.WriteTail: `str` is passed by value. When `insertTail` passes
  `this.tail` itself, the source's loop reads cells it has already overwritten.
  TailStore.CopyLiveIsSnapshot proves the two agree whenever the destination index is not
  past the source index. That holds at `insertTail`'s call, since `j >= tempBase - 1`.
- Global correctness is not claimed. This covers "every inserted word is contained
  afterwards" and "no two states share a cell". The source does not guarantee them,
  because of the behaviours kept as written above.
- The run of nine inserts followed by nine lookups (test/trie-test.js:164-185) is not
  proved as a fixture. Its intermediate states go through several relocations and splits
  that each would need a proof of their own. Only the four insert cases and the lookups on
  the fixed arrays are proved.
- Properties.RelocatedBase: the moved state's new base is stated only for the case where
  none of its children's old or new cells is its own cell. Otherwise the move loop may
  overwrite it, and the model gives the overwritten value without a separate statement.
