/** The walking operations of the trie as functions of the state: `contains`, `insert`
    (a direct install, or a branch by `insertTail` or `relocateBase`) and `remove`. */
module Operations {
  import opened Alphabet
  import opened DoubleArray
  import opened TailStore
  import opened Slots

  /** How an update ended: Unmapped when `insertTail` read a tail cell or a word position
      that has no code (an unset cell, or a read past the word), where the source goes on
      with NaN offsets. */
  datatype Status = Finished | Unmapped

  /** Where the walk of a word through the arrays ends. */
  datatype WalkEnd =
      /** at step i the cell m = base(n) + code is not owned by n */
    | Missing(n: int, m: int, i: nat)
      /** at step i < |w| the owned cell m is a leaf (negative base), or the word ran out
          (i = |w|) with m the last cell stepped onto */
    | Stopped(m: int, i: nat)

  /** The loop shared by `contains` and `insert`, from step i at state n, m being the cell
      reached last. */
  function Walk(ab: Alphabet, s: Store, w: seq<char>, i: nat, n: int, m: int): (e: WalkEnd)
    requires IsWord(ab, w) && i <= |w|
    ensures e.Missing? ==> i <= e.i < |w| && e.m == Base(s, e.n) + CodeAt(ab, w, e.i) && Check(s, e.m) != e.n
    ensures e.Stopped? ==> i <= e.i <= |w| && (e.i < |w| ==> Base(s, e.m) < 0)
    decreases |w| - i
  {
    if i == |w| then Stopped(m, i)
    else
      var m' := Base(s, n) + CodeAt(ab, w, i);
      if Check(s, m') != n then Missing(n, m', i)
      else if Base(s, m') < 0 then Stopped(m', i)
      else Walk(ab, s, w, i + 1, m', m')
  }

  /** The walk from the root, state 1; the last cell starts as `null`, which the source's
      arithmetic reads as position 0. */
  function WalkFromRoot(ab: Alphabet, s: Store, w: seq<char>): WalkEnd
    requires IsWord(ab, w)
  {
    Walk(ab, s, w, 0, 1, 0)
  }

  /** The test after a walk that stopped at cell m, step i: the word ended on the terminator
      arc, or what is left of it equals the suffix stored for m. */
  predicate Found(s: Store, w: seq<char>, m: int, i: nat)
  {
    (i < |w| && w[i] == Terminator) || TailEquals(s.tail, -Base(s, m), w, i + 1)
  }

  /** `contains(word)` */
  function Contains(ab: Alphabet, s: Store, w: seq<char>): bool
    requires IsWord(ab, w)
  {
    match WalkFromRoot(ab, s, w)
    case Missing(_, _, _) => false
    case Stopped(m, i) => Found(s, w, m, i)
  }

  /** A new leaf at cell p below n: its base points at the cursor, where the rest of the
      word (after index i) is written. */
  function AddLeaf(s: Store, n: int, p: int, w: seq<char>, i: int): (r: Store)
    requires Valid(s)
    ensures Valid(r) && r.pos >= s.pos
  {
    WriteTail(SetCheck(SetBase(s, p, -s.pos), p, n), Cells(w), s.pos, i)
  }

  /** `insert(word)` */
  function Insert(ab: Alphabet, s: Store, w: seq<char>): (r: (Store, Status))
    requires WellFormed(ab) && Valid(s) && IsWord(ab, w)
    ensures Valid(r.0) && r.0.pos >= s.pos
  {
    match WalkFromRoot(ab, s, w)
    case Missing(n, m, i) =>
      if Check(s, m) != 0 then (Relocate(ab, s, n, m, w, i), Finished)
      else (AddLeaf(s, n, m, w, i), Finished)
    case Stopped(m, i) =>
      if Found(s, w, m, i) then (s, Finished)
      else if Base(s, m) != 0 then InsertTail(ab, s, m, -Base(s, m), w, i + 1)
      else (s, Finished)
  }

  /** Insert after a walk that found no owned cell m at step i. */
  lemma InsertWhenMissing(ab: Alphabet, s: Store, w: seq<char>, n: int, m: int, i: nat)
    requires WellFormed(ab) && Valid(s) && IsWord(ab, w)
    requires WalkFromRoot(ab, s, w) == Missing(n, m, i)
    ensures Insert(ab, s, w) ==
              if Check(s, m) != 0 then (Relocate(ab, s, n, m, w, i), Finished)
              else (AddLeaf(s, n, m, w, i), Finished)
  {
  }

  /** Insert after a walk that stopped at cell m, step i. */
  lemma InsertWhenStopped(ab: Alphabet, s: Store, w: seq<char>, m: int, i: nat)
    requires WellFormed(ab) && Valid(s) && IsWord(ab, w)
    requires WalkFromRoot(ab, s, w) == Stopped(m, i)
    ensures Insert(ab, s, w) ==
              if Found(s, w, m, i) then (s, Finished)
              else if Base(s, m) != 0 then InsertTail(ab, s, m, -Base(s, m), w, i + 1)
              else (s, Finished)
  {
  }

  /** `insertTail(n, tailPos, chars, i)`: n is the leaf whose stored suffix starts at tailPos. */
  function InsertTail(ab: Alphabet, s: Store, n: int, tailPos: int, w: seq<char>, i: int): (r: (Store, Status))
    requires WellFormed(ab) && Valid(s) && tailPos == -Base(s, n)
    ensures Valid(r.0) && r.0.pos >= s.pos
  {
    SplitLoop(ab, s, n, tailPos, w, i, tailPos - 1, 0)
  }

  /** The loop of insertTail at tail index j, word offset k, current state n; tempBase is the
      old leaf's tail position, captured before the loop. */
  function SplitLoop(ab: Alphabet, s: Store, n: int, tempBase: int, w: seq<char>, i: int, j: int, k: int)
    : (r: (Store, Status))
    requires WellFormed(ab) && Valid(s)
    requires tempBase - 1 <= j && (tempBase >= 1 || j < 0)
    ensures j >= |s.tail| ==> r == (s, Finished)
    ensures Valid(r.0) && r.0.pos >= s.pos
    decreases |s.tail| - j, 1
  {
    if j >= |s.tail| then (s, Finished)
    else SplitTurn(ab, s, n, tempBase, w, i, j, k)
  }

  /** One turn of insertTail's loop, at tail index j and word index i + k. A symbol with no
      code stops it as Unmapped with nothing changed; a shared symbol makes n a state with one
      child, where the loop goes on unless the symbol was the terminator; a difference ends
      it with the split. */
  function SplitTurn(ab: Alphabet, s: Store, n: int, tempBase: int, w: seq<char>, i: int, j: int, k: int)
    : (r: (Store, Status))
    requires WellFormed(ab) && Valid(s)
    requires tempBase - 1 <= j < |s.tail| && (tempBase >= 1 || j < 0)
    ensures CellCode(ab, CellAt(s.tail, j)).None? || CellCode(ab, WordAt(w, i + k)).None? ==>
              r == (s, Unmapped)
    ensures Valid(r.0) && r.0.pos >= s.pos
    decreases |s.tail| - j, 0
  {
    var tc := CellCode(ab, CellAt(s.tail, j));
    var wc := CellCode(ab, WordAt(w, i + k));
    if tc.None? || wc.None? then (s, Unmapped)
    else if tc.value == wc.value then
      var s2 := Share(s, n, tc.value);
      if CellAt(s.tail, j) == Some(Terminator) then (s2, Finished)
      else SplitLoop(ab, s2, Base(s2, n) + tc.value, tempBase, w, i, j + 1, k + 1)
    else (Split(s, n, tempBase, w, i, j, tc.value, wc.value), Finished)
  }

  /** The step of insertTail for a shared symbol of code c: n becomes a state with the one
      child base(n) + c, its base being the least with that cell unused; nothing else changes. */
  function Share(s: Store, n: int, c: int): (r: Store)
    requires Valid(s) && c >= 1
    ensures Valid(r) && r.tail == s.tail && r.pos == s.pos
    ensures Base(r, n) == XCheck(s, [c]) && Check(s, Base(r, n) + c) == 0
    ensures Check(r, Base(r, n) + c) == n
    ensures forall p {:trigger Base(r, p)} :: p != n ==> Base(r, p) == Base(s, p)
    ensures forall p {:trigger Check(r, p)} :: p != Base(r, n) + c ==> Check(r, p) == Check(s, p)
  {
    var s1 := SetBase(s, n, XCheck(s, [c]));
    assert Free(s, [c], XCheck(s, [c])) && [c][0] == c;
    SetCheck(s1, Base(s1, n) + c, n)
  }

  /** The branch of insertTail at the first difference: n gets a base for both codes, the old
      leaf keeps position tempBase, where the rest of its suffix (after index j) is rewritten
      in place, and the new leaf points at the cursor, where the word from i + j on goes. */
  function Split(s: Store, n: int, tempBase: int, w: seq<char>, i: int, j: int, tc: int, wc: int): (r: Store)
    requires Valid(s) && tc >= 1 && wc >= 1 && tempBase >= 1
    ensures Valid(r) && r.pos >= s.pos
  {
    SplitSteps(s, n, tempBase, w, i, j, tc, wc, 2)
  }

  /** The split in its three stages, `left` being the number of stages still to do: the new
      base of n with the old leaf under it, the rewrite of the old suffix, the new leaf.
      (The measure carries n along so that a call with a literal stage count is unfolded
      one stage at a time.) */
  function SplitSteps(s: Store, n: int, tempBase: int, w: seq<char>, i: int, j: int, tc: int, wc: int, left: nat)
    : (r: Store)
    requires Valid(s) && tc >= 1 && wc >= 1 && tempBase >= 1
    ensures Valid(r) && r.pos >= s.pos
    decreases left, n
  {
    if left == 2 then SplitSteps(Fork(s, n, tempBase, tc, wc), n, tempBase, w, i, j, tc, wc, 1)
    else if left == 1 then
      SplitSteps(WriteTail(s, s.tail, tempBase, j), n, tempBase, w, i, j, tc, wc, 0)
    else AddLeaf(s, n, Base(s, n) + wc, w, i + j)
  }

  /** The first stage of the split: n gets the least base for both codes, and the old leaf,
      pointing at tail position tempBase, goes under it at code tc. */
  function Fork(s: Store, n: int, tempBase: int, tc: int, wc: int): (r: Store)
    requires Valid(s) && tc >= 1 && wc >= 1
    ensures Valid(r) && r.tail == s.tail && r.pos == s.pos
    ensures var b := XCheck(s, [tc, wc]);
            && Base(r, b + tc) == -tempBase && Check(r, b + tc) == n
            && (b + tc != n ==> Base(r, n) == b)
  {
    var s1 := SetBase(s, n, XCheck(s, [tc, wc]));
    var q := Base(s1, n) + tc;
    SetCheck(SetBase(s1, q, -tempBase), q, n)
  }

  /** The side relocateBase moves: n when n with its new arc still has fewer arcs than the
      owner of m, and the owner otherwise; with the codes of the moved state's children. */
  function RelocationTarget(ab: Alphabet, s: Store, n: int, m: int): (r: (int, seq<int>))
    requires WellFormed(ab)
    ensures r.0 == n || r.0 == Check(s, m)
    ensures r.0 == n <== |Arcs(ab, s, n)| + 1 < |Arcs(ab, s, Check(s, m))|
    ensures r.0 == Check(s, m) <== |Arcs(ab, s, n)| + 1 >= |Arcs(ab, s, Check(s, m))|
    ensures r.1 == Arcs(ab, s, r.0) && Positive(r.1)
  {
    var listA := Arcs(ab, s, n);
    var listB := Arcs(ab, s, Check(s, m));
    var node := if |listA| + 1 < |listB| then n else Check(s, m);
    var list := if |listA| + 1 < |listB| then listA else listB;
    (node, list)
  }

  /** `relocateBase(n, m, chars, i)`: the moved state gets the least free base for its
      children's codes, its children move there, and the new leaf goes below n. */
  function Relocate(ab: Alphabet, s: Store, n: int, m: int, w: seq<char>, i: nat): (r: Store)
    requires WellFormed(ab) && Valid(s) && IsWord(ab, w) && i < |w|
    ensures Valid(r) && r.pos >= s.pos
  {
    var s2 := Relocated(ab, s, n, m);
    AddLeaf(s2, n, Base(s2, n) + CodeAt(ab, w, i), w, i)
  }

  /** The state after relocateBase has moved a state's children, before the new leaf. */
  function Relocated(ab: Alphabet, s: Store, n: int, m: int): (r: Store)
    requires WellFormed(ab) && Valid(s)
    ensures Valid(r) && r.tail == s.tail && r.pos == s.pos
  {
    var (node, list) := RelocationTarget(ab, s, n, m);
    MoveFirst(SetBase(s, node, XCheck(s, list)), node, Base(s, node), list, |list|)
  }

  /** The loop of relocateBase after its first j turns: child j - 1 moves from its cell
      off the old base oldBase to its cell off node's current base. */
  function MoveFirst(s: Store, node: int, oldBase: int, list: seq<int>, j: nat): (r: Store)
    requires Valid(s) && j <= |list|
    ensures Valid(r) && r.tail == s.tail && r.pos == s.pos
  {
    if j == 0 then s
    else
      var p := MoveFirst(s, node, oldBase, list, j - 1);
      MoveChild(p, node, oldBase + list[j - 1], Base(p, node) + list[j - 1])
  }

  /** One child moved from cell t1 to cell t2: the base is copied and t2 records node; for a
      child with children of its own, the first cell found at offset w >= node recording t1 is
      made to record t2 instead; then t1 is cleared. */
  function MoveChild(s: Store, node: int, t1: int, t2: int): (r: Store)
    requires Valid(s)
    ensures Valid(r) && r.tail == s.tail && r.pos == s.pos
  {
    MoveSteps(s, node, t1, t2, 2)
  }

  /** The last `left` of the three steps of a move: 2 copies t1's base to t2 and makes t2
      record node; 1 redirects the first grandchild found, when t1 has a positive base; 0
      clears t1. (The measure carries node along so that a call with a literal step count is
      unfolded one step at a time.) */
  function MoveSteps(s: Store, node: int, t1: int, t2: int, left: nat): (r: Store)
    requires Valid(s)
    ensures Valid(r) && r.tail == s.tail && r.pos == s.pos
    decreases left, node
  {
    if left == 2 then MoveSteps(SetCheck(SetBase(s, t2, Base(s, t1)), t2, node), node, t1, t2, 1)
    else if left == 1 then
      var b := Base(s, t1);
      MoveSteps(if b > 0 then SetCheck(s, b + OwnerOffset(s, b, t1, node), t2) else s, node, t1, t2, 0)
    else SetCheck(SetBase(s, t1, 0), t1, 0)
  }

  /** The inner search of relocateBase: the least offset w from `from` on, below the length of
      `check`, at which cell b + w records t1; when there is none, the loop's exit value. */
  function OwnerOffset(s: Store, b: int, t1: int, from: int): (w: int)
    ensures w >= from
    ensures w < s.checkLen ==> Check(s, b + w) == t1
    ensures w >= s.checkLen ==> w == from || w == s.checkLen
    decreases s.checkLen - from
  {
    if from >= s.checkLen then from
    else if Check(s, b + from) == t1 then from
    else OwnerOffset(s, b, t1, from + 1)
  }

  /** The loop of `remove`, which follows base values without consulting `check`. */
  function RemoveWalk(ab: Alphabet, s: Store, w: seq<char>, i: nat, n: int, m: int): (r: (int, nat))
    requires IsWord(ab, w) && i <= |w|
    ensures i <= r.1 <= |w|
    ensures r.1 < |w| ==> Base(s, r.0) < 0
    decreases |w| - i
  {
    if i == |w| then (m, i)
    else
      var m' := Base(s, n) + CodeAt(ab, w, i);
      if Base(s, m') < 0 then (m', i) else RemoveWalk(ab, s, w, i + 1, m', m')
  }

  /** `remove(word)` */
  function Remove(ab: Alphabet, s: Store, w: seq<char>): (r: Store)
    requires Valid(s) && IsWord(ab, w)
    ensures Valid(r)
  {
    var (m, i) := RemoveWalk(ab, s, w, 0, 1, 0);
    if Found(s, w, m, i) then SetCheck(SetBase(s, m, 0), m, 0) else s
  }
}
