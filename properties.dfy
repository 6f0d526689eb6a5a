/** What the operations of lib/trie.js do to the state, stated cell by cell: the local
    contracts of insert, insertTail, relocateBase and remove, and what contains and remove
    read. */
module Properties {
  import opened Alphabet
  import opened DoubleArray
  import opened TailStore
  import opened Slots
  import opened Operations

  /** The install of a leaf at cell p below n writes base(p) = -(old cursor) and check(p) = n,
      leaves every other cell of the arrays alone, and changes the tail as writeTail of the
      word's rest at the old cursor does. */
  lemma AddLeafEffect(s: Store, n: int, p: int, w: seq<char>, i: int)
    requires Valid(s)
    ensures var r := AddLeaf(s, n, p, w, i);
            var t := WriteTail(s, Cells(w), s.pos, i);
            && Base(r, p) == -s.pos && Check(r, p) == n
            && (forall q :: q != p ==> Base(r, q) == Base(s, q) && Check(r, q) == Check(s, q))
            && r.tail == t.tail && r.pos == t.pos
  {
  }

  /** insert on a word whose walk meets a free cell m (check(m) = 0) below n installs the new
      leaf there and does nothing else. */
  lemma InsertAtFreeSlot(ab: Alphabet, s: Store, w: seq<char>, n: int, m: int, i: nat)
    requires WellFormed(ab) && Valid(s) && IsWord(ab, w)
    requires WalkFromRoot(ab, s, w) == Missing(n, m, i) && Check(s, m) == 0
    ensures Insert(ab, s, w) == (AddLeaf(s, n, m, w, i), Finished)
    ensures var (r, status) := Insert(ab, s, w);
            var t := WriteTail(s, Cells(w), s.pos, i);
            && status == Finished
            && m == Base(s, n) + CodeAt(ab, w, i)
            && Base(r, m) == -s.pos && Check(r, m) == n
            && (forall q :: q != m ==> Base(r, q) == Base(s, q) && Check(r, q) == Check(s, q))
            && r.tail == t.tail && r.pos == t.pos
  {
    InsertWhenMissing(ab, s, w, n, m, i);
    AddLeafEffect(s, n, m, w, i);
  }

  /** insert leaves the state as it is for a word that contains accepts. */
  lemma InsertWhenPresent(ab: Alphabet, s: Store, w: seq<char>)
    requires WellFormed(ab) && Valid(s) && IsWord(ab, w) && Contains(ab, s, w)
    ensures Insert(ab, s, w) == (s, Finished)
  {
  }

  /** insert of a word that stops on a leaf whose stored suffix differs goes on to insertTail
      at that leaf, with the suffix's tail position and the word's next index. */
  lemma InsertAtLeaf(ab: Alphabet, s: Store, w: seq<char>, m: int, i: nat)
    requires WellFormed(ab) && Valid(s) && IsWord(ab, w)
    requires WalkFromRoot(ab, s, w) == Stopped(m, i) && !Found(s, w, m, i) && Base(s, m) < 0
    ensures Insert(ab, s, w) == InsertTail(ab, s, m, -Base(s, m), w, i + 1)
  {
    InsertWhenStopped(ab, s, w, m, i);
  }

  /** insert of a word whose walk meets a cell owned by another state relocates: after n is
      moved, the new leaf off n's new base points at the cursor, no other cell of the moved
      arrays changes, and the word's rest is written at the cursor. */
  lemma InsertAtCollision(ab: Alphabet, s: Store, w: seq<char>, n: int, m: int, i: nat)
    requires WellFormed(ab) && Valid(s) && IsWord(ab, w)
    requires WalkFromRoot(ab, s, w) == Missing(n, m, i) && Check(s, m) != 0
    ensures i < |w| && Insert(ab, s, w) == (Relocate(ab, s, n, m, w, i), Finished)
    ensures var s2 := Relocated(ab, s, n, m);
            var p := Base(s2, n) + CodeAt(ab, w, i);
            var t := WriteTail(s, Cells(w), s.pos, i);
            var r := Insert(ab, s, w).0;
            && Base(r, p) == -s.pos && Check(r, p) == n
            && (forall q :: q != p ==> Base(r, q) == Base(s2, q) && Check(r, q) == Check(s2, q))
            && r.tail == t.tail && r.pos == t.pos
  {
    InsertWhenMissing(ab, s, w, n, m, i);
    RelocateNewLeaf(ab, s, n, m, w, i);
  }

  /** The walk reads base and check only. */
  lemma {:induction false} WalkIgnoresTail(ab: Alphabet, s: Store, t: seq<Cell>, w: seq<char>, i: nat, n: int, m: int)
    requires IsWord(ab, w) && i <= |w|
    ensures Walk(ab, s.(tail := t), w, i, n, m) == Walk(ab, s, w, i, n, m)
    decreases |w| - i
  {
    if i < |w| {
      var s' := s.(tail := t);
      var m' := Base(s, n) + CodeAt(ab, w, i);
      assert Base(s', n) == Base(s, n) && Base(s', m') == Base(s, m') && Check(s', m') == Check(s, m');
      if Check(s, m') == n && Base(s, m') >= 0 {
        WalkIgnoresTail(ab, s, t, w, i + 1, m', m');
      }
    }
  }

  /** A walk that steps onto a leaf by the terminator's arc accepts the word whatever the tail holds. */
  lemma ContainsOnTerminator(ab: Alphabet, s: Store, t: seq<Cell>, w: seq<char>, m: int, i: nat)
    requires IsWord(ab, w) && WalkFromRoot(ab, s, w) == Stopped(m, i)
    requires i < |w| && w[i] == Terminator
    ensures Contains(ab, s, w) && Contains(ab, s.(tail := t), w)
  {
    WalkIgnoresTail(ab, s, t, w, 0, 1, 0);
  }

  /** A turn of insertTail's loop on a shared symbol of code c: n becomes a state with the one
      child base(n) + c, where the loop goes on unless the symbol is the terminator. */
  lemma SplitLoopShared(ab: Alphabet, s: Store, n: int, tempBase: int, w: seq<char>, i: int, j: int, k: int)
    requires WellFormed(ab) && Valid(s) && tempBase - 1 <= j < |s.tail| && (tempBase >= 1 || j < 0)
    requires CellCode(ab, CellAt(s.tail, j)).Some?
    requires CellCode(ab, CellAt(s.tail, j)) == CellCode(ab, WordAt(w, i + k))
    ensures var c := CellCode(ab, CellAt(s.tail, j)).value;
            var s2 := Share(s, n, c);
            && Base(s2, n) == XCheck(s, [c]) && Check(s2, Base(s2, n) + c) == n
            && SplitLoop(ab, s, n, tempBase, w, i, j, k) ==
                 if CellAt(s.tail, j) == Some(Terminator) then (s2, Finished)
                 else SplitLoop(ab, s2, Base(s2, n) + c, tempBase, w, i, j + 1, k + 1)
  {
  }

  /** A turn of insertTail's loop on two different codes ends it with the split. */
  lemma SplitLoopDiffers(ab: Alphabet, s: Store, n: int, tempBase: int, w: seq<char>, i: int, j: int, k: int)
    requires WellFormed(ab) && Valid(s) && tempBase - 1 <= j < |s.tail| && (tempBase >= 1 || j < 0)
    requires CellCode(ab, CellAt(s.tail, j)).Some? && CellCode(ab, WordAt(w, i + k)).Some?
    requires CellCode(ab, CellAt(s.tail, j)) != CellCode(ab, WordAt(w, i + k))
    ensures tempBase >= 1
    ensures SplitLoop(ab, s, n, tempBase, w, i, j, k) ==
              (Split(s, n, tempBase, w, i, j, CellCode(ab, CellAt(s.tail, j)).value,
                     CellCode(ab, WordAt(w, i + k)).value), Finished)
  {
  }

  /** The split as its three stages: the fork, the in-place rewrite of the old suffix after
      index j at tempBase, and the new leaf off n's new base for the word's rest after i + j. */
  lemma SplitStages(s: Store, n: int, tempBase: int, w: seq<char>, i: int, j: int, tc: int, wc: int)
    requires Valid(s) && tc >= 1 && wc >= 1 && tempBase >= 1
    ensures var f := Fork(s, n, tempBase, tc, wc);
            var t1 := WriteTail(f, f.tail, tempBase, j);
            Split(s, n, tempBase, w, i, j, tc, wc) == AddLeaf(t1, n, Base(t1, n) + wc, w, i + j)
  {
    var f := Fork(s, n, tempBase, tc, wc);
    var t1 := WriteTail(f, f.tail, tempBase, j);
    assert Split(s, n, tempBase, w, i, j, tc, wc) == SplitSteps(f, n, tempBase, w, i, j, tc, wc, 1);
    assert SplitSteps(f, n, tempBase, w, i, j, tc, wc, 1) == SplitSteps(t1, n, tempBase, w, i, j, tc, wc, 0);
  }

  /** The split at the first difference, for a state n that is not a free cell: n gets the
      least base b for both codes, the old leaf b + tc keeps tail position tempBase, the new
      leaf b + wc points at the cursor left by the in-place rewrite, and no other cell of
      the arrays changes. */
  lemma SplitEffect(s: Store, n: int, tempBase: int, w: seq<char>, i: int, j: int, tc: int, wc: int)
    requires Valid(s) && tc >= 1 && wc >= 1 && tc != wc && tempBase >= 1 && Check(s, n) != 0
    ensures var b := XCheck(s, [tc, wc]);
            var f := Fork(s, n, tempBase, tc, wc);
            var t1 := WriteTail(f, f.tail, tempBase, j);
            var t2 := WriteTail(t1, Cells(w), t1.pos, i + j);
            var r := Split(s, n, tempBase, w, i, j, tc, wc);
            && Check(s, b + tc) == 0 && Check(s, b + wc) == 0
            && Base(r, n) == b
            && Base(r, b + tc) == -tempBase && Check(r, b + tc) == n
            && Base(r, b + wc) == -t1.pos && Check(r, b + wc) == n
            && (forall q :: q != n && q != b + tc && q != b + wc ==> Base(r, q) == Base(s, q))
            && (forall q :: q != b + tc && q != b + wc ==> Check(r, q) == Check(s, q))
            && r.tail == t2.tail && r.pos == t2.pos
  {
    SplitArrays(s, n, tempBase, w, i, j, tc, wc);
    SplitTail(s, n, tempBase, w, i, j, tc, wc);
  }

  lemma SplitArrays(s: Store, n: int, tempBase: int, w: seq<char>, i: int, j: int, tc: int, wc: int)
    requires Valid(s) && tc >= 1 && wc >= 1 && tc != wc && tempBase >= 1 && Check(s, n) != 0
    ensures var b := XCheck(s, [tc, wc]);
            var f := Fork(s, n, tempBase, tc, wc);
            var t1 := WriteTail(f, f.tail, tempBase, j);
            var r := Split(s, n, tempBase, w, i, j, tc, wc);
            && Check(s, b + tc) == 0 && Check(s, b + wc) == 0
            && Base(r, n) == b
            && Base(r, b + tc) == -tempBase && Check(r, b + tc) == n
            && Base(r, b + wc) == -t1.pos && Check(r, b + wc) == n
            && (forall q :: q != n && q != b + tc && q != b + wc ==> Base(r, q) == Base(s, q))
            && (forall q :: q != b + tc && q != b + wc ==> Check(r, q) == Check(s, q))
  {
    var b := XCheck(s, [tc, wc]);
    var f := Fork(s, n, tempBase, tc, wc);
    var t1 := WriteTail(f, f.tail, tempBase, j);
    ForkEffect(s, n, tempBase, tc, wc);
    SplitStages(s, n, tempBase, w, i, j, tc, wc);
    assert Base(t1, n) == b;
    AddLeafEffect(t1, n, b + wc, w, i + j);
  }

  lemma SplitTail(s: Store, n: int, tempBase: int, w: seq<char>, i: int, j: int, tc: int, wc: int)
    requires Valid(s) && tc >= 1 && wc >= 1 && tempBase >= 1
    ensures var f := Fork(s, n, tempBase, tc, wc);
            var t1 := WriteTail(f, f.tail, tempBase, j);
            var t2 := WriteTail(t1, Cells(w), t1.pos, i + j);
            var r := Split(s, n, tempBase, w, i, j, tc, wc);
            r.tail == t2.tail && r.pos == t2.pos
  {
    var f := Fork(s, n, tempBase, tc, wc);
    var t1 := WriteTail(f, f.tail, tempBase, j);
    SplitStages(s, n, tempBase, w, i, j, tc, wc);
    AddLeafEffect(t1, n, Base(t1, n) + wc, w, i + j);
  }

  /** The first stage of the split, for a state n that is not a free cell: both cells off the
      new base are free before, n takes the base and the old leaf its cell, nothing else changes. */
  lemma ForkEffect(s: Store, n: int, tempBase: int, tc: int, wc: int)
    requires Valid(s) && tc >= 1 && wc >= 1 && tc != wc && Check(s, n) != 0
    ensures var b := XCheck(s, [tc, wc]);
            var f := Fork(s, n, tempBase, tc, wc);
            && Check(s, b + tc) == 0 && Check(s, b + wc) == 0 && b + tc != n && b + wc != n
            && Base(f, n) == b && Base(f, b + tc) == -tempBase && Check(f, b + tc) == n
            && (forall q :: q != n && q != b + tc ==> Base(f, q) == Base(s, q))
            && (forall q :: q != b + tc ==> Check(f, q) == Check(s, q))
            && f.tail == s.tail && f.pos == s.pos
  {
    var b := XCheck(s, [tc, wc]);
    assert Free(s, [tc, wc], b) && [tc, wc][0] == tc && [tc, wc][1] == wc;
  }

  /** The search for the grandchild to redirect stops at the first offset from `from` on
      whose cell records t1. */
  lemma {:induction false} OwnerOffsetLeast(s: Store, b: int, t1: int, from: int)
    ensures forall p :: b + from <= p < b + OwnerOffset(s, b, t1, from) ==> Check(s, p) != t1
    decreases s.checkLen - from
  {
    if from < s.checkLen && Check(s, b + from) != t1 {
      OwnerOffsetLeast(s, b, t1, from + 1);
    }
  }

  /** One turn of relocateBase's loop, moving the child at t1 to t2: t2 gets t1's base and
      records node, unless t2 is itself the redirected grandchild cell g; the first cell g
      found recording t1 (for a positive base) records t2; t1 is cleared; nothing else changes. */
  lemma MoveChildEffect(s: Store, node: int, t1: int, t2: int)
    requires Valid(s) && t1 != t2
    ensures var b := Base(s, t1);
            var s1 := SetCheck(SetBase(s, t2, b), t2, node);
            var g := b + OwnerOffset(s1, b, t1, node);
            var r := MoveChild(s, node, t1, t2);
            && Base(r, t1) == 0 && Check(r, t1) == 0
            && Base(r, t2) == b
            && Check(r, t2) == (if b > 0 && g == t2 then t2 else node)
            && (b > 0 && g != t1 ==> Check(r, g) == t2)
            && (forall q :: q != t1 && q != t2 ==> Base(r, q) == Base(s, q))
            && (forall q :: q != t1 && q != t2 && (b <= 0 || q != g) ==> Check(r, q) == Check(s, q))
  {
    var b := Base(s, t1);
    var s1 := SetCheck(SetBase(s, t2, b), t2, node);
    var s2 := if b > 0 then SetCheck(s1, b + OwnerOffset(s1, b, t1, node), t2) else s1;
    assert MoveChild(s, node, t1, t2) == MoveSteps(s1, node, t1, t2, 1);
    assert MoveSteps(s1, node, t1, t2, 1) == MoveSteps(s2, node, t1, t2, 0);
    var r := SetCheck(SetBase(s2, t1, 0), t1, 0);
    assert MoveSteps(s2, node, t1, t2, 0) == r;
    assert Base(s2, t1) == Base(s, t1) && Base(s2, t2) == b by {
      assert s2.base == s1.base;
    }
  }

  /** A move writes base values at t1 and t2 only. */
  lemma MoveChildBases(s: Store, node: int, t1: int, t2: int, q: int)
    requires Valid(s) && q != t1 && q != t2
    ensures Base(MoveChild(s, node, t1, t2), q) == Base(s, q)
  {
    var b := Base(s, t1);
    var s1 := SetCheck(SetBase(s, t2, b), t2, node);
    var s2 := if b > 0 then SetCheck(s1, b + OwnerOffset(s1, b, t1, node), t2) else s1;
    assert MoveChild(s, node, t1, t2) == MoveSteps(s1, node, t1, t2, 1);
    assert MoveSteps(s1, node, t1, t2, 1) == MoveSteps(s2, node, t1, t2, 0);
    assert s2.base == s1.base;
  }

  /** The first j turns of relocateBase's loop leave the moved state's own base alone when no
      child's old cell (off oldBase) or new cell (off that base) is the state's cell. */
  lemma {:induction false} MoveFirstKeepsBase(s: Store, node: int, oldBase: int, list: seq<int>, j: nat)
    requires Valid(s) && j <= |list|
    requires forall x :: 0 <= x < j ==> oldBase + list[x] != node && Base(s, node) + list[x] != node
    ensures Base(MoveFirst(s, node, oldBase, list, j), node) == Base(s, node)
  {
    if j > 0 {
      MoveFirstKeepsBase(s, node, oldBase, list, j - 1);
      var p := MoveFirst(s, node, oldBase, list, j - 1);
      MoveChildBases(p, node, oldBase + list[j - 1], Base(s, node) + list[j - 1], node);
    }
  }

  /** After relocateBase's loop the moved state has the base x_check found for its children's
      codes, when none of its children's old or new cells is its own cell. */
  lemma RelocatedBase(ab: Alphabet, s: Store, n: int, m: int)
    requires WellFormed(ab) && Valid(s)
    ensures var (node, list) := RelocationTarget(ab, s, n, m);
            var q := XCheck(s, list);
            (forall x :: 0 <= x < |list| ==> Base(s, node) + list[x] != node && q + list[x] != node) ==>
              Base(Relocated(ab, s, n, m), node) == q
  {
    var (node, list) := RelocationTarget(ab, s, n, m);
    var q := XCheck(s, list);
    var s1 := SetBase(s, node, q);
    if forall x :: 0 <= x < |list| ==> Base(s, node) + list[x] != node && q + list[x] != node {
      MoveFirstKeepsBase(s1, node, Base(s, node), list, |list|);
    }
  }

  /** relocateBase ends with the new leaf below n, off n's base after the move: its cell gets
      base -(old cursor) and records n, no other cell changes, and the tail changes as
      writeTail of the word's rest at the old cursor does. */
  lemma RelocateNewLeaf(ab: Alphabet, s: Store, n: int, m: int, w: seq<char>, i: nat)
    requires WellFormed(ab) && Valid(s) && IsWord(ab, w) && i < |w|
    ensures var s2 := Relocated(ab, s, n, m);
            var p := Base(s2, n) + CodeAt(ab, w, i);
            var t := WriteTail(s, Cells(w), s.pos, i);
            var r := Relocate(ab, s, n, m, w, i);
            && Base(r, p) == -s.pos && Check(r, p) == n
            && (forall q :: q != p ==> Base(r, q) == Base(s2, q) && Check(r, q) == Check(s2, q))
            && r.tail == t.tail && r.pos == t.pos
  {
    var s2 := Relocated(ab, s, n, m);
    AddLeafEffect(s2, n, Base(s2, n) + CodeAt(ab, w, i), w, i);
  }

  /** remove clears base and check of the last cell m of its walk when the word ends there on
      the terminator or the rest equals the stored suffix, and changes nothing else (the
      tail and the cursor least of all); otherwise it changes nothing. */
  lemma RemoveEffect(ab: Alphabet, s: Store, w: seq<char>)
    requires Valid(s) && IsWord(ab, w)
    ensures var (m, i) := RemoveWalk(ab, s, w, 0, 1, 0);
            var r := Remove(ab, s, w);
            && r.tail == s.tail && r.pos == s.pos
            && (forall q :: q != m ==> Base(r, q) == Base(s, q) && Check(r, q) == Check(s, q))
            && (if Found(s, w, m, i) then Base(r, m) == 0 && Check(r, m) == 0 else r == s)
  {
  }

  /** The walk of remove follows base values only: it is the same whatever check holds. */
  lemma {:induction false} RemoveWalkIgnoresCheck(ab: Alphabet, s: Store, check: map<int, int>, w: seq<char>,
                                                  i: nat, n: int, m: int)
    requires IsWord(ab, w) && i <= |w|
    ensures RemoveWalk(ab, s.(check := check), w, i, n, m) == RemoveWalk(ab, s, w, i, n, m)
    decreases |w| - i
  {
    if i < |w| {
      var m' := Base(s, n) + CodeAt(ab, w, i);
      if Base(s, m') >= 0 {
        RemoveWalkIgnoresCheck(ab, s, check, w, i + 1, m', m');
      }
    }
  }
}
