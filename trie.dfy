/** The `Trie` object of lib/trie.js: the two parallel arrays, the tail and its cursor as
    fields, and every operation as a method that works on them step by step. Each method is
    proved against the function of the state that specifies it. */
module DoubleArrayTrie {
  import opened Alphabet
  import opened DoubleArray
  import opened TailStore
  import opened Slots
  import opened Operations

  /** The loop of `writeTail`: str[i], str[i+1], ... are copied to tail[d], tail[d+1], ...
      up to and including the first terminator; k counts the cells copied before it. */
  method CopySuffix(tail: seq<Cell>, str: seq<Cell>, d: nat, i: int) returns (t: seq<Cell>, k: nat)
    ensures (t, k) == Copy(tail, str, d, i)
  {
    ghost var goal := Copy(tail, str, d, i);
    t := tail;
    k := 0;
    var j := i;
    while j < |str|
      invariant j == i + k
      invariant Copy(t, str, d + k, j) == (goal.0, goal.1 - k)
      decreases |str| - j
    {
      if CellAt(str, j) == Some(Terminator) {
        CopyLast(t, str, d + k, j);
        t := Put(t, d + k, CellAt(str, j));
        return;
      }
      CopyStep(t, str, d + k, j, goal.0, goal.1 - k);
      t := Put(t, d + k, CellAt(str, j));
      j := j + 1;
      k := k + 1;
    }
  }

  class Trie {
    const alphabet: Alphabet
    /** `base`, indexed by 1-based position */
    var base: map<int, int>
    /** `check`, indexed by 1-based position */
    var check: map<int, int>
    /** `check.length` */
    var checkLength: nat
    var tail: seq<Cell>
    var pos: int

    /** The four pieces of state as one value. */
    function State(): Store
      reads this
    {
      Store(base, check, checkLength, tail, pos)
    }

    ghost predicate Valid()
      reads this
    {
      WellFormed(alphabet) && DoubleArray.Valid(State())
    }

    /** `new Trie(alphabet)` */
    constructor (ab: Alphabet)
      requires WellFormed(ab)
      ensures alphabet == ab && State() == Initial && Valid()
    {
      alphabet := ab;
      base := map[1 := 1];
      check := map[1 := 0];
      checkLength := 1;
      tail := [];
      pos := 1;
    }

    /** `getBase(pos)`: an unset position reads 0. */
    function GetBase(p: int): (v: int)
      reads this
      ensures v == Base(State(), p)
      ensures p !in base ==> v == 0
    {
      if p in base then base[p] else 0
    }

    /** `getCheck(pos)`: an unset position reads 0. */
    function GetCheck(p: int): (v: int)
      reads this
      ensures v == Check(State(), p)
      ensures p !in check ==> v == 0
    {
      if p in check then check[p] else 0
    }

    /** `setBase(pos, value)` */
    method SetBase(p: int, v: int)
      modifies this
      ensures State() == DoubleArray.SetBase(old(State()), p, v)
    {
      base := base[p := v];
    }

    /** `setCheck(pos, value)`: the array grows when p lies past its end. */
    method SetCheck(p: int, v: int)
      modifies this
      ensures State() == DoubleArray.SetCheck(old(State()), p, v)
    {
      check := check[p := v];
      if p > checkLength {
        checkLength := p;
      }
    }

    /** `getCharCode(c)`, applied to a symbol read from a word or from the tail. */
    function GetCharCode(c: Cell): (r: Option<int>)
      ensures r.Some? <==> c.Some? && HasSymbol(alphabet, c.value)
      ensures WellFormed(alphabet) && r.Some? ==> r.value >= 1
    {
      CellCode(alphabet, c)
    }

    /** `x_check(list)`: candidates q = 1, 2, ... are tried until every code of the list lands
        on an unused cell. */
    method XCheck(list: seq<int>) returns (q: int)
      requires Valid() && Positive(list)
      ensures q >= 1 && Free(State(), list, q)
      ensures forall q' :: 1 <= q' < q ==> !Free(State(), list, q')
      ensures q == Slots.XCheck(State(), list)
    {
      q := 1;
      while true
        invariant q >= 1
        invariant forall q' :: 1 <= q' < q ==> !Free(State(), list, q')
        decreases checkLength - q
      {
        var found := false;
        var c := 0;
        while c < |list|
          invariant 0 <= c <= |list|
          invariant !found && forall k :: 0 <= k < c ==> Check(State(), q + list[k]) == 0
        {
          if GetCheck(q + list[c]) != 0 {
            found := true;
            break;
          }
          c := c + 1;
        }
        if !found {
          break;
        }
        assert InCheck(State(), q + list[c]);
        q := q + 1;
      }
    }

    /** `writeTail(str, pos, start)`: str[start+1], str[start+2], ... go to the tail from
        1-based position p on, up to and including the first terminator; then the cursor is
        raised to p + k + 1 when that is past it. */
    method WriteTail(str: seq<Cell>, p: int, start: int)
      requires p >= 1
      modifies this
      ensures State() == TailStore.WriteTail(old(State()), str, p, start)
    {
      var t, k := CopySuffix(tail, str, p - 1, start + 1);
      tail := t;
      if p + k + 1 > pos {
        pos := p + k + 1;
      }
    }

    /** `findArcs(n)`: the codes, in alphabet order, whose cell off base(n) records n. */
    method FindArcs(n: int) returns (result: seq<int>)
      requires Valid()
      ensures result == Arcs(alphabet, State(), n)
    {
      result := [];
      for k := 0 to |alphabet|
        invariant result == ArcsOf(alphabet, State(), n, k)
      {
        CodeOfEntry(alphabet, k);
        var c := GetCharCode(Some(alphabet[k].0)).value;
        if GetCheck(GetBase(n) + c) == n {
          result := result + [c];
        }
      }
    }

    /** `tailEquals(start, chars, p)` */
    method TailEquals(start: int, chars: seq<char>, p: int) returns (b: bool)
      ensures b == TailStore.TailEquals(tail, start, chars, p)
    {
      var i := start - 1;
      var k := 0;
      while i < |tail|
        invariant TailMatch(tail, i, chars, p + k) == TailMatch(tail, start - 1, chars, p)
        decreases |tail| - i
      {
        if CellAt(tail, i) != WordAt(chars, p + k) {
          return false;
        }
        if CellAt(tail, i) == Some(Terminator) {
          break;
        }
        i := i + 1;
        k := k + 1;
      }
      return true;
    }

    /** `getTailString(pos)` */
    method GetTailString(p: int) returns (result: seq<Cell>)
      ensures result == TailString(tail, p)
    {
      result := [];
      var i := p - 1;
      while i < |tail|
        invariant result + TailRun(tail, i) == TailRun(tail, p - 1)
        decreases |tail| - i
      {
        var c := CellAt(tail, i);
        TailRunStep(tail, i, result, TailRun(tail, p - 1));
        result := result + [c];
        if c == Some(Terminator) {
          break;
        }
        i := i + 1;
      }
    }

    /** `contains(word)`; the state is left as it is. */
    method Contains(word: seq<char>) returns (b: bool)
      requires Valid() && IsWord(alphabet, word)
      ensures b == Operations.Contains(alphabet, State(), word)
    {
      var n, m, i := 1, 0, 0;
      while i < |word|
        invariant i <= |word|
        invariant Walk(alphabet, State(), word, i, n, m) == WalkFromRoot(alphabet, State(), word)
        decreases |word| - i
      {
        m := GetBase(n) + GetCharCode(Some(word[i])).value;
        if GetCheck(m) != n {
          return false;
        }
        if GetBase(m) < 0 {
          break;
        }
        n := m;
        i := i + 1;
      }
      if i < |word| && word[i] == Terminator {
        return true;
      }
      b := TailEquals(-GetBase(m), word, i + 1);
    }

    /** `insert(word)`: the walk, then a direct install at a free cell, a relocation at an
        owned one, nothing for a word already present, or a split of the stored suffix. */
    method Insert(word: seq<char>) returns (status: Status)
      requires Valid() && IsWord(alphabet, word)
      modifies this
      ensures Valid()
      ensures (State(), status) == Operations.Insert(alphabet, old(State()), word)
    {
      ghost var s0 := State();
      var n, m, i := 1, 0, 0;
      while i < |word|
        invariant i <= |word| && State() == s0
        invariant Walk(alphabet, s0, word, i, n, m) == WalkFromRoot(alphabet, s0, word)
        decreases |word| - i
      {
        m := GetBase(n) + GetCharCode(Some(word[i])).value;
        if GetCheck(m) != n {
          assert WalkFromRoot(alphabet, s0, word) == Missing(n, m, i);
          InsertWhenMissing(alphabet, s0, word, n, m, i);
          if GetCheck(m) != 0 {
            RelocateBase(n, m, word, i);
          } else {
            AddLeaf(n, m, word, i);
          }
          return Finished;
        }
        if GetBase(m) < 0 {
          break;
        }
        n := m;
        i := i + 1;
      }
      assert WalkFromRoot(alphabet, s0, word) == Stopped(m, i);
      InsertWhenStopped(alphabet, s0, word, m, i);
      status := InsertAtLeaf(m, word, i);
    }

    /** The part of `insert` after a walk that stopped on the leaf m at step i: nothing for a
        word already stored, otherwise the split of the leaf's suffix. */
    method InsertAtLeaf(m: int, word: seq<char>, i: nat) returns (status: Status)
      requires Valid() && IsWord(alphabet, word)
      modifies this
      ensures Valid()
      ensures var s := old(State());
              (State(), status) ==
                if Found(s, word, m, i) then (s, Finished)
                else if Base(s, m) != 0 then Operations.InsertTail(alphabet, s, m, -Base(s, m), word, i + 1)
                else (s, Finished)
    {
      if i < |word| && word[i] == Terminator {
        return Finished;
      }
      var same := TailEquals(-GetBase(m), word, i + 1);
      if same {
        return Finished;
      }
      if GetBase(m) != 0 {
        status := InsertTail(m, -GetBase(m), word, i + 1);
      } else {
        status := Finished;
      }
    }

    /** The install of a new leaf at the free cell p below n (the three statements that
        `insert`, `insertTail` and `relocateBase` each end with): its base points at the
        cursor, where the rest of the word after index i is written. */
    method AddLeaf(n: int, p: int, word: seq<char>, i: int)
      requires Valid()
      modifies this
      ensures Valid()
      ensures State() == Operations.AddLeaf(old(State()), n, p, word, i)
    {
      SetBase(p, -pos);
      SetCheck(p, n);
      WriteTail(Cells(word), pos, i);
    }

    /** `insertTail(n, tailPos, chars, i)`: the stored suffix of leaf n and the rest of the
        word are compared symbol by symbol; each shared symbol becomes a state with one child,
        and at the first difference both get a leaf. */
    method InsertTail(n: int, tailPos: int, chars: seq<char>, i: int) returns (status: Status)
      requires Valid() && IsWord(alphabet, chars) && tailPos == -GetBase(n)
      modifies this
      ensures Valid()
      ensures (State(), status) == Operations.InsertTail(alphabet, old(State()), n, tailPos, chars, i)
    {
      var tempBase := -GetBase(n);
      var node := n;
      var j, k := tailPos - 1, 0;
      assert tempBase == tailPos;
      while j < |tail|
        invariant Valid()
        invariant tempBase - 1 <= j && (tempBase >= 1 || j < 0)
        invariant SplitLoop(alphabet, State(), node, tempBase, chars, i, j, k)
                  == Operations.InsertTail(alphabet, old(State()), n, tailPos, chars, i)
        decreases |tail| - j
      {
        var stop;
        stop, status, node := SplitStep(node, tempBase, chars, i, j, k);
        if stop {
          return;
        }
        j := j + 1;
        k := k + 1;
      }
      assert SplitLoop(alphabet, State(), node, tempBase, chars, i, j, k) == (State(), Finished);
      return Finished;
    }

    /** One turn of insertTail's loop, at tail index j and word index i + k: it stops with
        Unmapped on a symbol without a code, goes on to the returned child after a shared
        symbol other than the terminator, and stops after the split at a difference. */
    method SplitStep(n: int, tempBase: int, chars: seq<char>, i: int, j: int, k: int)
      returns (stop: bool, status: Status, child: int)
      requires Valid() && tempBase - 1 <= j < |tail| && (tempBase >= 1 || j < 0)
      modifies this
      ensures Valid()
      ensures stop ==> SplitLoop(alphabet, old(State()), n, tempBase, chars, i, j, k) == (State(), status)
      ensures !stop ==> (tail == old(tail) && 0 <= j &&
                SplitLoop(alphabet, old(State()), n, tempBase, chars, i, j, k)
                == SplitLoop(alphabet, State(), child, tempBase, chars, i, j + 1, k + 1))
    {
      var tailChar := GetCharCode(CellAt(tail, j));
      var wordChar := GetCharCode(WordAt(chars, i + k));
      if tailChar.None? || wordChar.None? {
        return true, Unmapped, n;
      }
      if tailChar.value != wordChar.value {
        Split(n, tempBase, chars, i, j, tailChar.value, wordChar.value);
        return true, Finished, n;
      }
      child := ShareSymbol(n, tailChar.value);
      stop, status := CellAt(tail, j) == Some(Terminator), Finished;
    }

    /** The step of insertTail for a shared symbol of code c: n gets the least base whose
        cell for c is unused, and that cell, the returned child, records n. */
    method ShareSymbol(n: int, c: int) returns (child: int)
      requires Valid() && c >= 1
      modifies this
      ensures Valid()
      ensures State() == Share(old(State()), n, c) && child == Base(State(), n) + c
    {
      var q := XCheck([c]);
      SetBase(n, q);
      SetCheck(GetBase(n) + c, n);
      child := GetBase(n) + c;
    }

    /** The branch of insertTail at the first difference, tail code tc against word code wc. */
    method Split(n: int, tempBase: int, chars: seq<char>, i: int, j: int, tc: int, wc: int)
      requires Valid() && tc >= 1 && wc >= 1 && tempBase >= 1
      modifies this
      ensures Valid()
      ensures State() == Operations.Split(old(State()), n, tempBase, chars, i, j, tc, wc)
    {
      ghost var s0 := State();
      Fork(n, tempBase, tc, wc);
      assert SplitSteps(s0, n, tempBase, chars, i, j, tc, wc, 2)
          == SplitSteps(State(), n, tempBase, chars, i, j, tc, wc, 1);
      ghost var s1 := State();
      WriteTail(tail, tempBase, j);
      assert SplitSteps(s1, n, tempBase, chars, i, j, tc, wc, 1)
          == SplitSteps(State(), n, tempBase, chars, i, j, tc, wc, 0);
      AddLeaf(n, GetBase(n) + wc, chars, i + j);
    }

    /** The first stage of the split: the new base of n and the old leaf under it. */
    method Fork(n: int, tempBase: int, tc: int, wc: int)
      requires Valid() && tc >= 1 && wc >= 1
      modifies this
      ensures Valid()
      ensures State() == Operations.Fork(old(State()), n, tempBase, tc, wc)
    {
      var q := XCheck([tc, wc]);
      SetBase(n, q);
      var q1 := GetBase(n) + tc;
      SetBase(q1, -tempBase);
      SetCheck(q1, n);
    }

    /** `relocateBase(n, m, chars, i)` */
    method RelocateBase(n: int, m: int, chars: seq<char>, i: nat)
      requires Valid() && IsWord(alphabet, chars) && i < |chars|
      modifies this
      ensures Valid()
      ensures State() == Relocate(alphabet, old(State()), n, m, chars, i)
    {
      ghost var s0 := State();
      MoveNode(n, m);
      ghost var s1 := State();
      var code := GetCharCode(Some(chars[i])).value;
      var p := GetBase(n) + code;
      assert p == Base(s1, n) + CodeAt(alphabet, chars, i);
      assert Relocate(alphabet, s0, n, m, chars, i) == Operations.AddLeaf(s1, n, p, chars, i);
      AddLeaf(n, p, chars, i);
    }

    /** The part of relocateBase before the new leaf: the state with fewer children, n or
        the owner of m, takes the new base x_check finds for its arcs and its children move. */
    method MoveNode(n: int, m: int)
      requires Valid()
      modifies this
      ensures Valid()
      ensures State() == Relocated(alphabet, old(State()), n, m)
    {
      var listA := FindArcs(n);
      var listB := FindArcs(GetCheck(m));
      var node := if |listA| + 1 < |listB| then n else GetCheck(m);
      var list := if |listA| + 1 < |listB| then listA else listB;
      ghost var s0 := State();
      assert RelocationTarget(alphabet, s0, n, m) == (node, list);
      var tempBase := GetBase(node);
      var q := XCheck(list);
      SetBase(node, q);
      MoveArcs(node, tempBase, list);
    }

    /** The loop of relocateBase: each child of node, listed by code, moves from its cell off
        the old base oldBase to its cell off node's new base. */
    method MoveArcs(node: int, oldBase: int, list: seq<int>)
      requires Valid()
      modifies this
      ensures Valid()
      ensures State() == MoveFirst(old(State()), node, oldBase, list, |list|)
    {
      for j := 0 to |list|
        invariant Valid()
        invariant State() == MoveFirst(old(State()), node, oldBase, list, j)
      {
        MoveChild(node, oldBase + list[j], GetBase(node) + list[j]);
      }
    }

    /** One iteration of relocateBase's loop: the child at t1 moves to t2. */
    method MoveChild(node: int, t1: int, t2: int)
      requires Valid()
      modifies this
      ensures Valid()
      ensures State() == Operations.MoveChild(old(State()), node, t1, t2)
    {
      ghost var s0 := State();
      SetBase(t2, GetBase(t1));
      SetCheck(t2, node);
      ghost var s1 := State();
      assert MoveSteps(s0, node, t1, t2, 2) == MoveSteps(s1, node, t1, t2, 1);
      if GetBase(t1) > 0 {
        var w := FindOwnerOffset(GetBase(t1), t1, node);
        SetCheck(GetBase(t2) + w, t2);
      }
      assert MoveSteps(s1, node, t1, t2, 1) == MoveSteps(State(), node, t1, t2, 0);
      SetBase(t1, 0);
      SetCheck(t1, 0);
    }

    /** The inner loop of relocateBase: offsets w = from, from + 1, ... below the length of
        `check` are tried until cell b + w records t1. */
    method FindOwnerOffset(b: int, t1: int, from: int) returns (w: int)
      ensures w == OwnerOffset(State(), b, t1, from)
    {
      w := from;
      while w < checkLength
        invariant OwnerOffset(State(), b, t1, w) == OwnerOffset(State(), b, t1, from)
        decreases checkLength - w
      {
        if GetCheck(b + w) == t1 {
          break;
        }
        w := w + 1;
      }
    }

    /** `remove(word)`: the walk follows base values only; the last cell reached is cleared
        when the word ends there or its rest equals the stored suffix. */
    method Remove(word: seq<char>)
      requires Valid() && IsWord(alphabet, word)
      modifies this
      ensures Valid()
      ensures State() == Operations.Remove(alphabet, old(State()), word)
    {
      var n, m, i := 1, 0, 0;
      while i < |word|
        invariant i <= |word| && State() == old(State())
        invariant RemoveWalk(alphabet, State(), word, i, n, m) == RemoveWalk(alphabet, State(), word, 0, 1, 0)
        decreases |word| - i
      {
        m := GetBase(n) + GetCharCode(Some(word[i])).value;
        if GetBase(m) < 0 {
          break;
        }
        n := m;
        i := i + 1;
      }
      var found := i < |word| && word[i] == Terminator;
      if !found {
        found := TailEquals(-GetBase(m), word, i + 1);
      }
      if found {
        SetBase(m, 0);
        SetCheck(m, 0);
      }
    }
  }
}
