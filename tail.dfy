/** The tail store: writing a suffix (`writeTail`), comparing a stored suffix with the rest
    of a word (`tailEquals`) and reading one out (`getTailString`). */
module TailStore {
  import opened Alphabet
  import opened DoubleArray

  /** The array assignment `tail[d] = c`: past the end the array grows, and the cells
      skipped over stay unset. */
  function Put(tail: seq<Cell>, d: nat, c: Cell): (t: seq<Cell>)
    ensures |t| == if d < |tail| then |tail| else d + 1
    ensures t[d] == c
    ensures forall y :: 0 <= y < |t| && y != d ==> t[y] == CellAt(tail, y)
  {
    if d < |tail| then tail[d := c] else tail + seq(d - |tail|, _ => None) + [c]
  }

  /** The loop of `writeTail`: cells src[i], src[i+1], ... go to tail[d], tail[d+1], ...,
      up to and including the first terminator or to the end of src. The second component
      is the loop counter when the loop is left: it is not advanced on the terminator. */
  function Copy(tail: seq<Cell>, src: seq<Cell>, d: nat, i: int): (r: (seq<Cell>, nat))
    ensures |tail| <= |r.0| <= if |tail| > d + r.1 + 1 then |tail| else d + r.1 + 1
    decreases |src| - i
  {
    if i >= |src| then (tail, 0)
    else
      var t := Put(tail, d, CellAt(src, i));
      if CellAt(src, i) == Some(Terminator) then (t, 0)
      else
        var (t', k) := Copy(t, src, d + 1, i + 1);
        (t', k + 1)
  }

  /** One turn of the copy loop past a cell that is not the terminator: the cell goes to
      tail[d] and the copy goes on from the next cell, one step further on. */
  lemma CopyStep(tail: seq<Cell>, src: seq<Cell>, d: nat, i: int, r: seq<Cell>, n: int)
    requires i < |src| && CellAt(src, i) != Some(Terminator)
    requires Copy(tail, src, d, i) == (r, n)
    ensures Copy(Put(tail, d, CellAt(src, i)), src, d + 1, i + 1) == (r, n - 1)
  {
  }

  /** The copy loop left on a terminator: the cell goes to tail[d] and nothing more moves. */
  lemma CopyLast(tail: seq<Cell>, src: seq<Cell>, d: nat, i: int)
    requires i < |src| && CellAt(src, i) == Some(Terminator)
    ensures Copy(tail, src, d, i) == (Put(tail, d, CellAt(src, i)), 0)
  {
  }

  /** The number of cells the copy starting at src index i transfers: the run up to the
      first terminator, or what is left of src. */
  function RunLength(src: seq<Cell>, i: int): (n: nat)
    ensures n == 0 <==> i >= |src|
    ensures i < |src| ==> i + n <= |src|
    ensures forall y :: i <= y < i + n - 1 ==> CellAt(src, y) != Some(Terminator)
    ensures n > 0 ==> CellAt(src, i + n - 1) == Some(Terminator) || i + n == |src|
    decreases |src| - i
  {
    if i >= |src| then 0
    else if CellAt(src, i) == Some(Terminator) then 1
    else 1 + RunLength(src, i + 1)
  }

  /** A run that meets its first terminator at index e has e - i + 1 cells. */
  lemma {:induction false} RunUpTo(src: seq<Cell>, i: int, e: int)
    requires 0 <= i <= e < |src| && src[e] == Some(Terminator)
    requires forall y :: i <= y < e ==> src[y] != Some(Terminator)
    ensures RunLength(src, i) == e - i + 1
    decreases e - i
  {
    if i < e {
      RunUpTo(src, i + 1, e);
    }
  }

  /** Whether the run copied from src index i ends on a terminator (rather than on the end of src). */
  predicate EndsOnTerminator(src: seq<Cell>, i: int)
  {
    RunLength(src, i) > 0 && CellAt(src, i + RunLength(src, i) - 1) == Some(Terminator)
  }

  /** What Copy writes: the RunLength(src, i) cells of the run land at d, d+1, ...; every other
      cell keeps its value (cells between the old end and d become unset); the counter is one
      less than the number of cells when the run ended on a terminator. */
  lemma CopyEffect(tail: seq<Cell>, src: seq<Cell>, d: nat, i: int)
    ensures var (t, k) := Copy(tail, src, d, i);
            var n := RunLength(src, i);
            && |t| == (if n == 0 || d + n <= |tail| then |tail| else d + n)
            && (forall y :: d <= y < d + n ==> t[y] == CellAt(src, y - d + i))
            && (forall y :: 0 <= y < |t| && !(d <= y < d + n) ==> t[y] == CellAt(tail, y))
            && k == (if EndsOnTerminator(src, i) then n - 1 else n)
  {
    CopyCells(tail, src, d, i);
    CopyCount(tail, src, d, i);
  }

  /** The cells Copy leaves: the run at d, d+1, ..., the old cells elsewhere. */
  lemma CopyCells(tail: seq<Cell>, src: seq<Cell>, d: nat, i: int)
    ensures var t := Copy(tail, src, d, i).0;
            var n := RunLength(src, i);
            && |t| == (if n == 0 || d + n <= |tail| then |tail| else d + n)
            && (forall y :: d <= y < d + n ==> t[y] == CellAt(src, y - d + i))
            && (forall y :: 0 <= y < |t| && !(d <= y < d + n) ==> t[y] == CellAt(tail, y))
  {
    CopyLength(tail, src, d, i);
    CopyRun(tail, src, d, i);
    CopyRest(tail, src, d, i);
    var t := Copy(tail, src, d, i).0;
    assert forall y :: d <= y < d + RunLength(src, i) ==> t[y] == CellAt(t, y);
  }

  /** The length of the tail after Copy: the old one, or the run's end if that is further. */
  lemma {:induction false} CopyLength(tail: seq<Cell>, src: seq<Cell>, d: nat, i: int)
    ensures var n := RunLength(src, i);
            |Copy(tail, src, d, i).0| == if n == 0 || d + n <= |tail| then |tail| else d + n
    decreases |src| - i
  {
    if i < |src| && CellAt(src, i) != Some(Terminator) {
      var t := Put(tail, d, CellAt(src, i));
      CopyLength(t, src, d + 1, i + 1);
      assert Copy(tail, src, d, i).0 == Copy(t, src, d + 1, i + 1).0;
      assert RunLength(src, i) == 1 + RunLength(src, i + 1);
    }
  }

  /** The run lands at d, d+1, ... */
  lemma {:induction false} CopyRun(tail: seq<Cell>, src: seq<Cell>, d: nat, i: int)
    ensures forall y :: d <= y < d + RunLength(src, i) ==>
              CellAt(Copy(tail, src, d, i).0, y) == CellAt(src, y - d + i)
    decreases |src| - i
  {
    if i < |src| && CellAt(src, i) != Some(Terminator) {
      var t := Put(tail, d, CellAt(src, i));
      CopyRun(t, src, d + 1, i + 1);
      assert Copy(tail, src, d, i).0 == Copy(t, src, d + 1, i + 1).0;
      assert RunLength(src, i) == 1 + RunLength(src, i + 1);
      CopyRest(t, src, d + 1, i + 1);
    }
  }

  /** Outside the run every cell keeps its value. */
  lemma {:induction false} CopyRest(tail: seq<Cell>, src: seq<Cell>, d: nat, i: int)
    ensures var t := Copy(tail, src, d, i).0;
            forall y :: 0 <= y < |t| && !(d <= y < d + RunLength(src, i)) ==> t[y] == CellAt(tail, y)
    decreases |src| - i
  {
    if i < |src| && CellAt(src, i) != Some(Terminator) {
      var t := Put(tail, d, CellAt(src, i));
      CopyRest(t, src, d + 1, i + 1);
      assert Copy(tail, src, d, i).0 == Copy(t, src, d + 1, i + 1).0;
      assert RunLength(src, i) == 1 + RunLength(src, i + 1);
    }
  }

  /** The counter Copy ends with: the run's length, less one when it closed on a terminator. */
  lemma {:induction false} CopyCount(tail: seq<Cell>, src: seq<Cell>, d: nat, i: int)
    ensures Copy(tail, src, d, i).1 ==
              if EndsOnTerminator(src, i) then RunLength(src, i) - 1 else RunLength(src, i)
    decreases |src| - i
  {
    if i < |src| && CellAt(src, i) != Some(Terminator) {
      var t := Put(tail, d, CellAt(src, i));
      CopyCount(t, src, d + 1, i + 1);
      assert Copy(tail, src, d, i).1 == Copy(t, src, d + 1, i + 1).1 + 1;
      assert RunLength(src, i) == 1 + RunLength(src, i + 1);
      assert EndsOnTerminator(src, i) == EndsOnTerminator(src, i + 1);
    }
  }

  /** `writeTail(str, pos, start)`: copies str[start+1 ..] into the tail from 1-based position
      pos, then raises the cursor to pos + k + 1 if that is past it (k the loop counter). */
  function WriteTail(s: Store, src: seq<Cell>, pos: int, start: int): (r: Store)
    requires pos >= 1
    ensures r.base == s.base && r.check == s.check && r.checkLen == s.checkLen
    ensures r.pos >= s.pos && |r.tail| >= |s.tail|
    ensures Valid(s) ==> Valid(r)
  {
    var (t, k) := Copy(s.tail, src, pos - 1, start + 1);
    var r := s.(tail := t, pos := if pos + k + 1 > s.pos then pos + k + 1 else s.pos);
    assert forall q :: InCheck(r, q) ==> InCheck(s, q);
    r
  }

  /** The whole effect of writeTail: the run of the source (from start+1, up to and including
      the first terminator) lands at 1-based position pos, every other tail cell is kept, and
      the cursor becomes the larger of its old value and pos + the run's length (one more
      when the source ran out before a terminator); the arrays are untouched. */
  lemma WriteTailEffect(s: Store, src: seq<Cell>, pos: int, start: int)
    requires pos >= 1
    ensures var r := WriteTail(s, src, pos, start);
            var n := RunLength(src, start + 1);
            var bump := pos + n + (if EndsOnTerminator(src, start + 1) then 0 else 1);
            && |r.tail| == (if n == 0 || pos - 1 + n <= |s.tail| then |s.tail| else pos - 1 + n)
            && (forall y :: pos - 1 <= y < pos - 1 + n ==> r.tail[y] == CellAt(src, y - pos + start + 2))
            && (forall y :: 0 <= y < |r.tail| && !(pos - 1 <= y < pos - 1 + n) ==>
                  r.tail[y] == CellAt(s.tail, y))
            && r.pos == (if bump > s.pos then bump else s.pos)
            && r.base == s.base && r.check == s.check && r.checkLen == s.checkLen
  {
    CopyEffect(s.tail, src, pos - 1, start + 1);
  }

  /** Writing the rest of a terminated word at the cursor, when the tail ends just before the
      cursor, appends that rest to the tail and moves the cursor past it. */
  lemma WriteTailAppends(s: Store, w: seq<char>, start: int)
    requires s.pos >= 1 && |s.tail| == s.pos - 1
    requires -1 <= start < |w| - 1 && w[|w| - 1] == Terminator
    requires forall k :: start + 1 <= k < |w| - 1 ==> w[k] != Terminator
    ensures WriteTail(s, Cells(w), s.pos, start)
            == s.(tail := s.tail + Cells(w[start + 1..]), pos := s.pos + |w| - start - 1)
  {
    var src := Cells(w);
    RunUpTo(src, start + 1, |w| - 1);
    WriteTailEffect(s, src, s.pos, start);
    var r := WriteTail(s, src, s.pos, start);
    var t := s.tail + Cells(w[start + 1..]);
    forall y | 0 <= y < |t| ensures r.tail[y] == t[y] {
      if y >= |s.tail| {
        assert w[y - |s.tail| + start + 1] == w[start + 1..][y - |s.tail|];
      }
    }
    assert r.tail == t;
  }

  /** The loop of `writeTail` when `str` is the tail array itself: every cell is read from
      the tail as it stands at that moment, after the writes of the earlier iterations. */
  function CopyLive(tail: seq<Cell>, d: nat, i: int): (r: (seq<Cell>, nat))
    requires d <= i
    ensures |r.0| == |tail|
    decreases |tail| - i
  {
    if i >= |tail| then (tail, 0)
    else
      var t := Put(tail, d, CellAt(tail, i));
      if CellAt(tail, i) == Some(Terminator) then (t, 0)
      else
        var (t', k) := CopyLive(t, d + 1, i + 1);
        (t', k + 1)
  }

  /** Copying the tail onto itself, to a destination index not past the source index, gives
      what copying a snapshot of it gives: each cell is read before any write reaches it. */
  lemma {:induction false} CopyLiveIsSnapshot(tail: seq<Cell>, src: seq<Cell>, d: nat, i: int)
    requires d <= i && |tail| == |src|
    requires forall y :: i <= y < |src| ==> tail[y] == src[y]
    ensures CopyLive(tail, d, i) == Copy(tail, src, d, i)
    decreases |tail| - i
  {
    if i < |tail| && CellAt(tail, i) != Some(Terminator) {
      CopyLiveIsSnapshot(Put(tail, d, CellAt(tail, i)), src, d + 1, i + 1);
    }
  }

  /** The comparison loop of `tailEquals` from 0-based tail index i and word index p. */
  function TailMatch(tail: seq<Cell>, i: int, w: seq<char>, p: int): bool
    decreases |tail| - i
  {
    if i >= |tail| then true
    else if CellAt(tail, i) != WordAt(w, p) then false
    else if CellAt(tail, i) == Some(Terminator) then true
    else TailMatch(tail, i + 1, w, p + 1)
  }

  /** A run of n cells from tail index i that equals the word from p matches, when the run
      closes on the terminator or reaches the end of the tail. */
  lemma {:induction false} MatchesEqualRun(tail: seq<Cell>, i: int, w: seq<char>, p: int, n: nat)
    requires 0 <= i && n >= 1
    requires forall y :: i <= y < i + n ==> CellAt(tail, y) == WordAt(w, y - i + p)
    requires WordAt(w, p + n - 1) == Some(Terminator) || i + n >= |tail|
    ensures TailMatch(tail, i, w, p)
    decreases n
  {
    if i < |tail| && CellAt(tail, i) != Some(Terminator) && n > 1 {
      MatchesEqualRun(tail, i + 1, w, p + 1, n - 1);
    } else if i < |tail| && n == 1 {
      assert CellAt(tail, i) == WordAt(w, p);
    }
  }

  /** `tailEquals(start, chars, p)`: the run at 1-based tail position start against w from index p. */
  function TailEquals(tail: seq<Cell>, start: int, w: seq<char>, p: int): (b: bool)
    ensures start - 1 >= |tail| ==> b
  {
    TailMatch(tail, start - 1, w, p)
  }

  /** The reading loop of `getTailString` from 0-based tail index i. */
  function TailRun(tail: seq<Cell>, i: int): seq<Cell>
    decreases |tail| - i
  {
    if i >= |tail| then []
    else [CellAt(tail, i)] + (if CellAt(tail, i) == Some(Terminator) then [] else TailRun(tail, i + 1))
  }

  /** The run read from index i: the cells from i on, up to and including the first
      terminator, or up to the end of the tail; empty exactly when i is past the end. */
  lemma {:induction false} TailRunShape(tail: seq<Cell>, i: int)
    ensures var r := TailRun(tail, i);
            && (|r| == 0 <==> i >= |tail|)
            && (i < |tail| ==> |r| <= |tail| - i)
            && (forall x :: 0 <= x < |r| ==> r[x] == CellAt(tail, i + x))
            && (forall x :: 0 <= x < |r| - 1 ==> r[x] != Some(Terminator))
            && (|r| > 0 ==> r[|r| - 1] == Some(Terminator) || i + |r| == |tail|)
    decreases |tail| - i
  {
    if i < |tail| && CellAt(tail, i) != Some(Terminator) {
      TailRunShape(tail, i + 1);
      var r := TailRun(tail, i);
      var rest := TailRun(tail, i + 1);
      assert r == [CellAt(tail, i)] + rest;
      forall x | 0 <= x < |r| ensures r[x] == CellAt(tail, i + x) {
        if x > 0 { assert r[x] == rest[x - 1]; }
      }
    }
  }

  /** Reading the run one cell at a time: after the cells read so far and cell i, either the
      run is complete (cell i was the terminator) or the run from i + 1 completes it. */
  lemma TailRunStep(tail: seq<Cell>, i: int, read: seq<Cell>, whole: seq<Cell>)
    requires i < |tail| && read + TailRun(tail, i) == whole
    ensures CellAt(tail, i) == Some(Terminator) ==> read + [CellAt(tail, i)] == whole
    ensures CellAt(tail, i) != Some(Terminator) ==> read + [CellAt(tail, i)] + TailRun(tail, i + 1) == whole
  {
    var c := CellAt(tail, i);
    var rest := if c == Some(Terminator) then [] else TailRun(tail, i + 1);
    assert TailRun(tail, i) == [c] + rest;
    assert read + [c] + rest == read + ([c] + rest);
    assert read + [c] + [] == read + [c];
  }

  /** `getTailString(pos)`: the stored run at 1-based position pos. */
  function TailString(tail: seq<Cell>, pos: int): seq<Cell>
  {
    TailRun(tail, pos - 1)
  }

  /** Every cell of run equals the word cell at the same offset from p. */
  predicate RunMatches(run: seq<Cell>, w: seq<char>, p: int)
  {
    forall x :: 0 <= x < |run| ==> run[x] == WordAt(w, p + x)
  }

  /** tailEquals holds exactly when every cell of the run getTailString reads out equals the
      word cell at the same offset (so a shorter or longer word fails on the terminator). */
  lemma {:induction false} TailMatchIsRunPrefix(tail: seq<Cell>, i: int, w: seq<char>, p: int)
    ensures TailMatch(tail, i, w, p) <==> RunMatches(TailRun(tail, i), w, p)
    decreases |tail| - i
  {
    if i < |tail| && CellAt(tail, i) == WordAt(w, p) && CellAt(tail, i) != Some(Terminator) {
      TailMatchIsRunPrefix(tail, i + 1, w, p + 1);
      var run := TailRun(tail, i);
      var rest := TailRun(tail, i + 1);
      assert run == [CellAt(tail, i)] + rest;
      if RunMatches(rest, w, p + 1) {
        forall x | 0 <= x < |run| ensures run[x] == WordAt(w, p + x) {
          if x > 0 { assert run[x] == rest[x - 1]; }
        }
      } else {
        var x :| 0 <= x < |rest| && rest[x] != WordAt(w, p + 1 + x);
        assert run[x + 1] == rest[x];
      }
    } else if i < |tail| {
      assert TailRun(tail, i)[0] == CellAt(tail, i);
    }
  }

  lemma TailEqualsIsRunPrefix(tail: seq<Cell>, start: int, w: seq<char>, p: int)
    ensures TailEquals(tail, start, w, p) <==> RunMatches(TailString(tail, start), w, p)
  {
    TailMatchIsRunPrefix(tail, start - 1, w, p);
  }
}
