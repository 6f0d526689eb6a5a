/** The free-slot search (`x_check`) and the enumeration of a state's children (`findArcs`). */
module Slots {
  import opened Alphabet
  import opened DoubleArray

  /** Offsets are alphabet codes, all at least 1. */
  predicate Positive(codes: seq<int>)
  {
    forall k :: 0 <= k < |codes| ==> codes[k] >= 1
  }

  /** Base q places every code of the list on an unused cell. */
  predicate Free(s: Store, codes: seq<int>, q: int)
  {
    forall k :: 0 <= k < |codes| ==> Check(s, q + codes[k]) == 0
  }

  /** The scan of `x_check` from candidate q on. A candidate that collides has a used cell
      at q + c with c >= 1, and used cells lie within the array, so q is below its length. */
  function XCheckFrom(s: Store, codes: seq<int>, q: int): (r: int)
    requires Valid(s) && Positive(codes) && q >= 1
    ensures r >= q && Free(s, codes, r)
    ensures forall q' :: q <= q' < r ==> !Free(s, codes, q')
    ensures r == q || r <= s.checkLen
    decreases s.checkLen - q
  {
    if Free(s, codes, q) then q
    else
      assert exists k :: 0 <= k < |codes| && InCheck(s, q + codes[k]);
      XCheckFrom(s, codes, q + 1)
  }

  /** `x_check(list)`: the least base q >= 1 at which every code of the list lands on an
      unused cell; it exists because every cell past the end of `check` is unused. */
  function XCheck(s: Store, codes: seq<int>): (q: int)
    requires Valid(s) && Positive(codes)
    ensures q >= 1 && Free(s, codes, q)
    ensures forall q' :: 1 <= q' < q ==> !Free(s, codes, q')
    ensures q == 1 || q <= s.checkLen
  {
    XCheckFrom(s, codes, 1)
  }

  /** The codes among the first len alphabet entries whose cell off base(n) is owned by n. */
  function ArcsOf(ab: Alphabet, s: Store, n: int, len: nat): (r: seq<int>)
    requires len <= |ab|
    ensures |r| <= len
    ensures forall c :: c in r <==>
              exists k :: 0 <= k < len && ab[k].1 == c && Check(s, Base(s, n) + c) == n
    ensures WellFormed(ab) ==> Positive(r)
  {
    if len == 0 then []
    else
      var c := ab[len - 1].1;
      var r := ArcsOf(ab, s, n, len - 1);
      if Check(s, Base(s, n) + c) == n then r + [c] else r
  }

  /** Entries whose cell is not owned by n add nothing to the list. */
  lemma {:induction false} ArcsOfSkip(ab: Alphabet, s: Store, n: int, lo: nat, hi: nat)
    requires lo <= hi <= |ab|
    requires forall k :: lo <= k < hi ==> Check(s, Base(s, n) + ab[k].1) != n
    ensures ArcsOf(ab, s, n, hi) == ArcsOf(ab, s, n, lo)
    decreases hi - lo
  {
    if lo < hi {
      ArcsOfSkip(ab, s, n, lo, hi - 1);
    }
  }

  /** `findArcs(n)`: the codes of n's children, in alphabet order: code c is listed exactly
      when the alphabet has it and the cell base(n) + c records n as its parent. */
  function Arcs(ab: Alphabet, s: Store, n: int): (r: seq<int>)
    ensures |r| <= |ab|
    ensures forall c :: c in r <==>
              exists k :: 0 <= k < |ab| && ab[k].1 == c && Check(s, Base(s, n) + c) == n
    ensures WellFormed(ab) ==> Positive(r)
  {
    ArcsOf(ab, s, n, |ab|)
  }
}
