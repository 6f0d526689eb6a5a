/** The four pieces of state of a double-array trie, as one value, with the accessors
    of lib/trie.js: positions are 1-based and a position never written reads as 0. */
module DoubleArray {
  import opened Alphabet

  /** `base` and `check` map a 1-based position to its value; `checkLen` is the length the
      source's `check` array has (the only array length the algorithms read); `tail` holds
      the compressed suffixes (0-based, as the array is indexed); `pos` is the 1-based first
      free position of the tail. */
  datatype Store = Store(base: map<int, int>, check: map<int, int>, checkLen: nat,
                         tail: seq<Cell>, pos: int)

  function Get(cells: map<int, int>, p: int): int
  {
    if p in cells then cells[p] else 0
  }

  /** getBase */
  function Base(s: Store, p: int): (v: int)
    ensures p !in s.base ==> v == 0
  {
    Get(s.base, p)
  }

  /** getCheck */
  function Check(s: Store, p: int): (v: int)
    ensures p !in s.check ==> v == 0
  {
    Get(s.check, p)
  }

  /** Position p of `check` has been written. */
  predicate InCheck(s: Store, p: int)
  {
    p in s.check
  }

  /** What every operation keeps: no `check` cell lies beyond the array's length, and the
      free cursor of the tail lies past every tail cell. */
  ghost predicate Valid(s: Store)
  {
    (forall p :: InCheck(s, p) ==> p <= s.checkLen) && |s.tail| < s.pos
  }

  /** setBase: position p reads v afterwards and no other position changes. */
  function SetBase(s: Store, p: int, v: int): (r: Store)
    ensures Base(r, p) == v && forall q {:trigger Base(r, q)} :: q != p ==> Base(r, q) == Base(s, q)
    ensures r.check == s.check && r.checkLen == s.checkLen && r.tail == s.tail && r.pos == s.pos
    ensures Valid(s) ==> Valid(r)
  {
    var r := s.(base := s.base[p := v]);
    assert forall q :: InCheck(r, q) ==> InCheck(s, q);
    r
  }

  /** setCheck: position p reads v afterwards, no other position changes, and the array
      grows to reach p when p lies past its end. */
  function SetCheck(s: Store, p: int, v: int): (r: Store)
    ensures Check(r, p) == v && forall q {:trigger Check(r, q)} :: q != p ==> Check(r, q) == Check(s, q)
    ensures r.checkLen == if p > s.checkLen then p else s.checkLen
    ensures r.base == s.base && r.tail == s.tail && r.pos == s.pos
    ensures Valid(s) ==> Valid(r)
  {
    var r := s.(check := s.check[p := v], checkLen := if p > s.checkLen then p else s.checkLen);
    assert forall q :: InCheck(r, q) ==> q == p || InCheck(s, q);
    r
  }

  /** The state of a new trie: the root's base is 1, nothing in the tail, cursor at 1. */
  const Initial: Store := Store(map[1 := 1], map[1 := 0], 1, [], 1)

  /** The dense view of positions 1 to len of a cell map, as the source's arrays print. */
  function Dense(cells: map<int, int>, len: nat): (r: seq<int>)
    ensures |r| == len
    ensures forall k :: 0 <= k < len ==> r[k] == Get(cells, k + 1)
  {
    seq(len, k => Get(cells, k + 1))
  }
}
