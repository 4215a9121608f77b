/** Machine words and the word-level primitives the bit-sequence code relies on
    (popcount, trailing/leading zero counts, low-bit masks, the all-or-none
    test, word rank and select). A word is modelled as its W bits, bit i being
    the bit of weight 2^i. */
module Words {

  /** The word width: the bitmaps instantiate the block type with 64-bit words. */
  const W: nat := 64

  type Word = s: seq<bool> | |s| == W witness seq(64, _ => false)

  datatype Option<T> = None | Some(value: T)

  /** The five block-wise operators of the bitmap algebra. As in the source,
      Nand is x & ~y and Nor is x | ~y: they are not the complements of And and Or. */
  datatype BoolOp = And | Or | Xor | Nand | Nor

  function Eval(op: BoolOp, x: bool, y: bool): bool
  {
    match op
    case And => x && y
    case Or => x || y
    case Xor => x != y
    case Nand => x && !y
    case Nor => x || !y
  }

  /** The all-zero word (word::none). */
  function Zero(): Word { seq(W, _ => false) }

  /** The all-one word (word::all). */
  function Ones(): Word { seq(W, _ => true) }

  /** Bitwise complement (~x). */
  function Not(x: Word): Word { seq(W, i requires 0 <= i < W => !x[i]) }

  /** A block-wise operator applied to two words, bit by bit. */
  function Combine(op: BoolOp, x: Word, y: Word): Word
  {
    seq(W, i requires 0 <= i < W => Eval(op, x[i], y[i]))
  }

  /** lsb_mask(n) and lsb_fill(n): the word whose n low bits are set. */
  function LsbMask(n: nat): Word
    requires n <= W
  {
    seq(W, i => i < n)
  }

  /** word::mask(i) = 1 << i; the single bit is shifted out when i >= W. */
  function SingleBit(i: nat): Word
  {
    seq(W, j => j == i)
  }

  /** all_or_none(x): every bit of x is 0, or every bit is 1. */
  predicate AllOrNone(x: Word)
  {
    x == Zero() || x == Ones()
  }

  /** all_or_none(x, n): the low n bits of x are all 0 or all 1 (the width caps n). */
  predicate AllOrNoneLow(x: Word, n: nat)
  {
    forall i :: 0 <= i < n && i < W ==> x[i] == x[0]
  }

  /** Number of positions of s holding the value b. */
  function Count(s: seq<bool>, b: bool): (n: nat)
    ensures n <= |s|
  {
    if s == [] then 0 else Count(s[..|s| - 1], b) + (if s[|s| - 1] == b then 1 else 0)
  }

  /** popcount(x). */
  function Popcount(x: Word): nat
  {
    Count(x, true)
  }

  /** The first position of s holding b, or |s| when there is none. */
  function IndexOf(s: seq<bool>, b: bool): (k: nat)
    ensures k <= |s|
    ensures k < |s| ==> s[k] == b
    ensures forall j :: 0 <= j < k ==> s[j] != b
  {
    if s == [] then 0 else if s[0] == b then 0 else 1 + IndexOf(s[1..], b)
  }

  /** The last position of s holding b, or -1 when there is none. */
  function LastIndexOf(s: seq<bool>, b: bool): (k: int)
    ensures -1 <= k < |s|
    ensures k >= 0 ==> s[k] == b
    ensures forall j :: k < j < |s| ==> s[j] != b
  {
    if s == [] then -1
    else if s[|s| - 1] == b then |s| - 1
    else LastIndexOf(s[..|s| - 1], b)
  }

  /** count_trailing_zeros(x): the position of the lowest set bit. */
  function Ctz(x: Word): (k: nat)
    requires x != Zero()
    ensures k < W && x[k] && forall j :: 0 <= j < k ==> !x[j]
  {
    ZeroIff(x);
    IndexOf(x, true)
  }

  /** count_leading_zeros(x): the number of zero bits above the highest set bit. */
  function Clz(x: Word): (k: nat)
    requires x != Zero()
    ensures k < W && x[W - 1 - k] && forall j :: W - 1 - k < j < W ==> !x[j]
  {
    ZeroIff(x);
    W - 1 - LastIndexOf(x, true)
  }

  /** word::rank(x, i): the number of set bits among positions [0, i]. */
  function WordRank(x: Word, i: nat): nat
    requires i < W
  {
    Count(x[..i + 1], true)
  }

  /** The position of the i-th (counting from 1) occurrence of b in s,
      or None when s holds fewer than i of them. */
  function SelectIn(s: seq<bool>, b: bool, i: nat): (r: Option<nat>)
    requires i > 0
    ensures r.Some? <==> Count(s, b) >= i
    ensures r.Some? ==> r.value < |s| && s[r.value] == b && Count(s[..r.value + 1], b) == i
  {
    if s == [] then None
    else
      var init := s[..|s| - 1];
      if Count(init, b) >= i then
        var r := SelectIn(init, b, i);
        assert s[..r.value + 1] == init[..r.value + 1];
        r
      else if s[|s| - 1] == b && Count(init, b) + 1 == i then
        assert s[..|s|] == s;
        Some(|s| - 1)
      else None
  }

  /** word::select(x, i): the position of the i-th set bit of x, or npos. */
  function WordSelect(x: Word, i: nat): Option<nat>
    requires i > 0
  {
    SelectIn(x, true, i)
  }

  /** A word is zero exactly when none of its bits is set. */
  lemma ZeroIff(x: Word)
    ensures x == Zero() <==> forall i :: 0 <= i < W ==> !x[i]
  {
    if forall i :: 0 <= i < W ==> !x[i] {
      assert x == Zero();
    }
  }

  /** A word is all ones exactly when every bit is set. */
  lemma OnesIff(x: Word)
    ensures x == Ones() <==> forall i :: 0 <= i < W ==> x[i]
  {
    if forall i :: 0 <= i < W ==> x[i] {
      assert x == Ones();
    }
  }

  /** An all-0/all-1 word repeats its lowest bit. */
  lemma AllOrNoneBits(x: Word)
    ensures AllOrNone(x) <==> forall i :: 0 <= i < W ==> x[i] == x[0]
  {
    ZeroIff(x);
    OnesIff(x);
  }

  // -- lemmas about counting ---------------------------------------------------

  /** Counting distributes over concatenation. */
  lemma {:induction false} CountAppend(a: seq<bool>, c: seq<bool>, b: bool)
    ensures Count(a + c, b) == Count(a, b) + Count(c, b)
  {
    if c == [] {
      assert a + c == a;
    } else {
      var c' := c[..|c| - 1];
      assert (a + c)[..|a + c| - 1] == a + c';
      CountAppend(a, c', b);
    }
  }

  /** Every position holds one of the two values. */
  lemma {:induction false} CountBoth(s: seq<bool>)
    ensures Count(s, true) + Count(s, false) == |s|
  {
    if s != [] {
      CountBoth(s[..|s| - 1]);
    }
  }

  /** A sequence of copies of v holds |s| copies of v and none of !v. */
  lemma {:induction false} CountConstant(s: seq<bool>, v: bool)
    requires forall j :: 0 <= j < |s| ==> s[j] == v
    ensures Count(s, v) == |s| && Count(s, !v) == 0
  {
    if s != [] {
      CountConstant(s[..|s| - 1], v);
    }
  }

  /** Counting the ones of a complement counts the zeros of the original. */
  lemma {:induction false} CountComplement(s: seq<bool>, t: seq<bool>, b: bool)
    requires |s| == |t|
    requires forall j :: 0 <= j < |s| ==> t[j] == !s[j]
    ensures Count(t, b) == Count(s, !b)
  {
    if s != [] {
      CountComplement(s[..|s| - 1], t[..|t| - 1], b);
    }
  }

  /** A longer prefix counts at least as many copies of b, and more when it ends on a b. */
  lemma CountPrefixGrows(s: seq<bool>, b: bool, k: nat, m: nat)
    requires k <= m <= |s|
    ensures Count(s[..k], b) <= Count(s[..m], b)
    ensures k < m && s[m - 1] == b ==> Count(s[..k], b) < Count(s[..m], b)
  {
    assert s[..m] == s[..k] + s[k..m];
    CountAppend(s[..k], s[k..m], b);
    if k < m {
      assert s[k..m][..m - k - 1] == s[k..m - 1];
    }
  }

  /** When a prefix of s already holds i copies of b, the i-th copy lies inside it. */
  lemma SelectInPrefix(s: seq<bool>, b: bool, i: nat, k: nat)
    requires i > 0 && k <= |s| && Count(s[..k], b) >= i
    ensures SelectIn(s, b, i).Some? && SelectIn(s, b, i).value < k
  {
    CountPrefixGrows(s, b, k, |s|);
    assert s[..|s|] == s;
    CountedInPrefix(s, b, k, SelectIn(s, b, i).value);
  }

  /** A position whose prefix counts no more copies of b than a prefix of
      length k does, and that holds b itself, lies inside that prefix. */
  lemma CountedInPrefix(s: seq<bool>, b: bool, k: nat, p: nat)
    requires k <= |s| && p < |s| && s[p] == b && Count(s[..p + 1], b) <= Count(s[..k], b)
    ensures p < k
  {
    if p >= k {
      CountPrefixGrows(s, b, k, p + 1);
    }
  }

  /** Applying an operator to two all-0/all-1 words yields an all-0/all-1 word,
      whose value is the operator applied to the two fill values. */
  lemma CombineFills(op: BoolOp, x: Word, y: Word)
    requires AllOrNone(x) && AllOrNone(y)
    ensures AllOrNone(Combine(op, x, y))
    ensures Combine(op, x, y) == Ones() <==> Eval(op, x == Ones(), y == Ones())
  {
    var c := Combine(op, x, y);
    var v := Eval(op, x == Ones(), y == Ones());
    assert x[0] == (x == Ones()) && y[0] == (y == Ones());
    assert forall i :: 0 <= i < W ==> c[i] == v;
    if v { assert c == Ones(); } else { assert c == Zero(); }
  }
}
