/** A bit sequence held in one word plus a length (the class template bits<T>).
    A run of at most W bits is a literal: only its `size` low bits are meaningful
    and the padding bits above them are zero. A longer run is a fill: its word
    is all 0s or all 1s and it stands for `size` copies of that bit. */
module Bits {
  import opened Words

  datatype Run = Run(data: Word, size: nat)

  /** The invariant every constructed run satisfies. */
  predicate Valid(r: Run)
  {
    && r.size > 0
    && (r.size < W ==> forall i :: r.size <= i < W ==> !r.data[i])
    && (r.size > W ==> AllOrNone(r.data))
  }

  /** The bits a run stands for, position 0 first. */
  function Expand(r: Run): (s: seq<bool>)
    ensures |s| == r.size
  {
    if r.size <= W then r.data[..r.size] else seq(r.size, _ => r.data[0])
  }

  /** bits::mask: keep the n low bits of x when n is below the width. */
  function Mask(x: Word, n: nat): Word
  {
    if n < W then Combine(And, x, LsbMask(n)) else x
  }

  /** The constructor bits(x, n). It asserts n <= W rather than the n < W its
      documentation states, so an arbitrary word of exactly W bits is accepted. */
  function Make(x: Word, n: nat): (r: Run)
    requires n > 0 && (n <= W || AllOrNone(x))
    ensures Valid(r) && r.size == n
    ensures n <= W ==> Expand(r) == x[..n]
    ensures n > W ==> forall i :: 0 <= i < n ==> Expand(r)[i] == x[0]
  {
    Run(Mask(x, n), n)
  }

  /** In a run longer than a word, every position holds the fill value. */
  lemma FillBits(r: Run)
    requires Valid(r) && r.size > W
    ensures forall i :: 0 <= i < r.size ==> Expand(r)[i] == (r.data == Ones())
  {
  }

  /** operator[] with the width test the code evidently intends (i >= W). */
  function At(r: Run, i: nat): (b: bool)
    requires Valid(r) && i < r.size
    ensures b == Expand(r)[i]
  {
    if i >= W then r.data != Zero() else r.data[i]
  }

  /** operator[] as written: it tests i > W, so position W of a fill is looked
      up in the word with the single-bit mask 1 << W. A shift by the full word
      width is undefined in C++; the model takes the empty mask, one of its
      possible outcomes, under which the lookup finds no bit. */
  function AtAsWritten(r: Run, i: nat): bool
    requires Valid(r) && i < r.size
  {
    if i > W then r.data != Zero() else Combine(And, r.data, SingleBit(i)) != Zero()
  }

  /** On a fill of ones, position W reads as 0 through the operator as written. */
  lemma AtAsWrittenMissesPositionW()
    ensures var r := Make(Ones(), 2 * W);
            Valid(r) && W < r.size && Expand(r)[W] && !AtAsWritten(r, W)
  {
    var r := Make(Ones(), 2 * W);
    var c := Combine(And, r.data, SingleBit(W));
    assert forall j :: 0 <= j < W ==> !c[j];
    ZeroIff(c);
  }

  /** homogeneous(): all bits of the run have the same value. */
  function Homogeneous(r: Run): (h: bool)
    requires Valid(r)
    ensures h <==> forall i :: 0 <= i < r.size ==> Expand(r)[i] == Expand(r)[0]
  {
    AllOrNoneBits(r.data);
    assert r.size == W ==> Expand(r) == r.data;
    assert r.size < W ==> forall i :: 0 <= i < r.size ==> Expand(r)[i] == r.data[i];
    if r.size == W then AllOrNone(r.data)
    else AllOrNoneLow(r.data, r.size)
  }

  /** count(): the number of 1-bits of the run. */
  function CountOnes(r: Run): (n: nat)
    requires Valid(r)
    ensures n == Count(Expand(r), true) && n <= r.size
  {
    CountRun(r);
    if r.size <= W && r.data != Zero() then Popcount(r.data)
    else if r.data == Ones() then r.size
    else 0
  }

  lemma CountRun(r: Run)
    requires Valid(r)
    ensures r.size <= W ==> Popcount(r.data) == Count(Expand(r), true)
    ensures r.size <= W && r.data == Zero() ==> Count(Expand(r), true) == 0
    ensures r.size > W ==> Count(Expand(r), true) == if r.data == Ones() then r.size else 0
  {
    if r.size <= W {
      assert r.data == r.data[..r.size] + r.data[r.size..];
      CountAppend(r.data[..r.size], r.data[r.size..], true);
      CountConstant(r.data[r.size..], false);
      if r.data == Zero() {
        CountConstant(Expand(r), false);
      }
    } else {
      CountConstant(Expand(r), r.data == Ones());
    }
  }

  /** The word searched for bit value b: the data itself, or its complement. */
  function Target(r: Run, b: bool): Word
  {
    if b then r.data else Not(r.data)
  }

  /** How the searched word relates to the run's bits. */
  lemma TargetBits(r: Run, b: bool)
    requires Valid(r)
    ensures r.size <= W ==> forall j :: 0 <= j < r.size ==> (Expand(r)[j] == b <==> Target(r, b)[j])
    ensures r.size < W ==> forall j :: r.size <= j < W ==> Target(r, b)[j] == !b
    ensures r.size > W ==> AllOrNone(Target(r, b))
    ensures r.size > W && Target(r, b) == Ones() ==> forall j :: 0 <= j < r.size ==> Expand(r)[j] == b
    ensures r.size > W && Target(r, b) != Ones() ==> forall j :: 0 <= j < r.size ==> Expand(r)[j] != b
  {
    if r.size > W {
      AllOrNoneBits(r.data);
      AllOrNoneBits(Target(r, b));
      OnesIff(Target(r, b));
    }
  }

  /** Counting b in a prefix of a literal counts the ones of the searched word. */
  lemma TargetPrefixCount(r: Run, b: bool, k: nat)
    requires Valid(r) && k <= r.size <= W
    ensures Count(Expand(r)[..k], b) == Count(Target(r, b)[..k], true)
  {
    assert Expand(r)[..k] == r.data[..k];
    if !b {
      CountComplement(r.data[..k], Target(r, b)[..k], true);
    }
  }

  /** The bits of a masked word. */
  lemma MaskBits(x: Word, n: nat)
    ensures forall j :: 0 <= j < W ==> Mask(x, n)[j] == (x[j] && j < n)
  {
  }

  /** find_first<Bit>(). For Bit = false on a literal shorter than a word the
      complemented padding answers r.size when no position of the run holds 0. */
  function FindFirst(r: Run, b: bool): (p: Option<nat>)
    requires Valid(r)
    ensures p.Some? && p.value < r.size ==>
              Expand(r)[p.value] == b && forall j :: 0 <= j < p.value ==> Expand(r)[j] != b
    ensures p.None? || p.value >= r.size ==> forall j :: 0 <= j < r.size ==> Expand(r)[j] != b
    ensures b || r.size >= W ==> p.None? || p.value < r.size
    ensures !b && r.size < W ==> p.Some? && p.value <= r.size
  {
    var d := Target(r, b);
    TargetBits(r, b);
    ZeroIff(d);
    assert !b && r.size < W ==> d[r.size];
    if r.size > W then (if d == Ones() then Some(0) else None)
    else if d == Zero() then None
    else Some(Ctz(d))
  }

  /** find_first with the complement restricted to the run's own bits: the
      exact first position holding b, or None. */
  function FindFirstInRun(r: Run, b: bool): (p: Option<nat>)
    requires Valid(r)
    ensures p.Some? ==> p.value < r.size && Expand(r)[p.value] == b
                        && forall j :: 0 <= j < p.value ==> Expand(r)[j] != b
    ensures p.None? ==> forall j :: 0 <= j < r.size ==> Expand(r)[j] != b
  {
    var d := if r.size <= W then Mask(Target(r, b), r.size) else Target(r, b);
    TargetBits(r, b);
    MaskBits(Target(r, b), r.size);
    ZeroIff(d);
    if r.size > W then (if d == Ones() then Some(0) else None)
    else if d == Zero() then None
    else Some(Ctz(d))
  }

  /** The literal 11 of two bits holds no 0, yet find_first<false> reports position 2. */
  lemma FindFirstFalsePastEnd()
    ensures var r := Make(LsbMask(2), 2);
            FindFirst(r, false) == Some(2) && FindFirstInRun(r, false).None?
  {
    var r := Make(LsbMask(2), 2);
    var d := Not(r.data);
    assert !d[0] && !d[1] && d[2];
  }

  /** find_next<Bit>(i): the next position after i holding b. */
  function FindNext(r: Run, b: bool, i: nat): (p: Option<nat>)
    requires Valid(r)
    ensures i + 1 >= r.size ==> p.None?
    ensures p.Some? ==> p.value > i
    ensures p.Some? && p.value < r.size ==>
              Expand(r)[p.value] == b && forall j :: i < j < p.value ==> Expand(r)[j] != b
    ensures p.None? || p.value >= r.size ==> forall j :: i < j < r.size ==> Expand(r)[j] != b
    ensures b || r.size >= W ==> p.None? || p.value < r.size
    ensures !b && i + 1 < r.size < W ==> p.Some? && p.value <= r.size
  {
    if i >= r.size - 1 then None
    else
      var d := Target(r, b);
      TargetBits(r, b);
      if r.size > W then (if d == Ones() then Some(i + 1) else None)
      else FindNextInLiteral(r, b, i)
  }

  /** find_next on a literal: the lowest occurrence of b above i, found by
      masking off the bits up to i. */
  function FindNextInLiteral(r: Run, b: bool, i: nat): (p: Option<nat>)
    requires Valid(r) && i + 1 < r.size <= W
    ensures p.Some? ==> p.value > i
    ensures p.Some? && p.value < r.size ==>
              Expand(r)[p.value] == b && forall j :: i < j < p.value ==> Expand(r)[j] != b
    ensures p.None? || p.value >= r.size ==> forall j :: i < j < r.size ==> Expand(r)[j] != b
    ensures b || r.size == W ==> p.None? || p.value < r.size
    ensures !b && r.size < W ==> p.Some? && p.value <= r.size
  {
    var d := Target(r, b);
    TargetBits(r, b);
    var rest := Combine(And, d, Not(LsbMask(i + 1)));
    assert forall j :: 0 <= j < W ==> rest[j] == (d[j] && j > i);
    ZeroIff(rest);
    assert !b && r.size < W ==> rest[r.size];
    if rest == Zero() then None else Some(Ctz(rest))
  }

  /** find_last<Bit>(). For Bit = false on a literal shorter than a word the
      complemented padding makes the answer W - 1 whatever the run holds. */
  function FindLast(r: Run, b: bool): (p: Option<nat>)
    requires Valid(r)
    ensures p.Some? && p.value < r.size ==>
              Expand(r)[p.value] == b && forall j :: p.value < j < r.size ==> Expand(r)[j] != b
    ensures p.None? ==> forall j :: 0 <= j < r.size ==> Expand(r)[j] != b
    ensures b || r.size >= W ==> p.None? || p.value < r.size
    ensures !b && r.size < W ==> p == Some(W - 1)
  {
    var d := Target(r, b);
    TargetBits(r, b);
    ZeroIff(d);
    assert !b && r.size < W ==> d[W - 1];
    if r.size > W then (if d == Ones() then Some(r.size - 1) else None)
    else if d == Zero() then None
    else Some(W - Clz(d) - 1)
  }

  /** find_last with the complement restricted to the run's own bits: the
      exact last position holding b, or None. */
  function FindLastInRun(r: Run, b: bool): (p: Option<nat>)
    requires Valid(r)
    ensures p.Some? ==> p.value < r.size && Expand(r)[p.value] == b
                        && forall j :: p.value < j < r.size ==> Expand(r)[j] != b
    ensures p.None? ==> forall j :: 0 <= j < r.size ==> Expand(r)[j] != b
  {
    var d := if r.size <= W then Mask(Target(r, b), r.size) else Target(r, b);
    TargetBits(r, b);
    MaskBits(Target(r, b), r.size);
    ZeroIff(d);
    if r.size > W then (if d == Ones() then Some(r.size - 1) else None)
    else if d == Zero() then None
    else Some(W - Clz(d) - 1)
  }

  /** The literal 0101 (positions 0 and 2 set) has its last 0 at position 3,
      yet find_last<false> reports position W - 1. */
  lemma FindLastFalseInPadding()
    ensures var r := Make(seq(W, i => i == 0 || i == 2), 4);
            FindLast(r, false) == Some(W - 1) && FindLastInRun(r, false) == Some(3)
  {
    var r := Make(seq(W, i => i == 0 || i == 2), 4);
    var d := Not(r.data);
    assert d[W - 1];
    var m := Mask(d, 4);
    assert m[3] && forall j :: 3 < j < W ==> !m[j];
  }

  /** rank<Bit>(b, i): the number of positions in [0, i] holding Bit. */
  function Rank(r: Run, b: bool, i: nat): (n: nat)
    requires Valid(r) && i < r.size
    ensures n == Count(Expand(r)[..i + 1], b)
  {
    var d := Target(r, b);
    RankRun(r, b, i);
    if r.size > W then (if d == Zero() then 0 else i + 1)
    else if i == W - 1 then (if d == Zero() then 0 else Popcount(d))
    else WordRank(d, i)
  }

  lemma RankRun(r: Run, b: bool, i: nat)
    requires Valid(r) && i < r.size
    ensures r.size > W ==> Count(Expand(r)[..i + 1], b) == if Target(r, b) == Zero() then 0 else i + 1
    ensures r.size <= W ==> Count(Expand(r)[..i + 1], b) == WordRank(Target(r, b), i)
    ensures r.size <= W && i == W - 1 ==>
              Count(Expand(r)[..i + 1], b) == if Target(r, b) == Zero() then 0 else Popcount(Target(r, b))
  {
    var d := Target(r, b);
    var pre := Expand(r)[..i + 1];
    if r.size > W {
      var v := r.data == Ones();
      assert d == Zero() <==> v != b;
      CountConstant(pre, v);
    } else {
      assert pre == r.data[..i + 1];
      if !b {
        CountComplement(r.data[..i + 1], d[..i + 1], true);
      }
      if i == W - 1 {
        assert d[..i + 1] == d;
        if d == Zero() {
          CountConstant(d, false);
        }
      }
    }
  }

  /** The two instances of rank split the positions [0, i] between them. */
  lemma RankBoth(r: Run, i: nat)
    requires Valid(r) && i < r.size
    ensures Rank(r, true, i) + Rank(r, false, i) == i + 1
  {
    CountBoth(Expand(r)[..i + 1]);
  }

  /** rank<Bit>(b): the number of positions of the run holding Bit. */
  function RankAll(r: Run, b: bool): (n: nat)
    requires Valid(r)
    ensures n == Count(Expand(r), b)
  {
    assert Expand(r)[..r.size] == Expand(r);
    Rank(r, b, r.size - 1)
  }

  /** select<Bit>(b, i): the position of the i-th occurrence of Bit. On a literal
      with Bit = false the padding can again answer with a position past the end. */
  function Select(r: Run, b: bool, i: nat): (p: Option<nat>)
    requires Valid(r) && 0 < i <= r.size
    ensures p.Some? && p.value < r.size ==>
              Expand(r)[p.value] == b && Count(Expand(r)[..p.value + 1], b) == i
    ensures p.None? ==> Count(Expand(r), b) < i
    ensures b || r.size >= W ==> (p.Some? <==> Count(Expand(r), b) >= i)
    ensures b || r.size >= W ==> p.Some? ==> p.value < r.size
    ensures Count(Expand(r), b) >= i ==> p.Some? && p.value < r.size
  {
    SelectRun(r, b, i);
    var d := Target(r, b);
    if r.size > W then (if d == Ones() then Some(i - 1) else None)
    else
      SelectLiteral(r, b, i);
      WordSelect(d, i)
  }

  /** On a literal, a position the word select finds inside the run is the i-th
      occurrence of b, and when the run holds i occurrences it finds one there. */
  lemma SelectLiteral(r: Run, b: bool, i: nat)
    requires Valid(r) && 0 < i <= r.size <= W
    ensures var p := WordSelect(Target(r, b), i);
            p.Some? && p.value < r.size ==> Expand(r)[p.value] == b && Count(Expand(r)[..p.value + 1], b) == i
    ensures Count(Expand(r), b) >= i ==> WordSelect(Target(r, b), i).Some? && WordSelect(Target(r, b), i).value < r.size
  {
    var p := WordSelect(Target(r, b), i);
    if p.Some? && p.value < r.size {
      TargetBits(r, b);
      TargetPrefixCount(r, b, p.value + 1);
    }
    if Count(Expand(r), b) >= i {
      TargetPrefixCount(r, b, r.size);
      assert Expand(r)[..r.size] == Expand(r);
      SelectInPrefix(Target(r, b), true, i, r.size);
    }
  }

  lemma SelectRun(r: Run, b: bool, i: nat)
    requires Valid(r) && 0 < i <= r.size
    ensures r.size > W ==> (Target(r, b) == Ones() <==> Count(Expand(r), b) >= i)
    ensures r.size > W && Target(r, b) == Ones() ==>
              Expand(r)[i - 1] == b && Count(Expand(r)[..i], b) == i
    ensures r.size <= W ==> Count(Expand(r), b) <= Count(Target(r, b), true)
    ensures r.size <= W && (b || r.size == W) ==> Count(Expand(r), b) == Count(Target(r, b), true)
  {
    var d := Target(r, b);
    TargetBits(r, b);
    if r.size > W {
      if d == Ones() {
        CountConstant(Expand(r), b);
        CountConstant(Expand(r)[..i], b);
      } else {
        CountConstant(Expand(r), !b);
      }
    } else {
      assert d == d[..r.size] + d[r.size..];
      CountAppend(d[..r.size], d[r.size..], true);
      CountConstant(d[r.size..], !b);
      TargetPrefixCount(r, b, r.size);
      assert Expand(r)[..r.size] == Expand(r) && d[..r.size] == d[..r.size];
    }
  }
}
