/** The generic bitmap algorithms: the two-way merge bitmap_apply with its five
    instances, and rank and select over a whole bitmap. */
module BitmapAlgorithms {
  import opened Words
  import opened Bits
  import opened Bitmaps

  function Min(a: nat, b: nat): nat { if a < b then a else b }
  function Max(a: nat, b: nat): nat { if a < b then b else a }

  /** n rounded up to a multiple of the word width. */
  function RoundUp(n: nat): nat { (n + W - 1) / W * W }

  /** The number of bits the merge loop produces for operands of a and b bits:
      it works in whole words, so it runs past the shorter operand up to the
      next word boundary, but never past the longer one. */
  function MergeEnd(a: nat, b: nat): nat { Min(Max(a, b), RoundUp(Min(a, b))) }

  /** Bit p of s, or 0 past its end (the masked-off bits of a partial word). */
  ghost function ZeroExt(s: seq<bool>, p: int): bool { 0 <= p < |s| && s[p] }

  /** Bit p of the result of bitmap_apply on non-empty operands with bits L and
      R: the operator on zero-extended operands up to MergeEnd, then the rest of
      the longer operand if its flag is set, and zeros otherwise. */
  ghost function SpecBit(op: BoolOp, fl: bool, fr: bool, L: seq<bool>, R: seq<bool>, p: int): bool
  {
    if p < MergeEnd(|L|, |R|) then Eval(op, ZeroExt(L, p), ZeroExt(R, p))
    else if |L| > |R| then fl && ZeroExt(L, p)
    else fr && ZeroExt(R, p)
  }

  /** The bits bitmap_apply<fl, fr> produces; an empty operand yields the other unchanged. */
  ghost function ApplySpec(op: BoolOp, fl: bool, fr: bool, L: seq<bool>, R: seq<bool>): (s: seq<bool>)
    ensures |s| == Max(|L|, |R|)
  {
    if L == [] then R
    else if R == [] then L
    else seq(Max(|L|, |R|), p => SpecBit(op, fl, fr, L, R, p))
  }

  /** The behaviour the documentation of bitmap_apply describes: the operator on
      the common prefix, then the remaining bits of the longer operand when its
      flag is set, and zeros otherwise. */
  ghost function Documented(op: BoolOp, fl: bool, fr: bool, L: seq<bool>, R: seq<bool>): (s: seq<bool>)
    ensures |s| == Max(|L|, |R|)
  {
    seq(Max(|L|, |R|), p requires 0 <= p =>
      if p < |L| && p < |R| then Eval(op, L[p], R[p])
      else if p < |L| then fl && L[p]
      else fr && p < |R| && R[p])
  }

  /** The operator leaves a bit of one operand facing a 0 of the other exactly
      as the flags say the tail of that operand is treated: op(x, 0) == fl && x
      and op(0, y) == fr && y for both values of x and y. */
  predicate PassThrough(op: BoolOp, fl: bool, fr: bool)
  {
    !Eval(op, false, false) && Eval(op, true, false) == fl && Eval(op, false, true) == fr
  }

  /** The fill test of bitmap_apply: a homogeneous run of at least one word. */
  function IsFill(r: Run): (f: bool)
    requires Valid(r)
    ensures f <==> r.size >= W && AllOrNone(r.data)
  {
    AllOrNoneBits(r.data);
    assert r.size == W ==> Expand(r) == r.data;
    assert r.size > W ==> Expand(r)[0] == r.data[0];
    Homogeneous(r) && r.size >= W
  }

  /** The shape the merge relies on, which the containers' bit ranges have. */
  ghost predicate Input(bm: Bitmap)
  {
    ValidBitmap(bm) && Aligned(bm)
  }

  /** Run k still has `bits` unconsumed bits: all of a literal, or a
      whole-word remainder of a fill. */
  ghost predicate Live(bm: Bitmap, k: nat, bits: nat)
  {
    && ValidBitmap(bm) && k < |bm| && 0 < bits <= bm[k].size
    && (IsFill(bm[k]) ==> bits % W == 0)
    && (!IsFill(bm[k]) ==> bits == bm[k].size)
  }

  /** One operand's cursor after s result bits: exhausted with all its bits
      covered, or inside run k with exactly s bits consumed, s a whole number of words. */
  ghost predicate Cursor(bm: Bitmap, k: nat, bits: nat, s: nat)
  {
    if k < |bm| then Live(bm, k, bits) && Size(bm[..k]) + bm[k].size - bits == s && s % W == 0
    else k == |bm| && Size(bm) <= s
  }

  /** The word the merge loop feeds the operator for a live run. */
  ghost function SideWord(r: Run, bits: nat): Word
  {
    if Valid(r) && IsFill(r) then r.data else Combine(And, r.data, LsbMask(if bits <= W then bits else W))
  }

  /** out holds the first |out| bits of the result. */
  ghost predicate Agrees(out: seq<bool>, op: BoolOp, fl: bool, fr: bool, L: seq<bool>, R: seq<bool>)
  {
    forall p :: 0 <= p < |out| ==> out[p] == SpecBit(op, fl, fr, L, R, p)
  }

  /** The bits w are the bits of the result from position s on. */
  ghost predicate Extends(s: nat, w: seq<bool>, op: BoolOp, fl: bool, fr: bool, L: seq<bool>, R: seq<bool>)
  {
    forall p :: s <= p < s + |w| ==> SpecBit(op, fl, fr, L, R, p) == w[p - s]
  }

  /** The state of bitmap_apply once the merge loop is over: both cursors
      consistent with the bits produced, one operand exhausted, and the result
      agreeing with the specification on every bit produced so far. */
  ghost predicate Merged(op: BoolOp, fl: bool, fr: bool, lhs: Bitmap, rhs: Bitmap, result: Bitmap,
                         li: nat, ri: nat, lbits: nat, rbits: nat)
  {
    && Input(lhs) && Input(rhs) && lhs != [] && rhs != []
    && Cursor(lhs, li, lbits, Size(result)) && Cursor(rhs, ri, rbits, Size(result))
    && (li == |lhs| || ri == |rhs|)
    && MergeEnd(Size(lhs), Size(rhs)) <= Size(result) <= Max(Size(lhs), Size(rhs))
    && Input(result) && Agrees(Decode(result), op, fl, fr, Decode(lhs), Decode(rhs))
  }

  /** The invariant of the merge loop. */
  ghost predicate Merging(op: BoolOp, fl: bool, fr: bool, lhs: Bitmap, rhs: Bitmap, result: Bitmap,
                          li: nat, ri: nat, lbits: nat, rbits: nat)
  {
    && Cursor(lhs, li, lbits, Size(result)) && Cursor(rhs, ri, rbits, Size(result))
    && Size(result) <= MergeEnd(Size(lhs), Size(rhs))
    && Input(result) && Agrees(Decode(result), op, fl, fr, Decode(lhs), Decode(rhs))
  }

  /** bitmap_apply<fl, fr>(lhs, rhs, op). */
  method Apply(op: BoolOp, fl: bool, fr: bool, lhs: Bitmap, rhs: Bitmap) returns (result: Bitmap)
    requires Input(lhs) && Input(rhs)
    ensures Input(result)
    ensures lhs == [] ==> result == rhs
    ensures lhs != [] && rhs == [] ==> result == lhs
    ensures Decode(result) == ApplySpec(op, fl, fr, Decode(lhs), Decode(rhs))
  {
    EmptyOperands(op, fl, fr, lhs, rhs);
    if lhs == [] && rhs == [] {
      return [];
    }
    if lhs == [] {
      return rhs;
    }
    if rhs == [] {
      return lhs;
    }
    var li, ri, lbits, rbits;
    result, li, ri, lbits, rbits := Merge(op, fl, fr, lhs, rhs);
    ghost var merged := result;
    if fl {
      result, li, lbits := CopyLeftTail(op, fl, fr, lhs, rhs, result, li, ri, lbits, rbits);
    }
    if fr {
      result, ri, rbits := CopyRightTail(op, fl, fr, lhs, rhs, result, li, ri, lbits, rbits);
    }
    assert li < |lhs| ==> !fl && result == merged;
    assert ri < |rhs| ==> !fr && result == merged;
    Finish(op, fl, fr, lhs, rhs, result, li, ri, lbits, rbits);
    result := PadWithZeros(op, fl, fr, lhs, rhs, result);
  }

  /** The last step of bitmap_apply: zeros up to the size of the longer operand. */
  method PadWithZeros(op: BoolOp, fl: bool, fr: bool, lhs: Bitmap, rhs: Bitmap, result: Bitmap)
    returns (padded: Bitmap)
    requires Ready(op, fl, fr, lhs, rhs, result)
    ensures Input(padded)
    ensures Decode(padded) == ApplySpec(op, fl, fr, Decode(lhs), Decode(rhs))
  {
    padded := AppendBits(result, false, Max(Size(lhs), Size(rhs)) - Size(result));
    PadAgrees(op, fl, fr, lhs, rhs, result);
    Complete(op, fl, fr, lhs, rhs, padded);
  }

  /** The merge loop of bitmap_apply: it walks both operands run by run until
      one of them is exhausted, producing exactly MergeEnd bits. */
  method Merge(op: BoolOp, fl: bool, fr: bool, lhs: Bitmap, rhs: Bitmap)
    returns (result: Bitmap, li: nat, ri: nat, lbits: nat, rbits: nat)
    requires Input(lhs) && Input(rhs) && lhs != [] && rhs != []
    ensures Merged(op, fl, fr, lhs, rhs, result, li, ri, lbits, rbits)
    ensures Size(result) == MergeEnd(Size(lhs), Size(rhs))
  {
    result := [];
    li, ri := 0, 0;
    lbits, rbits := lhs[0].size, rhs[0].size;
    FirstCursor(lhs);
    FirstCursor(rhs);
    while LoopGuard(li, ri, |lhs|, |rhs|)
      invariant Merging(op, fl, fr, lhs, rhs, result, li, ri, lbits, rbits)
      decreases |lhs| - li + |rhs| - ri
    {
      LoopGuardInRange(li, ri, |lhs|, |rhs|);
      result, li, ri, lbits, rbits := MergeTurn(op, fl, fr, lhs, rhs, result, li, ri, lbits, rbits);
    }
    MergeDone(lhs, rhs, li, ri, lbits, rbits, Size(result));
    MinBelowEnd(Size(lhs), Size(rhs));
  }

  /** One turn of the merge loop consumes `used` of the `bits` unconsumed bits
      of an operand while the result grows from s to s2 bits: whole words, or
      the whole (possibly short) literal. */
  ghost predicate Consumes(bits: nat, used: nat, s: nat, s2: nat)
  {
    && 0 < used <= bits && (used % W == 0 || used == bits)
    && s2 >= s + used && (s2 > s + used ==> used == bits && bits < W)
  }

  /** What one turn of the merge loop produces before the cursors move. */
  ghost predicate Stepped(op: BoolOp, fl: bool, fr: bool, lhs: Bitmap, rhs: Bitmap, result: Bitmap, next: Bitmap,
                          lbits: nat, rbits: nat, lused: nat, rused: nat)
  {
    && Size(next) <= MergeEnd(Size(lhs), Size(rhs))
    && Input(next) && Agrees(Decode(next), op, fl, fr, Decode(lhs), Decode(rhs))
    && Consumes(lbits, lused, Size(result), Size(next)) && Consumes(rbits, rused, Size(result), Size(next))
    && (lused == lbits || rused == rbits)
  }

  /** One turn of the merge loop: a block for the current runs, then the cursors move on. */
  method MergeTurn(op: BoolOp, fl: bool, fr: bool, lhs: Bitmap, rhs: Bitmap, result: Bitmap,
                   li: nat, ri: nat, lbits: nat, rbits: nat)
    returns (next: Bitmap, li': nat, ri': nat, lbits': nat, rbits': nat)
    requires Input(lhs) && Input(rhs) && li < |lhs| && ri < |rhs|
    requires Merging(op, fl, fr, lhs, rhs, result, li, ri, lbits, rbits)
    ensures Merging(op, fl, fr, lhs, rhs, next, li', ri', lbits', rbits')
    ensures li <= li' <= |lhs| && ri <= ri' <= |rhs| && li + ri < li' + ri'
  {
    var lused, rused;
    next, lused, rused := MergeBlock(op, fl, fr, lhs, rhs, result, li, ri, lbits, rbits);
    li', lbits' := MoveCursor(lhs, li, lbits, lused, Size(result), Size(next));
    ri', rbits' := MoveCursor(rhs, ri, rbits, rused, Size(result), Size(next));
  }

  /** The block one turn of the merge loop appends, by the kinds of the two current runs. */
  method MergeBlock(op: BoolOp, fl: bool, fr: bool, lhs: Bitmap, rhs: Bitmap, result: Bitmap,
                    li: nat, ri: nat, lbits: nat, rbits: nat) returns (next: Bitmap, lused: nat, rused: nat)
    requires Input(lhs) && Input(rhs) && li < |lhs| && ri < |rhs|
    requires Merging(op, fl, fr, lhs, rhs, result, li, ri, lbits, rbits)
    ensures Stepped(op, fl, fr, lhs, rhs, result, next, lbits, rbits, lused, rused)
  {
    if IsFill(lhs[li]) && IsFill(rhs[ri]) {
      next, lused, rused := FillFillBlock(op, fl, fr, lhs, rhs, result, li, ri, lbits, rbits);
    } else {
      next, lused, rused := MixedBlock(op, fl, fr, lhs, rhs, result, li, ri, lbits, rbits);
    }
  }

  /** The merge loop on two fills: the operator on the two fill words,
      appended for as many bits as the shorter remainder holds. */
  method FillFillBlock(op: BoolOp, fl: bool, fr: bool, lhs: Bitmap, rhs: Bitmap, result: Bitmap,
                       li: nat, ri: nat, lbits: nat, rbits: nat) returns (next: Bitmap, lused: nat, rused: nat)
    requires Input(lhs) && Input(rhs) && li < |lhs| && ri < |rhs|
    requires Merging(op, fl, fr, lhs, rhs, result, li, ri, lbits, rbits)
    requires IsFill(lhs[li]) && IsFill(rhs[ri])
    ensures Stepped(op, fl, fr, lhs, rhs, result, next, lbits, rbits, lused, rused)
  {
    var m := Min(lbits, rbits);
    var block := Combine(op, lhs[li].data, rhs[ri].data);
    FillFillStep(op, fl, fr, lhs, rhs, li, ri, lbits, rbits, Decode(result));
    next := AppendBits(result, block != Zero(), m);
    lused, rused := m, m;
  }

  /** The merge loop with at least one literal: one word, each literal masked
      to its bits, covering a whole word or the longer of two literals. */
  method MixedBlock(op: BoolOp, fl: bool, fr: bool, lhs: Bitmap, rhs: Bitmap, result: Bitmap,
                    li: nat, ri: nat, lbits: nat, rbits: nat) returns (next: Bitmap, lused: nat, rused: nat)
    requires Input(lhs) && Input(rhs) && li < |lhs| && ri < |rhs|
    requires Merging(op, fl, fr, lhs, rhs, result, li, ri, lbits, rbits)
    requires !(IsFill(lhs[li]) && IsFill(rhs[ri]))
    ensures Stepped(op, fl, fr, lhs, rhs, result, next, lbits, rbits, lused, rused)
  {
    CursorBits(lhs, li, lbits, Size(result));
    CursorBits(rhs, ri, rbits, Size(result));
    var x := if IsFill(lhs[li]) then lhs[li].data else Combine(And, lhs[li].data, LsbMask(lbits));
    var y := if IsFill(rhs[ri]) then rhs[ri].data else Combine(And, rhs[ri].data, LsbMask(rbits));
    var block := Combine(op, x, y);
    var n := if IsFill(lhs[li]) || IsFill(rhs[ri]) then W else Max(lbits, rbits);
    MixedStep(op, fl, fr, lhs, rhs, li, ri, lbits, rbits, Decode(result), block, n);
    next := AppendBlock(result, block, n);
    lused := if IsFill(lhs[li]) then W else lbits;
    rused := if IsFill(rhs[ri]) then W else rbits;
  }

  /** The cursor update of the merge loop: a run whose bits are all consumed
      gives way to the next run of the operand. */
  method MoveCursor(bm: Bitmap, k0: nat, bits0: nat, used: nat, ghost s: nat, ghost s2: nat) returns (k: nat, bits: nat)
    requires Input(bm) && k0 < |bm| && Cursor(bm, k0, bits0, s) && Consumes(bits0, used, s, s2)
    ensures Cursor(bm, k, bits, s2)
    ensures used == bits0 ==> k == k0 + 1
    ensures used < bits0 ==> k == k0
  {
    k, bits := k0, bits0 - used;
    if bits == 0 {
      k := k0 + 1;
      if k < |bm| {
        bits := bm[k].size;
      }
    }
    Advance(bm, k0, bits0, used, k, bits, s, s2);
  }

  /** The tail loop of bitmap_apply for the left operand: the runs it has
      left are copied to the result, a fill with its unconsumed remainder. */
  method CopyLeftTail(op: BoolOp, fl: bool, fr: bool, lhs: Bitmap, rhs: Bitmap, result0: Bitmap,
                     li0: nat, ri: nat, lbits0: nat, rbits: nat) returns (result: Bitmap, li: nat, lbits: nat)
    requires fl && Merged(op, fl, fr, lhs, rhs, result0, li0, ri, lbits0, rbits)
    ensures li == |lhs| && Merged(op, fl, fr, lhs, rhs, result, li, ri, lbits, rbits)
    ensures ri < |rhs| ==> result == result0
  {
    result, li, lbits := result0, li0, lbits0;
    while li < |lhs|
      invariant Merged(op, fl, fr, lhs, rhs, result, li, ri, lbits, rbits)
      invariant ri < |rhs| ==> result == result0
      decreases |lhs| - li
    {
      ghost var s := Size(result);
      ghost var out := Decode(result);
      TailLeftStep(op, fl, fr, lhs, rhs, li, lbits, out);
      if IsFill(lhs[li]) {
        result := AppendBits(result, lhs[li].data != Zero(), lbits);
      } else {
        result := AppendBlock(result, lhs[li].data, lhs[li].size);
      }
      ghost var k0, b0 := li, lbits;
      li := li + 1;
      if li < |lhs| {
        lbits := lhs[li].size;
      }
      Advance(lhs, k0, b0, b0, li, lbits, s, Size(result));
    }
  }

  /** The tail loop of bitmap_apply for the right operand: the runs it has
      left are copied to the result, a fill with its unconsumed remainder. */
  method CopyRightTail(op: BoolOp, fl: bool, fr: bool, lhs: Bitmap, rhs: Bitmap, result0: Bitmap,
                     li: nat, ri0: nat, lbits: nat, rbits0: nat) returns (result: Bitmap, ri: nat, rbits: nat)
    requires fr && Merged(op, fl, fr, lhs, rhs, result0, li, ri0, lbits, rbits0)
    ensures ri == |rhs| && Merged(op, fl, fr, lhs, rhs, result, li, ri, lbits, rbits)
    ensures li < |lhs| ==> result == result0
  {
    result, ri, rbits := result0, ri0, rbits0;
    while ri < |rhs|
      invariant Merged(op, fl, fr, lhs, rhs, result, li, ri, lbits, rbits)
      invariant li < |lhs| ==> result == result0
      decreases |rhs| - ri
    {
      ghost var s := Size(result);
      ghost var out := Decode(result);
      TailRightStep(op, fl, fr, lhs, rhs, ri, rbits, out);
      if IsFill(rhs[ri]) {
        result := AppendBits(result, rhs[ri].data != Zero(), rbits);
      } else {
        result := AppendBlock(result, rhs[ri].data, rhs[ri].size);
      }
      ghost var k0, b0 := ri, rbits;
      ri := ri + 1;
      if ri < |rhs| {
        rbits := rhs[ri].size;
      }
      Advance(rhs, k0, b0, b0, ri, rbits, s, Size(result));
    }
  }

  // -- the proof of the merge ---------------------------------------------------

  lemma RoundUpFacts(m: nat, s: nat)
    requires s % W == 0
    ensures m <= RoundUp(m) && RoundUp(m) % W == 0
    ensures s < m ==> s + W <= RoundUp(m)
    ensures m <= s ==> RoundUp(m) <= s
  {
  }

  /** The merge covers at least the shorter operand. */
  lemma MinBelowEnd(a: nat, b: nat)
    ensures Min(a, b) <= MergeEnd(a, b) <= Max(a, b)
  {
    RoundUpFacts(Min(a, b), 0);
  }

  lemma FirstCursor(bm: Bitmap)
    requires Input(bm) && bm != []
    ensures Cursor(bm, 0, bm[0].size, 0)
  {
    assert bm[..0] == [];
  }

  /** How many bits a live run can have left. */
  lemma CursorBits(bm: Bitmap, k: nat, bits: nat, s: nat)
    requires Input(bm) && k < |bm| && Cursor(bm, k, bits, s)
    ensures 0 < bits
    ensures IsFill(bm[k]) ==> W <= bits && bits % W == 0
    ensures !IsFill(bm[k]) ==> bits <= W
  {
    if IsFill(bm[k]) {
      MultipleAtLeast(bits);
    }
  }

  lemma MultipleAtLeast(n: nat)
    requires 0 < n && n % W == 0
    ensures W <= n
  {
  }

  /** What the merge loop reads from the live run k of one operand when s bits
      of it are consumed. */
  lemma SideBits(bm: Bitmap, k: nat, bits: nat, s: nat)
    requires Input(bm) && k < |bm| && Cursor(bm, k, bits, s)
    ensures s + bits <= Size(bm)
    ensures !IsFill(bm[k]) ==> bits <= W && (bits < W ==> s + bits == Size(bm))
    ensures IsFill(bm[k]) ==> W <= bits
    ensures IsFill(bm[k]) ==> forall p :: s <= p < s + bits ==> Decode(bm)[p] == (bm[k].data != Zero())
    ensures !IsFill(bm[k]) ==> forall p :: s <= p < s + bits ==> Decode(bm)[p] == bm[k].data[p - s]
    ensures forall p :: s <= p < s + W ==> ZeroExt(Decode(bm), p) == SideWord(bm[k], bits)[p - s]
  {
    SideSize(bm, k, bits, s);
    SideValues(bm, k, bits, s);
    SideZero(Decode(bm), bm[k], bits, s);
  }

  /** The zero-extended operand bits the merge loop sees in one block. */
  lemma SideZero(d: seq<bool>, r: Run, bits: nat, s: nat)
    requires Valid(r) && 0 < bits && s + bits <= |d|
    requires !IsFill(r) ==> bits <= W && (bits < W ==> s + bits == |d|)
    requires IsFill(r) ==> W <= bits && forall p :: s <= p < s + bits ==> d[p] == (r.data != Zero())
    requires !IsFill(r) ==> forall p :: s <= p < s + bits ==> d[p] == r.data[p - s]
    ensures forall p :: s <= p < s + W ==> ZeroExt(d, p) == SideWord(r, bits)[p - s]
  {
    if IsFill(r) {
      AllOrNoneBits(r.data);
      assert Zero()[0] != Ones()[0];
    }
  }

  lemma SideSize(bm: Bitmap, k: nat, bits: nat, s: nat)
    requires Input(bm) && k < |bm| && Cursor(bm, k, bits, s)
    ensures s + bits <= Size(bm)
    ensures !IsFill(bm[k]) ==> bits <= W && (bits < W ==> s + bits == Size(bm))
    ensures IsFill(bm[k]) ==> W <= bits
  {
    CursorBits(bm, k, bits, s);
    SideEnd(bm, k, bits, s);
    SideLast(bm, k, bits, s);
  }

  lemma SideEnd(bm: Bitmap, k: nat, bits: nat, s: nat)
    requires Input(bm) && k < |bm| && Cursor(bm, k, bits, s)
    ensures s + bits <= Size(bm)
  {
    DecodePrefix(bm, k + 1);
    DecodeAt(bm, k, Size(bm[..k]));
  }

  lemma SideLast(bm: Bitmap, k: nat, bits: nat, s: nat)
    requires Input(bm) && k < |bm| && Cursor(bm, k, bits, s)
    ensures !IsFill(bm[k]) && bits < W ==> s + bits == Size(bm)
  {
    if !IsFill(bm[k]) && bits < W {
      ShortRunIsLast(bm, k);
    }
  }

  lemma SideValues(bm: Bitmap, k: nat, bits: nat, s: nat)
    requires Input(bm) && k < |bm| && Cursor(bm, k, bits, s)
    ensures s + bits <= Size(bm)
    ensures !IsFill(bm[k]) ==> bits <= W
    ensures IsFill(bm[k]) ==> forall p :: s <= p < s + bits ==> Decode(bm)[p] == (bm[k].data != Zero())
    ensures !IsFill(bm[k]) ==> forall p :: s <= p < s + bits ==> Decode(bm)[p] == bm[k].data[p - s]
  {
    SideEnd(bm, k, bits, s);
    forall p | s <= p < s + bits
      ensures Decode(bm)[p] == if IsFill(bm[k]) then bm[k].data != Zero() else bm[k].data[p - s]
    {
      SideValueAt(bm, k, bits, s, p);
    }
  }

  /** One bit of the unconsumed part of a live run. */
  lemma SideValueAt(bm: Bitmap, k: nat, bits: nat, s: nat, p: nat)
    requires ValidBitmap(bm) && k < |bm| && bits <= bm[k].size
    requires Size(bm[..k]) + bm[k].size - bits == s <= p < s + bits
    ensures p < Size(bm)
    ensures IsFill(bm[k]) ==> Decode(bm)[p] == (bm[k].data != Zero())
    ensures !IsFill(bm[k]) ==> bits == bm[k].size ==> p - s < W && Decode(bm)[p] == bm[k].data[p - s]
  {
    DecodeAt(bm, k, p);
    RunValue(bm[k], p - Size(bm[..k]));
  }

  /** Bit i of a run: the fill value, or bit i of the literal's word. */
  lemma RunValue(r: Run, i: nat)
    requires Valid(r) && i < r.size
    ensures IsFill(r) ==> Expand(r)[i] == (r.data != Zero())
    ensures !IsFill(r) ==> i < W && Expand(r)[i] == r.data[i]
  {
    AllOrNoneBits(r.data);
    assert Zero()[0] != Ones()[0];
  }

  /** Both operands inside a fill: the block covers the shorter remainder. */
  lemma FillFill(op: BoolOp, fl: bool, fr: bool, lhs: Bitmap, rhs: Bitmap, li: nat, ri: nat,
                 lbits: nat, rbits: nat, s: nat)
    requires Input(lhs) && Input(rhs) && li < |lhs| && ri < |rhs|
    requires Cursor(lhs, li, lbits, s) && Cursor(rhs, ri, rbits, s)
    requires IsFill(lhs[li]) && IsFill(rhs[ri])
    ensures s + Min(lbits, rbits) <= MergeEnd(Size(lhs), Size(rhs))
    ensures Extends(s, Copies(Combine(op, lhs[li].data, rhs[ri].data) != Zero(), Min(lbits, rbits)),
                    op, fl, fr, Decode(lhs), Decode(rhs))
  {
    var m := Min(lbits, rbits);
    var x, y := lhs[li].data, rhs[ri].data;
    var v := Combine(op, x, y) != Zero();
    SideSize(lhs, li, lbits, s);
    SideSize(rhs, ri, rbits, s);
    WithinBoth(s, m, Size(lhs), Size(rhs));
    FillsCombine(op, x, y);
    SideValues(lhs, li, lbits, s);
    SideValues(rhs, ri, rbits, s);
    forall p | s <= p < s + m
      ensures SpecBit(op, fl, fr, Decode(lhs), Decode(rhs), p) == v
    {
      SpecBitInside(op, fl, fr, Decode(lhs), Decode(rhs), p);
    }
  }

  /** Below MergeEnd and inside both operands, a result bit is the operator on the operand bits. */
  lemma SpecBitInside(op: BoolOp, fl: bool, fr: bool, L: seq<bool>, R: seq<bool>, p: nat)
    requires p < |L| && p < |R|
    ensures SpecBit(op, fl, fr, L, R, p) == Eval(op, L[p], R[p])
  {
    MinBelowEnd(|L|, |R|);
  }

  lemma WithinBoth(s: nat, m: nat, a: nat, b: nat)
    requires s + m <= a && s + m <= b
    ensures s + m <= MergeEnd(a, b)
  {
    MinBelowEnd(a, b);
  }

  /** The operator on two fill words is the fill of the operator on their values. */
  lemma FillsCombine(op: BoolOp, x: Word, y: Word)
    requires AllOrNone(x) && AllOrNone(y)
    ensures AllOrNone(Combine(op, x, y))
    ensures (Combine(op, x, y) != Zero()) == Eval(op, x != Zero(), y != Zero())
  {
    CombineFills(op, x, y);
    assert Zero()[0] != Ones()[0];
    assert (x != Zero()) == (x == Ones()) && (y != Zero()) == (y == Ones());
  }

  /** The fill of a fill-fill step extends the agreed prefix. */
  lemma FillFillStep(op: BoolOp, fl: bool, fr: bool, lhs: Bitmap, rhs: Bitmap, li: nat, ri: nat,
                     lbits: nat, rbits: nat, out: seq<bool>)
    requires Input(lhs) && Input(rhs) && li < |lhs| && ri < |rhs|
    requires Cursor(lhs, li, lbits, |out|) && Cursor(rhs, ri, rbits, |out|)
    requires Agrees(out, op, fl, fr, Decode(lhs), Decode(rhs))
    requires IsFill(lhs[li]) && IsFill(rhs[ri])
    ensures lbits % W == 0 && rbits % W == 0
    ensures |out| + Min(lbits, rbits) <= MergeEnd(Size(lhs), Size(rhs))
    ensures Agrees(out + Copies(Combine(op, lhs[li].data, rhs[ri].data) != Zero(), Min(lbits, rbits)),
                   op, fl, fr, Decode(lhs), Decode(rhs))
  {
    FillFill(op, fl, fr, lhs, rhs, li, ri, lbits, rbits, |out|);
    AgreesExtend(out, Copies(Combine(op, lhs[li].data, rhs[ri].data) != Zero(), Min(lbits, rbits)),
                 op, fl, fr, Decode(lhs), Decode(rhs));
  }

  /** At least one operand inside a literal: one block of n bits. */
  lemma Mixed(op: BoolOp, fl: bool, fr: bool, lhs: Bitmap, rhs: Bitmap, li: nat, ri: nat,
              lbits: nat, rbits: nat, s: nat, n: nat)
    requires Input(lhs) && Input(rhs) && li < |lhs| && ri < |rhs|
    requires Cursor(lhs, li, lbits, s) && Cursor(rhs, ri, rbits, s)
    requires !(IsFill(lhs[li]) && IsFill(rhs[ri]))
    requires n == if IsFill(lhs[li]) || IsFill(rhs[ri]) then W else Max(lbits, rbits)
    ensures n <= W
    ensures !IsFill(lhs[li]) ==> lbits <= W
    ensures !IsFill(rhs[ri]) ==> rbits <= W
    ensures IsFill(lhs[li]) ==> W <= lbits
    ensures IsFill(rhs[ri]) ==> W <= rbits
    ensures s + n <= MergeEnd(Size(lhs), Size(rhs))
    ensures Extends(s, Combine(op, SideWord(lhs[li], lbits), SideWord(rhs[ri], rbits))[..n],
                    op, fl, fr, Decode(lhs), Decode(rhs))
  {
    SideSize(lhs, li, lbits, s);
    SideSize(rhs, ri, rbits, s);
    RoundUpFacts(Min(Size(lhs), Size(rhs)), s);
    SideExt(lhs, li, lbits, s);
    SideExt(rhs, ri, rbits, s);
    MixedBits(op, fl, fr, Decode(lhs), Decode(rhs), s, n, SideWord(lhs[li], lbits), SideWord(rhs[ri], rbits));
  }

  /** Below MergeEnd the result is the operator on the zero-extended operands. */
  lemma MixedBits(op: BoolOp, fl: bool, fr: bool, L: seq<bool>, R: seq<bool>, s: nat, n: nat, wl: Word, wr: Word)
    requires n <= W && s + n <= MergeEnd(|L|, |R|)
    requires forall p :: s <= p < s + W ==> ZeroExt(L, p) == wl[p - s]
    requires forall p :: s <= p < s + W ==> ZeroExt(R, p) == wr[p - s]
    ensures Extends(s, Combine(op, wl, wr)[..n], op, fl, fr, L, R)
  {
  }

  /** The zero-extended bits of an operand in the block at s are its side word. */
  lemma SideExt(bm: Bitmap, k: nat, bits: nat, s: nat)
    requires Input(bm) && k < |bm| && Cursor(bm, k, bits, s)
    ensures forall p :: s <= p < s + W ==> ZeroExt(Decode(bm), p) == SideWord(bm[k], bits)[p - s]
  {
    SideSize(bm, k, bits, s);
    SideValues(bm, k, bits, s);
    SideZero(Decode(bm), bm[k], bits, s);
  }

  /** The block of a mixed step extends the agreed prefix. */
  lemma MixedStep(op: BoolOp, fl: bool, fr: bool, lhs: Bitmap, rhs: Bitmap, li: nat, ri: nat,
                  lbits: nat, rbits: nat, out: seq<bool>, block: Word, n: nat)
    requires Input(lhs) && Input(rhs) && li < |lhs| && ri < |rhs|
    requires Cursor(lhs, li, lbits, |out|) && Cursor(rhs, ri, rbits, |out|)
    requires Agrees(out, op, fl, fr, Decode(lhs), Decode(rhs))
    requires !(IsFill(lhs[li]) && IsFill(rhs[ri]))
    requires n == if IsFill(lhs[li]) || IsFill(rhs[ri]) then W else Max(lbits, rbits)
    requires !IsFill(lhs[li]) ==> lbits <= W
    requires !IsFill(rhs[ri]) ==> rbits <= W
    requires block == Combine(op, if IsFill(lhs[li]) then lhs[li].data else Combine(And, lhs[li].data, LsbMask(lbits)),
                                  if IsFill(rhs[ri]) then rhs[ri].data else Combine(And, rhs[ri].data, LsbMask(rbits)))
    ensures n <= W && |out| + n <= MergeEnd(Size(lhs), Size(rhs))
    ensures Agrees(out + block[..n], op, fl, fr, Decode(lhs), Decode(rhs))
  {
    Mixed(op, fl, fr, lhs, rhs, li, ri, lbits, rbits, |out|, n);
    BlockWord(op, lhs[li], rhs[ri], lbits, rbits, block);
    AgreesExtend(out, block[..n], op, fl, fr, Decode(lhs), Decode(rhs));
  }

  /** The block the merge loop computes is the operator on the two side words. */
  lemma BlockWord(op: BoolOp, l: Run, r: Run, lbits: nat, rbits: nat, block: Word)
    requires Valid(l) && Valid(r)
    requires !IsFill(l) ==> lbits <= W
    requires !IsFill(r) ==> rbits <= W
    requires block == Combine(op, if IsFill(l) then l.data else Combine(And, l.data, LsbMask(lbits)),
                                  if IsFill(r) then r.data else Combine(And, r.data, LsbMask(rbits)))
    ensures block == Combine(op, SideWord(l, lbits), SideWord(r, rbits))
  {
  }

  /** One run of the left tail extends the agreed prefix. */
  lemma TailLeftStep(op: BoolOp, fl: bool, fr: bool, lhs: Bitmap, rhs: Bitmap, li: nat, lbits: nat, out: seq<bool>)
    requires Input(lhs) && Input(rhs) && li < |lhs| && fl
    requires Cursor(lhs, li, lbits, |out|) && Size(rhs) <= |out| && MergeEnd(Size(lhs), Size(rhs)) <= |out|
    requires Agrees(out, op, fl, fr, Decode(lhs), Decode(rhs))
    ensures |out| + lbits <= Size(lhs)
    ensures IsFill(lhs[li]) ==> Agrees(out + Copies(lhs[li].data != Zero(), lbits), op, fl, fr, Decode(lhs), Decode(rhs))
    ensures !IsFill(lhs[li]) ==> lbits == lhs[li].size <= W
    ensures !IsFill(lhs[li]) ==> Agrees(out + lhs[li].data[..lhs[li].size], op, fl, fr, Decode(lhs), Decode(rhs))
  {
    var L, R := Decode(lhs), Decode(rhs);
    TailBitsLeft(op, fl, fr, lhs, rhs, li, lbits, |out|);
    if IsFill(lhs[li]) {
      AgreesExtend(out, Copies(lhs[li].data != Zero(), lbits), op, fl, fr, L, R);
    } else {
      AgreesExtend(out, lhs[li].data[..lhs[li].size], op, fl, fr, L, R);
    }
  }

  /** One run of the right tail extends the agreed prefix. */
  lemma TailRightStep(op: BoolOp, fl: bool, fr: bool, lhs: Bitmap, rhs: Bitmap, ri: nat, rbits: nat, out: seq<bool>)
    requires Input(lhs) && Input(rhs) && ri < |rhs| && fr
    requires Cursor(rhs, ri, rbits, |out|) && Size(lhs) <= |out| && MergeEnd(Size(lhs), Size(rhs)) <= |out|
    requires Agrees(out, op, fl, fr, Decode(lhs), Decode(rhs))
    ensures |out| + rbits <= Size(rhs)
    ensures IsFill(rhs[ri]) ==> Agrees(out + Copies(rhs[ri].data != Zero(), rbits), op, fl, fr, Decode(lhs), Decode(rhs))
    ensures !IsFill(rhs[ri]) ==> rbits == rhs[ri].size <= W
    ensures !IsFill(rhs[ri]) ==> Agrees(out + rhs[ri].data[..rhs[ri].size], op, fl, fr, Decode(lhs), Decode(rhs))
  {
    var L, R := Decode(lhs), Decode(rhs);
    TailBitsRight(op, fl, fr, lhs, rhs, ri, rbits, |out|);
    if IsFill(rhs[ri]) {
      AgreesExtend(out, Copies(rhs[ri].data != Zero(), rbits), op, fl, fr, L, R);
    } else {
      AgreesExtend(out, rhs[ri].data[..rhs[ri].size], op, fl, fr, L, R);
    }
  }

  /** Past the merge, the rest of the longer left operand is copied. */
  lemma TailBitsLeft(op: BoolOp, fl: bool, fr: bool, lhs: Bitmap, rhs: Bitmap, li: nat, lbits: nat, s: nat)
    requires Input(lhs) && Input(rhs) && li < |lhs| && fl
    requires Cursor(lhs, li, lbits, s) && Size(rhs) <= s && MergeEnd(Size(lhs), Size(rhs)) <= s
    ensures s + lbits <= Size(lhs)
    ensures !IsFill(lhs[li]) ==> lbits == lhs[li].size <= W
    ensures IsFill(lhs[li]) ==> Extends(s, Copies(lhs[li].data != Zero(), lbits), op, fl, fr, Decode(lhs), Decode(rhs))
    ensures !IsFill(lhs[li]) ==> Extends(s, lhs[li].data[..lhs[li].size], op, fl, fr, Decode(lhs), Decode(rhs))
  {
    SideValues(lhs, li, lbits, s);
    forall p | s <= p < s + lbits
      ensures SpecBit(op, fl, fr, Decode(lhs), Decode(rhs), p) == Decode(lhs)[p]
    {
      SpecBitLeftTail(op, fl, fr, Decode(lhs), Decode(rhs), p);
    }
  }

  /** Past MergeEnd and past the right operand, a result bit is the left operand's bit when fl is set. */
  lemma SpecBitLeftTail(op: BoolOp, fl: bool, fr: bool, L: seq<bool>, R: seq<bool>, p: nat)
    requires fl && |R| <= p < |L| && MergeEnd(|L|, |R|) <= p
    ensures SpecBit(op, fl, fr, L, R, p) == L[p]
  {
  }

  /** Past MergeEnd and past the left operand, a result bit is the right operand's bit when fr is set. */
  lemma SpecBitRightTail(op: BoolOp, fl: bool, fr: bool, L: seq<bool>, R: seq<bool>, p: nat)
    requires fr && |L| <= p < |R| && MergeEnd(|L|, |R|) <= p
    ensures SpecBit(op, fl, fr, L, R, p) == R[p]
  {
  }

  /** Past the merge, the rest of the longer right operand is copied. */
  lemma TailBitsRight(op: BoolOp, fl: bool, fr: bool, lhs: Bitmap, rhs: Bitmap, ri: nat, rbits: nat, s: nat)
    requires Input(lhs) && Input(rhs) && ri < |rhs| && fr
    requires Cursor(rhs, ri, rbits, s) && Size(lhs) <= s && MergeEnd(Size(lhs), Size(rhs)) <= s
    ensures s + rbits <= Size(rhs)
    ensures !IsFill(rhs[ri]) ==> rbits == rhs[ri].size <= W
    ensures IsFill(rhs[ri]) ==> Extends(s, Copies(rhs[ri].data != Zero(), rbits), op, fl, fr, Decode(lhs), Decode(rhs))
    ensures !IsFill(rhs[ri]) ==> Extends(s, rhs[ri].data[..rhs[ri].size], op, fl, fr, Decode(lhs), Decode(rhs))
  {
    SideValues(rhs, ri, rbits, s);
    forall p | s <= p < s + rbits
      ensures SpecBit(op, fl, fr, Decode(lhs), Decode(rhs), p) == Decode(rhs)[p]
    {
      SpecBitRightTail(op, fl, fr, Decode(lhs), Decode(rhs), p);
    }
  }

  /** Moving a cursor past `used` bits of its run when the result grew from s to s2. */
  lemma Advance(bm: Bitmap, k0: nat, bits0: nat, used: nat, k: nat, bits: nat, s: nat, s2: nat)
    requires Input(bm) && k0 < |bm| && Cursor(bm, k0, bits0, s)
    requires 0 < used <= bits0 && (used % W == 0 || used == bits0)
    requires s2 >= s + used && (s2 > s + used ==> used == bits0 && bits0 < W)
    requires bits0 > used ==> k == k0 && bits == bits0 - used
    requires bits0 == used ==> k == k0 + 1 && (k < |bm| ==> bits == bm[k].size)
    ensures Cursor(bm, k, bits, s2)
  {
    if bits0 > used {
      AdvanceWithin(bm, k0, bits0, used, s, s2);
    } else if k < |bm| {
      SideSize(bm, k0, bits0, s);
      SizeStep(bm, k0);
      AdvanceNext(bm, k0, bits0, s, s2);
    } else {
      AdvanceLast(bm, k0, bits0, s, s2);
    }
  }

  /** Part of a fill consumed: the cursor stays in the run. */
  lemma AdvanceWithin(bm: Bitmap, k: nat, bits0: nat, used: nat, s: nat, s2: nat)
    requires Input(bm) && k < |bm| && Cursor(bm, k, bits0, s)
    requires 0 < used < bits0 && used % W == 0 && s2 == s + used
    ensures Cursor(bm, k, bits0 - used, s2)
  {
    CursorBits(bm, k, bits0, s);
    AddMultiple(s, used, s2);
    SubMultiple(bits0, used, bits0 - used);
  }

  /** The last run consumed: the cursor is past the end. */
  lemma AdvanceLast(bm: Bitmap, k0: nat, bits0: nat, s: nat, s2: nat)
    requires Input(bm) && k0 + 1 == |bm| && Cursor(bm, k0, bits0, s) && s2 >= s + bits0
    ensures Size(bm) <= s2
  {
    SizeStep(bm, k0);
    assert bm[..k0 + 1] == bm;
  }

  lemma SubMultiple(a: nat, b: nat, c: nat)
    requires c + b == a
    ensures a % W == 0 && b % W == 0 ==> c % W == 0
  {
  }

  /** A fully consumed run followed by another one. */
  lemma AdvanceNext(bm: Bitmap, k0: nat, bits0: nat, s: nat, s2: nat)
    requires Input(bm) && k0 + 1 < |bm| && Cursor(bm, k0, bits0, s)
    requires s2 >= s + bits0 && (s2 > s + bits0 ==> bits0 < W)
    requires Size(bm[..k0 + 1]) == Size(bm[..k0]) + bm[k0].size
    requires !IsFill(bm[k0]) ==> bits0 <= W
    ensures Cursor(bm, k0 + 1, bm[k0 + 1].size, s2)
  {
    var r, next := bm[k0], bm[k0 + 1];
    assert r.size % W == 0;
    assert next.size % W == 0 || next.size < W;
    assert s2 == s + bits0;
    AddMultiple(s, bits0, s2);
  }

  /** The merge loop stops exactly at MergeEnd. */
  lemma MergeDone(lhs: Bitmap, rhs: Bitmap, li: nat, ri: nat, lbits: nat, rbits: nat, s: nat)
    requires Input(lhs) && Input(rhs)
    requires Cursor(lhs, li, lbits, s) && Cursor(rhs, ri, rbits, s)
    requires !(li < |lhs| && ri < |rhs|) && s <= MergeEnd(Size(lhs), Size(rhs))
    ensures s == MergeEnd(Size(lhs), Size(rhs))
  {
    MinBelowEnd(Size(lhs), Size(rhs));
    if li < |lhs| {
      SideBits(lhs, li, lbits, s);
      RoundUpFacts(Size(rhs), s);
    } else if ri < |rhs| {
      SideBits(rhs, ri, rbits, s);
      RoundUpFacts(Size(lhs), s);
    }
  }

  /** The result before the final padding: every bit produced agrees with the
      specification, and zeros up to the longer operand would extend it. */
  ghost predicate Ready(op: BoolOp, fl: bool, fr: bool, lhs: Bitmap, rhs: Bitmap, result: Bitmap)
  {
    && Size(lhs) > 0 && Size(rhs) > 0 && Input(result)
    && Size(result) <= Max(Size(lhs), Size(rhs))
    && (Size(result) < Max(Size(lhs), Size(rhs)) ==> Size(result) % W == 0)
    && Agrees(Decode(result), op, fl, fr, Decode(lhs), Decode(rhs))
    && Extends(Size(result), Copies(false, Max(Size(lhs), Size(rhs)) - Size(result)), op, fl, fr, Decode(lhs), Decode(rhs))
  }

  /** After the tails, the result is ready for the final padding. */
  lemma Finish(op: BoolOp, fl: bool, fr: bool, lhs: Bitmap, rhs: Bitmap, result: Bitmap,
               li: nat, ri: nat, lbits: nat, rbits: nat)
    requires Merged(op, fl, fr, lhs, rhs, result, li, ri, lbits, rbits)
    requires li < |lhs| ==> !fl && Size(result) == MergeEnd(Size(lhs), Size(rhs))
    requires ri < |rhs| ==> !fr && Size(result) == MergeEnd(Size(lhs), Size(rhs))
    ensures Ready(op, fl, fr, lhs, rhs, result)
  {
    DecodeLast(lhs);
    DecodeLast(rhs);
    PadBits(op, fl, fr, lhs, rhs, li, ri, lbits, rbits, Size(result));
  }

  /** Zeros up to the longer operand extend a ready result. */
  lemma PadAgrees(op: BoolOp, fl: bool, fr: bool, lhs: Bitmap, rhs: Bitmap, result: Bitmap)
    requires Ready(op, fl, fr, lhs, rhs, result)
    ensures Agrees(Decode(result) + Copies(false, Max(Size(lhs), Size(rhs)) - Size(result)),
                   op, fl, fr, Decode(lhs), Decode(rhs))
  {
    AgreesExtend(Decode(result), Copies(false, Max(Size(lhs), Size(rhs)) - Size(result)),
                 op, fl, fr, Decode(lhs), Decode(rhs));
  }

  /** A result of the size of the longer operand that agrees with the specification is complete. */
  lemma Complete(op: BoolOp, fl: bool, fr: bool, lhs: Bitmap, rhs: Bitmap, result: Bitmap)
    requires Size(lhs) > 0 && Size(rhs) > 0 && Size(result) == Max(Size(lhs), Size(rhs))
    requires Agrees(Decode(result), op, fl, fr, Decode(lhs), Decode(rhs))
    ensures Decode(result) == ApplySpec(op, fl, fr, Decode(lhs), Decode(rhs))
  {
    AgreesAll(Decode(result), op, fl, fr, Decode(lhs), Decode(rhs));
  }

  /** bitmap_apply returns an empty operand's partner unchanged. */
  lemma EmptyOperands(op: BoolOp, fl: bool, fr: bool, lhs: Bitmap, rhs: Bitmap)
    ensures lhs == [] ==> ApplySpec(op, fl, fr, Decode(lhs), Decode(rhs)) == Decode(rhs)
    ensures rhs == [] ==> ApplySpec(op, fl, fr, Decode(lhs), Decode(rhs)) == Decode(lhs)
  {
  }

  /** What is left after the tails is zero padding. */
  lemma PadBits(op: BoolOp, fl: bool, fr: bool, lhs: Bitmap, rhs: Bitmap, li: nat, ri: nat,
                lbits: nat, rbits: nat, s: nat)
    requires Input(lhs) && Input(rhs)
    requires Cursor(lhs, li, lbits, s) && Cursor(rhs, ri, rbits, s)
    requires li == |lhs| || ri == |rhs|
    requires MergeEnd(Size(lhs), Size(rhs)) <= s <= Max(Size(lhs), Size(rhs))
    requires li < |lhs| ==> !fl && s == MergeEnd(Size(lhs), Size(rhs))
    requires ri < |rhs| ==> !fr && s == MergeEnd(Size(lhs), Size(rhs))
    ensures s <= Max(Size(lhs), Size(rhs))
    ensures s < Max(Size(lhs), Size(rhs)) ==> s % W == 0
    ensures Extends(s, Copies(false, Max(Size(lhs), Size(rhs)) - s), op, fl, fr, Decode(lhs), Decode(rhs))
  {
    if li < |lhs| {
      SideBits(lhs, li, lbits, s);
    } else if ri < |rhs| {
      SideBits(rhs, ri, rbits, s);
    }
  }

  /** Bits that extend the specification from the end of an agreeing prefix keep it agreeing. */
  lemma AgreesExtend(out: seq<bool>, w: seq<bool>, op: BoolOp, fl: bool, fr: bool, L: seq<bool>, R: seq<bool>)
    requires Agrees(out, op, fl, fr, L, R) && Extends(|out|, w, op, fl, fr, L, R)
    ensures Agrees(out + w, op, fl, fr, L, R)
  {
  }

  lemma AgreesAll(out: seq<bool>, op: BoolOp, fl: bool, fr: bool, L: seq<bool>, R: seq<bool>)
    requires L != [] && R != [] && |out| == Max(|L|, |R|) && Agrees(out, op, fl, fr, L, R)
    ensures out == ApplySpec(op, fl, fr, L, R)
  {
  }

  // -- the loop guard ------------------------------------------------------------

  /** The guard of the merge loop: both cursors still inside their operand. */
  predicate LoopGuard(li: nat, ri: nat, nl: nat, nr: nat)
  {
    li != nl && ri != nr
  }

  /** The guard as written compares the right cursor with the end of the left operand. */
  predicate LoopGuardAsWritten(li: nat, ri: nat, nl: nat, nr: nat)
  {
    li != nl && ri != nl
  }

  /** With cursors that never pass their ends, the guard lets the loop read
      only runs that exist, and stops as soon as either operand is exhausted. */
  lemma LoopGuardInRange(li: nat, ri: nat, nl: nat, nr: nat)
    requires li <= nl && ri <= nr
    ensures LoopGuard(li, ri, nl, nr) <==> li < nl && ri < nr
  {
  }

  /** An operand of three runs against one of one run: once the right cursor is
      exhausted the guard as written still holds, so the loop would read a run
      past the end of the right operand. */
  lemma LoopGuardAsWrittenReadsPastEnd()
    ensures var nl, nr, li, ri := 3, 1, 1, 1;
            LoopGuardAsWritten(li, ri, nl, nr) && ri == nr && !LoopGuard(li, ri, nl, nr)
  {
  }

  // -- the five instances ----------------------------------------------------------

  /** Where the operator lets a bit facing a masked-off 0 through exactly as the
      flags say, the merge computes the documented result. */
  lemma {:induction false} ApplyMatchesDocumented(op: BoolOp, fl: bool, fr: bool, L: seq<bool>, R: seq<bool>)
    requires PassThrough(op, fl, fr) && L != [] && R != []
    ensures ApplySpec(op, fl, fr, L, R) == Documented(op, fl, fr, L, R)
  {
    var a, d := ApplySpec(op, fl, fr, L, R), Documented(op, fl, fr, L, R);
    MinBelowEnd(|L|, |R|);
    forall p | 0 <= p < |a| ensures a[p] == d[p] {
      assert Eval(op, ZeroExt(L, p), false) == (fl && ZeroExt(L, p)) by {
        if ZeroExt(L, p) { assert Eval(op, true, false) == fl; } else { assert !Eval(op, false, false); }
      }
      assert Eval(op, false, ZeroExt(R, p)) == (fr && ZeroExt(R, p)) by {
        if ZeroExt(R, p) { assert Eval(op, false, true) == fr; } else { assert !Eval(op, false, false); }
      }
    }
  }

  /** Which of the five instances pass bits through: all but nor. */
  lemma InstancesPassThrough()
    ensures PassThrough(And, false, false) && PassThrough(Or, true, true)
    ensures PassThrough(Xor, true, true) && PassThrough(Nand, true, false)
    ensures !PassThrough(Nor, true, true)
  {
  }

  /** nor of the bits 00 with the single bit 0: the masked-off second bit of the
      right operand is complemented, giving 11, where the documentation promises
      10 read from position 0 (the left operand's second bit passed through). */
  lemma NorPastShorterOperand()
    ensures ApplySpec(Nor, true, true, [false, false], [false]) == [true, true]
    ensures Documented(Nor, true, true, [false, false], [false]) == [true, false]
  {
    RoundUpFacts(1, 0);
    assert MergeEnd(2, 1) == 2;
    var a := ApplySpec(Nor, true, true, [false, false], [false]);
    assert a[0] && a[1];
  }

  /** bitmap_and: &, with neither tail copied. */
  method BitmapAnd(lhs: Bitmap, rhs: Bitmap) returns (result: Bitmap)
    requires Input(lhs) && Input(rhs)
    ensures Input(result)
    ensures lhs == [] ==> result == rhs
    ensures lhs != [] && rhs == [] ==> result == lhs
    ensures lhs != [] && rhs != [] ==> Decode(result) == Documented(And, false, false, Decode(lhs), Decode(rhs))
  {
    result := Apply(And, false, false, lhs, rhs);
    InstancesPassThrough();
    if lhs != [] && rhs != [] {
      ApplyMatchesDocumented(And, false, false, Decode(lhs), Decode(rhs));
    }
  }

  /** bitmap_or: |, with both tails copied. */
  method BitmapOr(lhs: Bitmap, rhs: Bitmap) returns (result: Bitmap)
    requires Input(lhs) && Input(rhs)
    ensures Input(result)
    ensures lhs == [] ==> result == rhs
    ensures lhs != [] && rhs == [] ==> result == lhs
    ensures lhs != [] && rhs != [] ==> Decode(result) == Documented(Or, true, true, Decode(lhs), Decode(rhs))
  {
    result := Apply(Or, true, true, lhs, rhs);
    InstancesPassThrough();
    if lhs != [] && rhs != [] {
      ApplyMatchesDocumented(Or, true, true, Decode(lhs), Decode(rhs));
    }
  }

  /** bitmap_xor: ^, with both tails copied. */
  method BitmapXor(lhs: Bitmap, rhs: Bitmap) returns (result: Bitmap)
    requires Input(lhs) && Input(rhs)
    ensures Input(result)
    ensures lhs == [] ==> result == rhs
    ensures lhs != [] && rhs == [] ==> result == lhs
    ensures lhs != [] && rhs != [] ==> Decode(result) == Documented(Xor, true, true, Decode(lhs), Decode(rhs))
  {
    result := Apply(Xor, true, true, lhs, rhs);
    InstancesPassThrough();
    if lhs != [] && rhs != [] {
      ApplyMatchesDocumented(Xor, true, true, Decode(lhs), Decode(rhs));
    }
  }

  /** bitmap_nand: x & ~y, with the left tail copied. */
  method BitmapNand(lhs: Bitmap, rhs: Bitmap) returns (result: Bitmap)
    requires Input(lhs) && Input(rhs)
    ensures Input(result)
    ensures lhs == [] ==> result == rhs
    ensures lhs != [] && rhs == [] ==> result == lhs
    ensures lhs != [] && rhs != [] ==> Decode(result) == Documented(Nand, true, false, Decode(lhs), Decode(rhs))
  {
    result := Apply(Nand, true, false, lhs, rhs);
    InstancesPassThrough();
    if lhs != [] && rhs != [] {
      ApplyMatchesDocumented(Nand, true, false, Decode(lhs), Decode(rhs));
    }
  }

  /** bitmap_nor: x | ~y, with both tails copied. Its result is the merge
      specification, which differs from the documented one (NorPastShorterOperand). */
  method BitmapNor(lhs: Bitmap, rhs: Bitmap) returns (result: Bitmap)
    requires Input(lhs) && Input(rhs)
    ensures Input(result)
    ensures lhs == [] ==> result == rhs
    ensures lhs != [] && rhs == [] ==> result == lhs
    ensures Decode(result) == ApplySpec(Nor, true, true, Decode(lhs), Decode(rhs))
    ensures Size(result) == Max(Size(lhs), Size(rhs))
  {
    result := Apply(Nor, true, true, lhs, rhs);
  }

  // -- rank and select -------------------------------------------------------------

  lemma TakeOneMore(bm: Bitmap, k: nat)
    requires k < |bm|
    ensures bm[..k + 1] == bm[..k] + [bm[k]]
  {
  }

  lemma TakeAll(bm: Bitmap)
    ensures bm[..|bm|] == bm
  {
  }

  /** A prefix of a sequence whose prefix is d + e. */
  lemma PrefixCompose(whole: seq<bool>, pre: seq<bool>, d: seq<bool>, e: seq<bool>, size: nat, end: nat)
    requires |pre| <= |whole| && whole[..|pre|] == pre && pre == d + e && size <= |e| && end == |d| + size
    ensures end <= |whole| && whole[..end] == d + e[..size]
  {
    assert whole[..end] == pre[..end];
  }

  /** The first `size` bits of run k sit right after the runs before it, and end at `end`. */
  lemma PrefixThrough(bm: Bitmap, k: nat, size: nat, end: nat)
    requires k < |bm| && size <= bm[k].size && end == Size(bm[..k]) + size
    ensures end <= Size(bm)
    ensures Decode(bm)[..end] == Decode(bm[..k]) + Expand(bm[k])[..size]
  {
    var pre := bm[..k + 1];
    TakeOneMore(bm, k);
    SizeAppend(bm[..k], bm[k]);
    DecodePrefix(bm, k + 1);
    PrefixCompose(Decode(bm), Decode(pre), Decode(bm[..k]), Expand(bm[k]), size, end);
  }

  /** The run bits{b.data(), size}: the first size bits of a run. */
  lemma MakePrefix(r: Run, size: nat)
    requires Valid(r) && 0 < size <= r.size
    ensures size <= W || AllOrNone(r.data)
    ensures Expand(Make(r.data, size)) == Expand(r)[..size]
  {
    if r.size > W {
      AllOrNoneBits(r.data);
    }
  }

  /** Counting over a prefix and the rest. */
  lemma CountSplit(s: seq<bool>, m: nat, b: bool)
    requires m <= |s|
    ensures Count(s, b) == Count(s[..m], b) + Count(s[m..], b)
    ensures Count(s[..m], b) <= Count(s, b)
  {
    assert s == s[..m] + s[m..];
    CountAppend(s[..m], s[m..], b);
  }

  /** The first k runs have been scanned: they hold n bits, acc of them equal to b. */
  ghost predicate Scanned(bm: Bitmap, b: bool, k: nat, n: nat, acc: nat)
  {
    k <= |bm| && n == Size(bm[..k]) && acc == Count(Decode(bm[..k]), b)
  }

  /** The occurrences of b in a run with `ones` set bits among `size`. */
  function Occurrences(b: bool, ones: nat, size: nat): nat
    requires ones <= size
  {
    if b then ones else size - ones
  }

  /** Scanning run k, whose number of ones is count. */
  lemma ScanStep(bm: Bitmap, b: bool, k: nat, n: nat, acc: nat, count: nat)
    requires Scanned(bm, b, k, n, acc) && k < |bm| && count == Count(Expand(bm[k]), true)
    ensures count <= bm[k].size
    ensures Count(Expand(bm[k]), b) == Occurrences(b, count, bm[k].size)
    ensures Scanned(bm, b, k + 1, n + bm[k].size, acc + Occurrences(b, count, bm[k].size))
  {
    TakeOneMore(bm, k);
    SizeAppend(bm[..k], bm[k]);
    CountAppend(Decode(bm[..k]), Expand(bm[k]), b);
    CountBoth(Expand(bm[k]));
  }

  /** Every run scanned. */
  lemma ScanAll(bm: Bitmap, b: bool, k: nat, n: nat, acc: nat)
    requires Scanned(bm, b, k, n, acc) && k == |bm|
    ensures n == Size(bm) && acc == Count(Decode(bm), b)
  {
    TakeAll(bm);
  }

  /** The number of positions in [0, i] holding b, where i = 0 stands for the
      last position, so that it counts the whole bitmap. */
  ghost function Ranked(bm: Bitmap, b: bool, i: nat): nat
    requires i < Size(bm)
  {
    if i == 0 then Count(Decode(bm), b) else Count(Decode(bm)[..i + 1], b)
  }

  /** rank<Bit>(bm, i). */
  method Rank(bm: Bitmap, b: bool, i: nat) returns (result: nat)
    requires ValidBitmap(bm) && i < Size(bm)
    ensures result == Ranked(bm, b, i)
  {
    result := 0;
    var last := if i == 0 then Size(bm) - 1 else i;
    var n: nat := 0;
    var k := 0;
    while k < |bm|
      invariant Scanned(bm, b, k, n, result) && n <= last
      decreases |bm| - k
    {
      var r := bm[k];
      var count := CountOnes(r);
      ScanStep(bm, b, k, n, result, count);
      ghost var before := result;
      result := result + Occurrences(b, count, r.size);
      if n <= last < n + r.size {
        result := RankLastRun(bm, b, i, k, n, last, before, count, result);
        return;
      }
      n := n + r.size;
      k := k + 1;
      assert Scanned(bm, b, k, n, result);
    }
    // Position `last` lies inside the bitmap, so the scan never runs past its end.
    ScanAll(bm, b, k, n, result);
    assert false;
  }

  /** The adjustment for the run holding the last counted position: the
      occurrences past that position are taken off again. */
  method RankLastRun(bm: Bitmap, b: bool, i: nat, k: nat, n: nat, last: nat, ghost acc: nat, count: nat, result0: nat)
    returns (result: nat)
    requires ValidBitmap(bm) && i < Size(bm) && k < |bm| && Scanned(bm, b, k, n, acc)
    requires last == (if i == 0 then Size(bm) - 1 else i) && n <= last < n + bm[k].size
    requires count == Count(Expand(bm[k]), true)
    requires result0 == acc + Occurrences(b, count, bm[k].size)
    ensures result == Ranked(bm, b, i)
  {
    var r := bm[k];
    var size := last - n + 1;
    var prefix := PrefixOnes(r, size);
    RankFound(bm, k, b, i, n, size, acc, count, prefix);
    result := result0 - (if b then count - prefix else r.size - count - (size - prefix));
  }

  /** bits{r.data(), size}.count(): the ones among the first size bits of a run. */
  method PrefixOnes(r: Run, size: nat) returns (ones: nat)
    requires Valid(r) && 0 < size <= r.size
    ensures ones == Count(Expand(r)[..size], true)
  {
    MakePrefix(r, size);
    ones := CountOnes(Make(r.data, size));
  }

  /** The run that holds the last counted position: taking off the occurrences
      past its first `size` bits leaves the count the method promises. */
  lemma RankFound(bm: Bitmap, k: nat, b: bool, i: nat, n: nat, size: nat, acc: nat, count: nat, prefix: nat)
    requires Scanned(bm, b, k, n, acc) && k < |bm| && 0 < size <= bm[k].size && i < Size(bm)
    requires n + size - 1 == (if i == 0 then Size(bm) - 1 else i)
    requires count == Count(Expand(bm[k]), true) && prefix == Count(Expand(bm[k])[..size], true)
    ensures count <= bm[k].size && prefix <= count && size - prefix <= bm[k].size - count
    ensures acc + Occurrences(b, count, bm[k].size)
            - (if b then count - prefix else bm[k].size - count - (size - prefix))
            == Ranked(bm, b, i)
  {
    var end := n + size;
    CountBoth(Expand(bm[k]));
    RankAdjust(bm, k, b, size, end, acc + Occurrences(b, count, bm[k].size), count, prefix);
    RankedEnd(bm, b, i, end);
  }

  /** The positions rank counts are the first `end` ones. */
  lemma RankedEnd(bm: Bitmap, b: bool, i: nat, end: nat)
    requires i < Size(bm) && end == (if i == 0 then Size(bm) else i + 1)
    ensures Ranked(bm, b, i) == Count(Decode(bm)[..end], b)
  {
    if i == 0 {
      assert Decode(bm)[..end] == Decode(bm);
    }
  }

  /** The correction for the run that holds the last counted position: the
      occurrences past its first `size` bits are taken off again, and neither
      subtraction goes below zero. */
  lemma RankAdjust(bm: Bitmap, k: nat, b: bool, size: nat, end: nat, acc: nat, count: nat, prefix: nat)
    requires k < |bm| && 0 < size <= bm[k].size && end == Size(bm[..k]) + size
    requires count == Count(Expand(bm[k]), true) && prefix == Count(Expand(bm[k])[..size], true)
    requires acc == Count(Decode(bm[..k]), b) + Occurrences(b, count, bm[k].size)
    ensures prefix <= count && size - prefix <= bm[k].size - count
    ensures end <= Size(bm)
    ensures acc - (if b then count - prefix else bm[k].size - count - (size - prefix))
            == Count(Decode(bm)[..end], b)
  {
    var e := Expand(bm[k]);
    PrefixThrough(bm, k, size, end);
    CountAppend(Decode(bm[..k]), e[..size], b);
    CountSplit(e, size, true);
    CountSplit(e, size, false);
    CountBoth(e);
    CountBoth(e[..size]);
  }

  /** Position p holds b, and it is the i-th position holding b. */
  ghost predicate IsSelected(bm: Bitmap, b: bool, i: nat, p: nat)
  {
    p < Size(bm) && Decode(bm)[p] == b && Count(Decode(bm)[..p + 1], b) == i
  }

  /** select<Bit>(bm, i): the position of the i-th occurrence of Bit, or npos. */
  method Select(bm: Bitmap, b: bool, i: nat) returns (result: Option<nat>)
    requires ValidBitmap(bm) && i > 0
    ensures result.Some? <==> Count(Decode(bm), b) >= i
    ensures result.Some? ==> IsSelected(bm, b, i, result.value)
  {
    var cum: nat := 0;
    var n: nat := 0;
    var k := 0;
    while k < |bm|
      invariant Scanned(bm, b, k, n, cum) && cum < i
      decreases |bm| - k
    {
      var r := bm[k];
      var ones := CountOnes(r);
      ScanStep(bm, b, k, n, cum, ones);
      var count := Occurrences(b, ones, r.size);
      if cum + count >= i {
        var p := SelectInRun(bm, b, i, k, n, cum);
        return Some(p);
      }
      cum := cum + count;
      n := n + r.size;
      k := k + 1;
      assert Scanned(bm, b, k, n, cum);
    }
    ScanAll(bm, b, k, n, cum);
    result := None;
  }

  /** The run that holds the i-th occurrence: in a fill it is at a fixed
      offset, in a literal the word is scanned bit by bit. */
  method SelectInRun(bm: Bitmap, b: bool, i: nat, k: nat, n: nat, cum: nat) returns (p: nat)
    requires ValidBitmap(bm) && k < |bm| && Scanned(bm, b, k, n, cum)
    requires cum < i <= cum + Count(Expand(bm[k]), b)
    ensures IsSelected(bm, b, i, p) && i <= Count(Decode(bm), b)
  {
    var r := bm[k];
    if r.size > W {
      p := n + (i - cum - 1);
      SelectInFill(bm, k, b, i, n, cum, p);
      return;
    }
    var j := FindInLiteral(r, b, i - cum);
    p := n + j;
    SelectInLiteral(bm, k, b, i, n, cum, j, p);
  }

  /** The inner scan of select over a literal run: the position of its m-th
      occurrence of b, counting from 1. */
  method FindInLiteral(r: Run, b: bool, m: nat) returns (j: nat)
    requires Valid(r) && r.size <= W && 0 < m <= Count(Expand(r), b)
    ensures j < r.size && r.data[j] == b && Count(Expand(r)[..j], b) + 1 == m
  {
    var cum := 0;
    j := 0;
    while j < r.size
      invariant j <= r.size && cum == Count(Expand(r)[..j], b) && cum < m
      decreases r.size - j
    {
      SelectLiteralStep(r, b, j);
      if r.data[j] == b {
        cum := cum + 1;
        if cum == m {
          return;
        }
      }
      j := j + 1;
    }
    SelectLiteralAll(r, b, j);
    assert false;
  }

  /** A literal's bit j, counted into the prefix. */
  lemma SelectLiteralStep(r: Run, b: bool, j: nat)
    requires Valid(r) && r.size <= W && j < r.size
    ensures Count(Expand(r)[..j + 1], b) == Count(Expand(r)[..j], b) + (if r.data[j] == b then 1 else 0)
  {
    assert Expand(r)[..j + 1][..j] == Expand(r)[..j];
  }

  /** All of a literal's bits counted. */
  lemma SelectLiteralAll(r: Run, b: bool, j: nat)
    requires j == r.size
    ensures Count(Expand(r)[..j], b) == Count(Expand(r), b)
  {
    assert Expand(r)[..j] == Expand(r);
  }

  /** Position p, bit j of run k: the occurrences of b up to and including it
      are those of the runs before run k and those of the first j + 1 bits of run k. */
  lemma CountThrough(bm: Bitmap, k: nat, b: bool, j: nat, p: nat)
    requires k < |bm| && j < bm[k].size && p == Size(bm[..k]) + j
    ensures p < Size(bm)
    ensures Count(Decode(bm)[..p + 1], b) == Count(Decode(bm[..k]), b) + Count(Expand(bm[k])[..j + 1], b)
    ensures Count(Decode(bm)[..p + 1], b) <= Count(Decode(bm), b)
  {
    PrefixThrough(bm, k, j + 1, p + 1);
    CountAppend(Decode(bm[..k]), Expand(bm[k])[..j + 1], b);
    CountSplit(Decode(bm), p + 1, b);
  }

  /** The occurrence found at bit j of literal run k, position p of the bitmap,
      is the i-th one. */
  lemma SelectInLiteral(bm: Bitmap, k: nat, b: bool, i: nat, n: nat, cum: nat, j: nat, p: nat)
    requires Scanned(bm, b, k, n, cum) && k < |bm| && Valid(bm[k]) && bm[k].size <= W
    requires j < bm[k].size && bm[k].data[j] == b && cum + Count(Expand(bm[k])[..j], b) + 1 == i
    requires p == n + j
    ensures IsSelected(bm, b, i, p) && i <= Count(Decode(bm), b)
  {
    CountThrough(bm, k, b, j, p);
    SelectLiteralStep(bm[k], b, j);
    DecodeAt(bm, k, p);
  }

  /** A fill holding an occurrence of b holds nothing else. */
  lemma FillOf(r: Run, b: bool, m: nat)
    requires Valid(r) && r.size > W && 0 < m <= Count(Expand(r), b)
    ensures m <= r.size && Expand(r)[m - 1] == b && Count(Expand(r)[..m], b) == m
  {
    var e := Expand(r);
    FillBits(r);
    if (r.data == Ones()) != b {
      CountConstant(e, !b);
    }
    CountConstant(e[..m], b);
  }

  /** Inside fill run k, the occurrence at position p of the bitmap is the i-th one. */
  lemma SelectInFill(bm: Bitmap, k: nat, b: bool, i: nat, n: nat, cum: nat, p: nat)
    requires Scanned(bm, b, k, n, cum) && k < |bm| && Valid(bm[k]) && bm[k].size > W
    requires cum < i <= cum + Count(Expand(bm[k]), b) && p + 1 == n + (i - cum)
    ensures IsSelected(bm, b, i, p) && i <= Count(Decode(bm), b)
  {
    FillOf(bm[k], b, i - cum);
    CountThrough(bm, k, b, i - cum - 1, p);
    DecodeAt(bm, k, p);
  }
}
