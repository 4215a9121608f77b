/** The Bitmap container as the algorithms see it: the finite sequence of runs
    that bit_range yields, and the two append operations that build a bitmap.
    The container's own storage is not part of this model. */
module Bitmaps {
  import opened Words
  import opened Bits

  type Bitmap = seq<Run>

  predicate ValidBitmap(bm: Bitmap)
  {
    forall k :: 0 <= k < |bm| ==> Valid(bm[k])
  }

  /** size(): the number of bits, the sum of the run sizes. */
  function Size(bm: Bitmap): nat
  {
    if bm == [] then 0 else Size(bm[..|bm| - 1]) + bm[|bm| - 1].size
  }

  /** The bits a bitmap stands for, position 0 first. */
  ghost function Decode(bm: Bitmap): (s: seq<bool>)
    ensures |s| == Size(bm)
  {
    if bm == [] then [] else Decode(bm[..|bm| - 1]) + Expand(bm[|bm| - 1])
  }

  /** The shape the merge algorithm relies on: every run holds a multiple of W
      bits, except that the last run may be a literal shorter than a word. */
  predicate Aligned(bm: Bitmap)
  {
    forall k :: 0 <= k < |bm| ==> bm[k].size % W == 0 || (k == |bm| - 1 && bm[k].size < W)
  }

  /** n copies of bit v. */
  function Copies(v: bool, n: nat): (s: seq<bool>)
    ensures |s| == n && forall j :: 0 <= j < n ==> s[j] == v
  {
    seq(n, _ => v)
  }

  /** Adds one run at the end of the run sequence. */
  function AppendRun(bm: Bitmap, r: Run): (res: Bitmap)
    ensures res == bm + [r]
    ensures Size(res) == Size(bm) + r.size
    ensures Decode(res) == Decode(bm) + Expand(r)
    ensures ValidBitmap(bm) && Valid(r) ==> ValidBitmap(res)
    ensures Aligned(bm) && Size(bm) % W == 0 && (r.size % W == 0 || r.size < W) ==> Aligned(res)
  {
    SizeAppend(bm, r);
    AlignedAppend(bm, r);
    bm + [r]
  }

  /** append_bits(v, n): appends n copies of v, as a fill of whole words
      followed by a literal holding the remaining n % W bits. */
  function AppendBits(bm: Bitmap, v: bool, n: nat): (r: Bitmap)
    ensures n == 0 ==> r == bm
    ensures Decode(r) == Decode(bm) + Copies(v, n)
    ensures ValidBitmap(bm) ==> ValidBitmap(r)
    ensures Size(r) == Size(bm) + n
    ensures Aligned(bm) && Size(bm) % W == 0 ==> Aligned(r)
  {
    var whole := n / W * W;
    WholeWords(n);
    if whole == 0 then
      AppendLiteral(bm, v, n)
    else
      var bm' := AppendFill(bm, v, whole);
      var r := AppendLiteral(bm', v, n % W);
      CopiesSplit(Decode(bm), v, whole, n % W, n);
      r
  }

  /** The literal part of append_bits: n < W copies of v in one run, nothing when n is 0. */
  function AppendLiteral(bm: Bitmap, v: bool, n: nat): (r: Bitmap)
    requires n < W
    ensures n == 0 ==> r == bm
    ensures Decode(r) == Decode(bm) + Copies(v, n)
    ensures ValidBitmap(bm) ==> ValidBitmap(r)
    ensures Size(r) == Size(bm) + n
    ensures Aligned(bm) && Size(bm) % W == 0 ==> Aligned(r)
  {
    if n == 0 then
      assert Decode(bm) + Copies(v, n) == Decode(bm);
      bm
    else
      AppendRun(bm, CopiesRun(v, n))
  }

  /** The fill part of append_bits: one run of n copies of v, n a positive multiple of W. */
  function AppendFill(bm: Bitmap, v: bool, n: nat): (r: Bitmap)
    requires n > 0 && n % W == 0
    ensures Decode(r) == Decode(bm) + Copies(v, n)
    ensures ValidBitmap(bm) ==> ValidBitmap(r)
    ensures Size(r) == Size(bm) + n
    ensures Aligned(bm) && Size(bm) % W == 0 ==> Aligned(r) && Size(r) % W == 0
  {
    var r := AppendRun(bm, CopiesRun(v, n));
    AddMultiple(Size(bm), n, Size(r));
    r
  }

  /** The run of n copies of v, made from the all-v word. */
  function CopiesRun(v: bool, n: nat): (r: Run)
    requires n > 0
    ensures Valid(r) && r.size == n && Expand(r) == Copies(v, n)
  {
    var word := if v then Ones() else Zero();
    var r := Make(word, n);
    assert word[0] == v;
    assert forall j :: 0 <= j < n ==> Expand(r)[j] == v;
    r
  }

  /** Appending a run that keeps the word grid to a grid-sized aligned bitmap keeps it aligned. */
  lemma AlignedAppend(bm: Bitmap, r: Run)
    ensures Aligned(bm) && Size(bm) % W == 0 && (r.size % W == 0 || r.size < W) ==> Aligned(bm + [r])
  {
    if Aligned(bm) && Size(bm) % W == 0 {
      AlignedSize(bm);
    }
  }

  lemma CopiesSplit(d: seq<bool>, v: bool, a: nat, b: nat, c: nat)
    requires c == a + b
    ensures (d + Copies(v, a)) + Copies(v, b) == d + Copies(v, c)
  {
    assert Copies(v, a) + Copies(v, b) == Copies(v, c);
  }

  lemma WholeWords(n: nat)
    ensures (n / W * W) % W == 0 && n / W * W + n % W == n && n % W < W
  {
  }

  lemma AddMultiple(a: nat, b: nat, c: nat)
    requires c == a + b
    ensures a % W == 0 && b % W == 0 ==> c % W == 0
  {
  }

  /** append_block(w, n): appends the n low bits of w as one literal run. */
  function AppendBlock(bm: Bitmap, w: Word, n: nat): (r: Bitmap)
    requires 0 < n <= W
    ensures Decode(r) == Decode(bm) + w[..n]
    ensures ValidBitmap(bm) ==> ValidBitmap(r)
    ensures Size(r) == Size(bm) + n
    ensures Aligned(bm) && Size(bm) % W == 0 ==> Aligned(r)
  {
    var run := Make(w, n);
    assert run.size % W == 0 || run.size < W by {
      if n == W { assert n % W == 0; }
    }
    AppendRun(bm, run)
  }

  lemma SizeAppend(bm: Bitmap, r: Run)
    ensures Size(bm + [r]) == Size(bm) + r.size
    ensures Decode(bm + [r]) == Decode(bm) + Expand(r)
  {
    assert (bm + [r])[..|bm|] == bm;
  }

  /** An aligned bitmap whose size is a multiple of W ends with a whole-word run. */
  lemma AlignedSize(bm: Bitmap)
    requires Aligned(bm)
    ensures Size(bm) % W == 0 ==> bm == [] || bm[|bm| - 1].size % W == 0
    ensures bm != [] && bm[|bm| - 1].size % W == 0 ==> Size(bm) % W == 0
  {
    if bm != [] {
      AlignedInitSize(bm);
      ModShift(Size(bm[..|bm| - 1]), bm[|bm| - 1].size, Size(bm));
    }
  }

  lemma ModShift(a: nat, b: nat, c: nat)
    requires c == a + b && a % W == 0
    ensures c % W == 0 <==> b % W == 0
  {
  }

  /** All runs but the last of an aligned bitmap are whole words, so the bits
      before the last run are a multiple of W. */
  lemma {:induction false} AlignedInitSize(bm: Bitmap)
    requires Aligned(bm) && bm != []
    ensures Size(bm[..|bm| - 1]) % W == 0
  {
    var init := bm[..|bm| - 1];
    if init != [] {
      assert init[..|init| - 1] == bm[..|bm| - 2];
      AlignedInit(bm);
      AlignedInitSize(init);
      assert init[|init| - 1] == bm[|bm| - 2];
    }
  }

  /** Dropping the last run keeps a bitmap aligned. */
  lemma AlignedInit(bm: Bitmap)
    requires Aligned(bm) && bm != []
    ensures Aligned(bm[..|bm| - 1])
  {
    var init := bm[..|bm| - 1];
    forall k | 0 <= k < |init| ensures init[k].size % W == 0 || (k == |init| - 1 && init[k].size < W) {
      assert init[k] == bm[k];
    }
  }

  /** The runs before run k cover the first Size(bm[..k]) bits of the bitmap. */
  lemma {:induction false} DecodePrefix(bm: Bitmap, k: nat)
    requires k <= |bm|
    ensures Size(bm[..k]) <= Size(bm)
    ensures Decode(bm)[..Size(bm[..k])] == Decode(bm[..k])
  {
    if k < |bm| {
      var init := bm[..|bm| - 1];
      assert init[..k] == bm[..k];
      DecodePrefix(init, k);
      assert Decode(bm) == Decode(init) + Expand(bm[|bm| - 1]);
    } else {
      assert bm[..k] == bm;
    }
  }

  /** Position p of the bitmap, inside run k, holds bit p - Size(bm[..k]) of that run. */
  lemma {:induction false} DecodeAt(bm: Bitmap, k: nat, p: nat)
    requires k < |bm| && Size(bm[..k]) <= p < Size(bm[..k]) + bm[k].size
    ensures Size(bm[..k + 1]) == Size(bm[..k]) + bm[k].size
    ensures p < Size(bm)
    ensures Decode(bm)[p] == Expand(bm[k])[p - Size(bm[..k])]
  {
    var init := bm[..|bm| - 1];
    assert bm[..k + 1][..k] == bm[..k];
    if k == |bm| - 1 {
      assert init == bm[..k];
    } else {
      assert init[..k] == bm[..k];
      assert init[k] == bm[k];
      DecodeAt(init, k, p);
    }
  }

  /** The last run contributes the last bits. */
  lemma DecodeLast(bm: Bitmap)
    requires bm != []
    ensures Size(bm) == Size(bm[..|bm| - 1]) + bm[|bm| - 1].size
    ensures Decode(bm) == Decode(bm[..|bm| - 1]) + Expand(bm[|bm| - 1])
  {
  }

  /** The runs up to and including run k. */
  lemma SizeStep(bm: Bitmap, k: nat)
    requires k < |bm|
    ensures Size(bm[..k + 1]) == Size(bm[..k]) + bm[k].size
  {
    var pre := bm[..k + 1];
    assert pre[..|pre| - 1] == bm[..k];
  }

  /** The runs of an aligned bitmap other than the last one hold whole words. */
  lemma ShortRunIsLast(bm: Bitmap, k: nat)
    requires Aligned(bm) && k < |bm| && bm[k].size % W != 0
    ensures k == |bm| - 1 && bm[k].size < W
    ensures Size(bm[..k]) + bm[k].size == Size(bm)
  {
    assert bm[..k + 1] == bm;
  }
}
