/** `fill_yuv_image`: the synthetic picture, written in place into three padded planes. */
module Yuv {

  /** A value stored through a `uint8_t`. */
  function Byte(v: int): (r: int)
    ensures 0 <= r < 256 && (v - r) % 256 == 0
  {
    v % 256
  }

  /** Byte `k` of a plane is a sample of the rows before `y`, or of the first `x` samples of row `y`. */
  predicate Covered(k: int, linesize: int, width: int, y: int, x: int)
    requires linesize > 0
  {
    k % linesize < width && (k / linesize < y || (k / linesize == y && k % linesize < x))
  }

  /** `now` is `was` with the covered samples painted by `f` of their column and row, and every other
      byte, padding included, untouched. */
  ghost predicate Painted(now: seq<int>, was: seq<int>, linesize: int, width: int, y: int, x: int, f: (int, int) -> int)
    requires linesize > 0
  {
    |now| == |was| &&
    forall k :: 0 <= k < |was| ==>
      (now[k] == if Covered(k, linesize, width, y, x) then Byte(f(k % linesize, k / linesize)) else was[k])
  }

  lemma QuotientIs(k: int, d: int, q: int, r: int)
    requires d > 0 && 0 <= r < d && k == q * d + r
    ensures k / d == q && k % d == r
  {
    var e := k / d - q;
    assert d * (k / d) - q * d == d * e;
    assert -d < d * e < d;
    assert e >= 1 ==> d * e >= d;
    assert e <= -1 ==> d * e <= -d;
  }

  /** `data[y * linesize + x]` addresses sample (x, y) and no other, inside the plane. */
  lemma Address(x: nat, y: nat, linesize: int, width: int, height: int)
    requires x < width <= linesize && y < height
    ensures var k := y * linesize + x; k / linesize == y && k % linesize == x && 0 <= k < height * linesize
  {
    assert y * linesize + x < (y + 1) * linesize <= height * linesize;
    QuotientIs(y * linesize + x, linesize, y, x);
  }

  /** A finished plane, sample by sample. */
  lemma PaintedSample(now: seq<int>, was: seq<int>, linesize: int, width: int, height: int,
                      f: (int, int) -> int, x: nat, y: nat)
    requires 0 < width <= linesize && |was| >= height * linesize
    requires Painted(now, was, linesize, width, height, 0, f)
    requires x < linesize && y < height
    ensures 0 <= y * linesize + x < |now|
    ensures now[y * linesize + x] == if x < width then Byte(f(x, y)) else was[y * linesize + x]
  {
    Address(x, y, linesize, linesize, height);
  }

  lemma PaintNone(was: seq<int>, linesize: int, width: nat, f: (int, int) -> int)
    requires 0 < linesize
    ensures Painted(was, was, linesize, width, 0, 0, f)
  {
    forall k | 0 <= k < |was| ensures !Covered(k, linesize, width, 0, 0) {
      assert k / linesize >= 0 && k % linesize >= 0;
    }
  }

  lemma PaintOne(now: seq<int>, was: seq<int>, linesize: int, width: nat, height: nat,
                 y: nat, x: nat, f: (int, int) -> int)
    requires 0 < linesize && x < width <= linesize && y < height && |was| >= height * linesize
    requires Painted(now, was, linesize, width, y, x, f)
    ensures 0 <= y * linesize + x < |now|
    ensures Painted(now[y * linesize + x := Byte(f(x, y))], was, linesize, width, y, x + 1, f)
  {
    Address(x, y, linesize, width, height);
    var at := y * linesize + x;
    forall k | 0 <= k < |was| && k != at
      ensures Covered(k, linesize, width, y, x + 1) == Covered(k, linesize, width, y, x)
    {
      assert k == linesize * (k / linesize) + k % linesize;
    }
  }

  lemma PaintRow(now: seq<int>, was: seq<int>, linesize: int, width: nat, y: nat, f: (int, int) -> int)
    requires 0 < linesize && Painted(now, was, linesize, width, y, width, f)
    ensures Painted(now, was, linesize, width, y + 1, 0, f)
  {
    assert forall k :: 0 <= k < |was| ==>
      Covered(k, linesize, width, y, width) == Covered(k, linesize, width, y + 1, 0);
  }

  /** `data[y * linesize + x] = v` */
  method Store(plane: array<int>, ghost was: seq<int>, linesize: int, ghost width: nat, ghost height: nat,
               y: nat, x: nat, v: int, ghost f: (int, int) -> int)
    requires 0 < linesize && x < width <= linesize && y < height && |was| >= height * linesize
    requires Painted(plane[..], was, linesize, width, y, x, f) && v == f(x, y)
    modifies plane
    ensures Painted(plane[..], was, linesize, width, y, x + 1, f)
  {
    PaintOne(plane[..], was, linesize, width, height, y, x, f);
    ghost var next := plane[..][y * linesize + x := Byte(v)];
    plane[y * linesize + x] := Byte(v);
    assert plane[..] == next;
  }

  /** The first pair of loops. */
  method FillLuma(luma: array<int>, l0: int, i: int, width: nat, height: nat, ghost f: (int, int) -> int)
    requires 0 < l0 && width <= l0 && luma.Length >= height * l0
    requires forall x, y :: f(x, y) == x + y + i * 3
    modifies luma
    ensures Painted(luma[..], old(luma[..]), l0, width, height, 0, f)
  {
    ghost var was := luma[..];
    PaintNone(was, l0, width, f);
    for y := 0 to height
      invariant Painted(luma[..], was, l0, width, y, 0, f)
    {
      for x := 0 to width
        invariant Painted(luma[..], was, l0, width, y, x, f)
      {
        Store(luma, was, l0, width, height, y, x, x + y + i * 3, f);
      }
      PaintRow(luma[..], was, l0, width, y, f);
    }
  }

  /** The second pair of loops, over the two quarter-size planes. */
  method FillChroma(cb: array<int>, cr: array<int>, l1: int, l2: int, i: int, width: nat, height: nat,
                    ghost fb: (int, int) -> int, ghost fr: (int, int) -> int)
    requires cb != cr && 0 < l1 && 0 < l2 && width <= l1 && width <= l2
    requires cb.Length >= height * l1 && cr.Length >= height * l2
    requires forall x, y :: fb(x, y) == 128 + y + i * 2
    requires forall x, y :: fr(x, y) == 64 + x + i * 5
    modifies cb, cr
    ensures Painted(cb[..], old(cb[..]), l1, width, height, 0, fb)
    ensures Painted(cr[..], old(cr[..]), l2, width, height, 0, fr)
  {
    ghost var wasB, wasR := cb[..], cr[..];
    PaintNone(wasB, l1, width, fb);
    PaintNone(wasR, l2, width, fr);
    for y := 0 to height
      invariant Painted(cb[..], wasB, l1, width, y, 0, fb) && Painted(cr[..], wasR, l2, width, y, 0, fr)
    {
      for x := 0 to width
        invariant Painted(cb[..], wasB, l1, width, y, x, fb) && Painted(cr[..], wasR, l2, width, y, x, fr)
      {
        ghost var heldR := cr[..];
        Store(cb, wasB, l1, width, height, y, x, 128 + y + i * 2, fb);
        ghost var heldB := cb[..];
        assert cr[..] == heldR;
        Store(cr, wasR, l2, width, height, y, x, 64 + x + i * 5, fr);
        assert cb[..] == heldB;
      }
      PaintRow(cb[..], wasB, l1, width, y, fb);
      PaintRow(cr[..], wasR, l2, width, y, fr);
    }
  }

  method FillYuvImage(luma: array<int>, cb: array<int>, cr: array<int>,
                      l0: int, l1: int, l2: int, frameIndex: int, width: nat, height: nat)
    requires luma != cb && luma != cr && cb != cr
    requires 0 < l0 && 0 < l1 && 0 < l2 && width <= l0 && width / 2 <= l1 && width / 2 <= l2
    requires luma.Length >= height * l0 && cb.Length >= height / 2 * l1 && cr.Length >= height / 2 * l2
    modifies luma, cb, cr
    ensures Painted(luma[..], old(luma[..]), l0, width, height, 0, (x, y) => x + y + frameIndex * 3)
    ensures Painted(cb[..], old(cb[..]), l1, width / 2, height / 2, 0, (x, y) => 128 + y + frameIndex * 2)
    ensures Painted(cr[..], old(cr[..]), l2, width / 2, height / 2, 0, (x, y) => 64 + x + frameIndex * 5)
  {
    ghost var fy: (int, int) -> int := (x, y) => x + y + frameIndex * 3;
    ghost var fb: (int, int) -> int := (x, y) => 128 + y + frameIndex * 2;
    ghost var fr: (int, int) -> int := (x, y) => 64 + x + frameIndex * 5;
    FillLuma(luma, l0, frameIndex, width, height, fy);
    FillChroma(cb, cr, l1, l2, frameIndex, width / 2, height / 2, fb, fr);
  }
}
