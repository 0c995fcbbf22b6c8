/** The single-channel framebuffer of the engine (`glow::Surface`): a
    `width` x `height` grid of `uint8_t` hues stored row-major, cell (x, y) at
    index `y * width + x`, with an in-place decay step and a line rasteriser. */
module GlowSurface {
  import opened CInt

  // ---------------------------------------------------------------------------
  // Arithmetic facts about the row-major layout
  // ---------------------------------------------------------------------------

  lemma MulMonotone(a: nat, k: nat, k': nat)
    requires k <= k'
    ensures a * k <= a * k'
  {
  }

  /** A multiple of d strictly between -d and d is 0. */
  lemma MulWithinBand(m: int, d: int)
    requires 0 < d && -d < m * d < d
    ensures m == 0
  {
  }

  /** A multiple of d below d has a non-positive factor. */
  lemma MulBelow(m: int, d: int)
    requires 0 < d && m * d < d
    ensures m <= 0
  {
  }

  /** Every in-range (x, y) lands inside a buffer of `w * h` cells. */
  lemma RowMajorInBounds(w: nat, h: nat, x: nat, y: nat)
    requires x < w && y < h
    ensures y * w + x < w * h
  {
    MulMonotone(w, y + 1, h);
    assert (y + 1) * w == y * w + w;
  }

  /** Distinct in-range cells have distinct row-major indices. */
  lemma RowMajorInjective(w: nat, x: nat, y: nat, x': nat, y': nat)
    requires x < w && x' < w
    requires y * w + x == y' * w + x'
    ensures x == x' && y == y'
  {
    assert (y - y') * w == x' - x;
    MulWithinBand(y - y', w);
  }

  // ---------------------------------------------------------------------------
  // Decay
  // ---------------------------------------------------------------------------

  /** The hue a cell holding `v` has after one `Surface::Decay`: 95 % of it in
      integer arithmetic, minus one, clamped at zero. */
  function DecayHue(v: u8): (r: u8)
    ensures r <= v
    ensures r == 0 || r <= v - 2
    ensures r <= 241
  {
    var hue: int := (v as int) * 95 / 100 - 1;
    if hue > 0 then hue else 0
  }

  /** One decay step over a whole buffer: every cell from its own old hue. */
  function DecayAll(s: seq<u8>): (r: seq<u8>)
    ensures |r| == |s|
  {
    seq(|s|, i requires 0 <= i < |s| => DecayHue(s[i]))
  }

  /** `n` consecutive decay steps. */
  function DecayTimes(s: seq<u8>, n: nat): (r: seq<u8>)
    ensures |r| == |s|
  {
    if n == 0 then s else DecayAll(DecayTimes(s, n - 1))
  }

  ghost predicate AllZero(s: seq<u8>)
  {
    forall i :: 0 <= i < |s| ==> s[i] == 0
  }

  /** Each step removes at least 2 from every cell that does not reach 0. */
  lemma {:induction false} DecayTimesBound(s: seq<u8>, n: nat, i: nat)
    requires i < |s|
    ensures DecayTimes(s, n)[i] == 0 || DecayTimes(s, n)[i] <= s[i] - 2 * n
  {
    if n > 0 {
      DecayTimesBound(s, n - 1, i);
    }
  }

  /** A buffer is all zero after at most 128 decay steps, whatever it held. */
  lemma DecayReachesZero(s: seq<u8>, n: nat)
    requires n >= 128
    ensures AllZero(DecayTimes(s, n))
  {
    forall i | 0 <= i < |s|
      ensures DecayTimes(s, n)[i] == 0
    {
      DecayTimesBound(s, n, i);
    }
  }

  /** The all-zero buffer is a fixed point of decay, for any number of steps. */
  lemma {:induction false} DecayKeepsZero(s: seq<u8>, n: nat)
    requires AllZero(s)
    ensures DecayTimes(s, n) == s
  {
    if n > 0 {
      DecayKeepsZero(s, n - 1);
    }
  }

  /** Decay never reorders hues: a brighter cell stays at least as bright. */
  lemma DecayMonotone(v: u8, w: u8)
    requires v <= w
    ensures DecayHue(v) <= DecayHue(w)
  {
    assert v * 95 <= w * 95;
  }

  // ---------------------------------------------------------------------------
  // The digital line walked by `Surface::Line`
  // ---------------------------------------------------------------------------

  /** `v` lies on the way from `a` to `b` when walking in direction `s`
      (upward for s > 0, downward otherwise). */
  predicate Toward(s: int, a: int, v: int, b: int)
  {
    if s > 0 then a <= v <= b else b <= v <= a
  }

  /** dy * t / dx is 0 at t = 0 and dy at t = dx. */
  lemma InterpolationEndpoints(dy: int, dx: int, t: int)
    requires dx != 0
    ensures t == 0 ==> TruncDiv(dy * t, dx) == 0
    ensures t == dx ==> TruncDiv(dy * t, dx) == dy
  {
    if t == 0 {
      assert dy * t == 0 * dx;
      TruncDivExact(0, dx);
    } else if t == dx {
      TruncDivExact(dy, dx);
    }
  }

  /** The endpoints of a call `Line(x1, y1, x2, y2)` and the walk it performs.
      The walk steps x from x1 to x2 one column at a time; in column x it sets
      every row from RunStart(x) to Row(x), where Row(x) is the truncating
      interpolation `y1 + dy * (x - x1) / dx` (or y2 when dx == 0) and
      RunStart(x) is the previous column's end row (y1 in the first column). */
  datatype Segment = Segment(x1: int, y1: int, x2: int, y2: int)
  {
    function StepX(): int { if x2 - x1 > 0 then 1 else -1 }
    function StepY(): int { if y2 - y1 > 0 then 1 else -1 }

    /** `ny` in column x: the interpolation passes through both endpoints. */
    function Row(x: int): (r: int)
      ensures x == x2 ==> r == y2
      ensures x == x1 && x2 != x1 ==> r == y1
    {
      if x2 - x1 != 0 then
        InterpolationEndpoints(y2 - y1, x2 - x1, x - x1);
        y1 + TruncDiv((y2 - y1) * (x - x1), x2 - x1)
      else y2
    }

    /** The row where the run of column x starts; for every column the walk
        visits it lies in the span y1..y2. */
    function RunStart(x: int): (r: int)
      ensures Toward(StepX(), x1, x, x2) ==> Toward(StepY(), y1, r, y2)
    {
      if x == x1 then y1
      else if Toward(StepX(), x1, x - StepX(), x2) then
        RowInSpan(this, x - StepX());
        Row(x - StepX())
      else Row(x - StepX())
    }

    /** Cell (x, y) is set by the walk; every such cell lies in the bounding
        rectangle of the endpoints. */
    predicate Covers(x: int, y: int)
      ensures Covers(x, y) ==> Toward(StepX(), x1, x, x2) && Toward(StepY(), y1, y, y2)
    {
      Toward(StepX(), x1, x, x2) && (RunInSpan(this, x); Toward(StepY(), RunStart(x), y, Row(x)))
    }

    /** Cell (x', y') is already set when the walk stands at (xc, yc) in
        column xc. */
    predicate Walked(xc: int, yc: int, x': int, y': int)
    {
      Toward(StepX(), x1, x', xc)
      && Toward(StepY(), RunStart(x'), y', if x' == xc then yc else Row(x'))
    }
  }

  lemma AbsOfProduct(a: int, b: int)
    ensures Abs(a * b) == Abs(a) * Abs(b)
  {
  }

  lemma DivMonotone(a: nat, b: nat, d: nat)
    requires a <= b && 0 < d
    ensures a / d <= b / d
  {
    var qa, qb := a / d, b / d;
    assert (qa - qb) * d == qa * d - qb * d;
    assert (qa - qb) * d <= b % d - a % d;
    MulBelow(qa - qb, d);
  }

  lemma MulDivCancel(e: nat, d: nat)
    requires 0 < d
    ensures (e * d) / d == e
  {
    var q := (e * d) / d;
    assert (e - q) * d == e * d - q * d;
    assert (e - q) * d == (e * d) % d;
    MulWithinBand(e - q, d);
  }

  /** |dy| * k / |dx| stays within 0..|dy| for 0 <= k <= |dx|. */
  lemma QuotientInRange(e: nat, k: nat, d: nat)
    requires k <= d && 0 < d
    ensures 0 <= (e * k) / d <= e
  {
    MulMonotone(e, k, d);
    DivMonotone(e * k, e * d, d);
    MulDivCancel(e, d);
  }

  /** Within the column range, Row(x) is y1 moved toward y2 by
      |dy| * |x - x1| / |dx| rows (rounded down). */
  lemma RowFormula(g: Segment, x: int)
    requires g.x2 != g.x1
    requires Toward(g.StepX(), g.x1, x, g.x2)
    ensures var q := (Abs(g.y2 - g.y1) * Abs(x - g.x1)) / Abs(g.x2 - g.x1);
      g.Row(x) == if g.StepY() > 0 then g.y1 + q else g.y1 - q
  {
    var a, b := (g.y2 - g.y1) * (x - g.x1), g.x2 - g.x1;
    AbsOfProduct(g.y2 - g.y1, x - g.x1);
    if g.y2 - g.y1 == 0 || x == g.x1 {
      assert Abs(g.y2 - g.y1) * Abs(x - g.x1) == 0;
      assert a == 0;
    } else if g.y2 - g.y1 > 0 {
      assert (x - g.x1 > 0) == (b > 0);
      assert (a >= 0) == (b > 0);
    } else {
      assert (x - g.x1 > 0) == (b > 0);
      assert (a >= 0) != (b > 0);
    }
  }

  /** The interpolated row never leaves the span y1..y2. */
  lemma RowInSpan(g: Segment, x: int)
    requires Toward(g.StepX(), g.x1, x, g.x2)
    ensures Toward(g.StepY(), g.y1, g.Row(x), g.y2)
  {
    if g.x2 != g.x1 {
      var e, d, k := Abs(g.y2 - g.y1), Abs(g.x2 - g.x1), Abs(x - g.x1);
      assert k <= d;
      RowFormula(g, x);
      QuotientInRange(e, k, d);
    }
  }

  /** One more column never lowers the interpolated offset. */
  lemma QuotientStep(e: nat, k: nat, d: nat)
    requires 0 < k && 0 < d
    ensures (e * (k - 1)) / d <= (e * k) / d
  {
    MulMonotone(e, k - 1, k);
    DivMonotone(e * (k - 1), e * k, d);
  }

  /** Row is monotone along the walk: each column's end row is at or beyond
      the previous column's, in the direction of y2. */
  lemma RowAdvances(g: Segment, x: int)
    requires Toward(g.StepX(), g.x1, x, g.x2) && x != g.x1
    ensures Toward(g.StepY(), g.Row(x - g.StepX()), g.Row(x), g.y2)
  {
    var p := x - g.StepX();
    assert g.x2 != g.x1;
    assert Toward(g.StepX(), g.x1, p, g.x2);
    RowInSpan(g, x);
    RowFormula(g, x);
    RowFormula(g, p);
    var e, d, k := Abs(g.y2 - g.y1), Abs(g.x2 - g.x1), Abs(x - g.x1);
    assert Abs(p - g.x1) == k - 1;
    QuotientStep(e, k, d);
  }

  /** The run of every column is walked in the direction of y2 and lies in
      the span y1..y2. */
  lemma RunInSpan(g: Segment, x: int)
    requires Toward(g.StepX(), g.x1, x, g.x2)
    ensures Toward(g.StepY(), g.y1, g.RunStart(x), g.Row(x))
    ensures Toward(g.StepY(), g.y1, g.Row(x), g.y2)
  {
    RowInSpan(g, x);
    if x == g.x1 {
      if g.x2 != g.x1 {
        RowFormula(g, x);
      }
    } else {
      RowAdvances(g, x);
      RowInSpan(g, x - g.StepX());
    }
  }

  /** Both endpoints are set. */
  lemma LineCoversEndpoints(g: Segment)
    ensures g.Covers(g.x1, g.y1)
    ensures g.Covers(g.x2, g.y2)
  {
    RunInSpan(g, g.x1);
    RunInSpan(g, g.x2);
    if g.x2 != g.x1 {
      RowFormula(g, g.x2);
      MulDivCancel(Abs(g.y2 - g.y1), Abs(g.x2 - g.x1));
    }
  }

  /** The walk has no gaps: every column from x1 to x2 gets a non-empty run,
      and each column after the first starts on the row where the previous
      column ended, so consecutive columns share a row. */
  lemma LineGapFree(g: Segment, x: int)
    requires Toward(g.StepX(), g.x1, x, g.x2)
    ensures g.Covers(x, g.RunStart(x)) && g.Covers(x, g.Row(x))
    ensures x != g.x1 ==> g.Covers(x - g.StepX(), g.RunStart(x))
  {
    RunInSpan(g, x);
    if x != g.x1 {
      var p := x - g.StepX();
      RunInSpan(g, p);
      assert Toward(g.StepX(), g.x1, p, g.x2);
    }
  }

  /** A zero-length line sets exactly the one cell. */
  lemma LinePoint(g: Segment, x: int, y: int)
    requires g.x1 == g.x2 && g.y1 == g.y2
    ensures g.Covers(x, y) <==> x == g.x1 && y == g.y1
  {
  }

  /** With x1 == x2 the walk sets exactly the vertical run from y1 to y2. */
  lemma LineVertical(g: Segment, x: int, y: int)
    requires g.x1 == g.x2
    ensures g.Covers(x, y) <==> x == g.x1 && Toward(g.StepY(), g.y1, y, g.y2)
  {
  }

  /** With y1 == y2 the walk sets exactly the horizontal run from x1 to x2. */
  lemma LineHorizontal(g: Segment, x: int, y: int)
    requires g.y1 == g.y2
    ensures g.Covers(x, y) <==> y == g.y1 && Toward(g.StepX(), g.x1, x, g.x2)
  {
    if Toward(g.StepX(), g.x1, x, g.x2) {
      RunInSpan(g, x);
    }
  }

  /** Stepping into the next column (and one row back, ahead of its run)
      leaves the set of walked cells as it was. */
  lemma WalkedNextColumn(g: Segment, px: int, py: int, x: int, y: int)
    requires Toward(g.StepX(), g.x1 - g.StepX(), px, g.x2) && px != g.x2
    requires x == px + g.StepX() && py == g.RunStart(x) && y == py - g.StepY()
    ensures forall x', y' :: g.Walked(x, y, x', y') == g.Walked(px, py, x', y')
  {
    forall x', y' ensures g.Walked(x, y, x', y') == g.Walked(px, py, x', y') {
      if x' != x && x' == px && Toward(g.StepX(), g.x1, x', px) {
        assert x != g.x1;
        assert py == g.Row(px);
      }
    }
  }

  /** One more step of the inner loop adds exactly the cell it reaches. */
  lemma WalkedGrows(g: Segment, xc: int, py: int, y: int)
    requires Toward(g.StepX(), g.x1, xc, g.x2)
    requires Toward(g.StepY(), g.RunStart(xc) - g.StepY(), py, py)
    requires y == py + g.StepY()
    ensures forall x', y' :: g.Walked(xc, y, x', y') <==>
      g.Walked(xc, py, x', y') || (x' == xc && y' == y)
  {
    var a := g.RunStart(xc);
    forall x', y' ensures g.Walked(xc, y, x', y') <==>
      g.Walked(xc, py, x', y') || (x' == xc && y' == y)
    {
      if x' == xc {
        assert Toward(g.StepX(), g.x1, x', xc);
        assert Toward(g.StepY(), a, y', y) <==> Toward(g.StepY(), a, y', py) || y' == y;
      }
    }
  }

  /** The endpoints are small enough that every `int32_t` intermediate of
      `Surface::Line` (x, y, dx, dy and dy * (x - x1)) is free of overflow. */
  predicate LineFitsInt32(x1: int, y1: int, x2: int, y2: int)
  {
    x1 < INT32_MAX && y1 < INT32_MAX && x2 < INT32_MAX && y2 < INT32_MAX
    && Abs(x2 - x1) * Abs(y2 - y1) <= INT32_MAX
  }

  // ---------------------------------------------------------------------------
  // The surface object
  // ---------------------------------------------------------------------------

  class Surface {
    const width: u32
    const height: u32
    /** `width * height` computed in `uint32_t`. */
    const area: u32
    const buffer: array<u8>

    ghost predicate Valid()
    {
      buffer.Length == area && area == ToU32(width * height)
    }

    /** The product of the dimensions fits 32 bits, so `area` is the true
        number of cells. */
    ghost predicate Unwrapped()
    {
      width * height < 0x1_0000_0000
    }

    /** Row-major index of cell (x, y). */
    function Index(x: int, y: int): int
    {
      y * width + x
    }

    /** The hue of an in-range cell. */
    ghost function Pixel(x: int, y: int): u8
      reads buffer
      requires Valid() && Unwrapped() && 0 <= x < width && 0 <= y < height
    {
      RowMajorInBounds(width, height, x, y);
      buffer[Index(x, y)]
    }

    /** A zeroed surface; `area` is the 32-bit product of the dimensions. */
    constructor (width: u32, height: u32)
      ensures this.width == width && this.height == height
      ensures area == ToU32(width * height)
      ensures width * height < 0x1_0000_0000 ==> area == width * height
      ensures Valid() && fresh(buffer)
      ensures forall i :: 0 <= i < buffer.Length ==> buffer[i] == 0
    {
      this.width := width;
      this.height := height;
      var n := ToU32(width * height);
      area := n;
      buffer := new u8[n](_ => 0);
    }

    function GetArea(): (n: u32)
      requires Valid()
      ensures n == buffer.Length
      ensures Unwrapped() ==> n == width * height
    {
      area
    }

    /** `Get(x, y)`: the hue at row-major index `y * width + x`. */
    function Get(x: u32, y: u32): (hue: u32)
      reads buffer
      requires Valid() && Index(x, y) < area
      ensures hue < 0x100
      ensures Unwrapped() && x < width && y < height ==> hue == Pixel(x, y)
    {
      buffer[Index(x, y)]
    }

    /** `Set(x, y, hue)`: the `uint8_t` cell keeps the low 8 bits of `hue`. */
    method Set(x: u32, y: u32, hue: u32)
      requires Valid() && Index(x, y) < area
      modifies buffer
      ensures Get(x, y) == hue % 0x100
      ensures forall i :: 0 <= i < buffer.Length && i != Index(x, y) ==> buffer[i] == old(buffer[i])
      ensures Unwrapped() && x < width && y < height ==>
        forall x', y' | 0 <= x' < width && 0 <= y' < height ::
          Pixel(x', y') == if x' == x && y' == y then ToU8(hue) else old(Pixel(x', y'))
    {
      buffer[Index(x, y)] := ToU8(hue);
      if Unwrapped() && x < width && y < height {
        forall x', y' | 0 <= x' < width && 0 <= y' < height && (x' != x || y' != y)
          ensures Index(x', y') != Index(x, y)
        {
          if Index(x', y') == Index(x, y) {
            RowMajorInjective(width, x', y', x, y);
          }
        }
      }
    }

    /** Every cell v becomes max(0, v * 95 / 100 - 1), in place. */
    method Decay()
      requires Valid()
      modifies buffer
      ensures buffer[..] == DecayAll(old(buffer[..]))
    {
      for i := 0 to area
        invariant forall j :: 0 <= j < i ==> buffer[j] == DecayHue(old(buffer[j]))
        invariant forall j :: i <= j < area ==> buffer[j] == old(buffer[j])
      {
        var hue: int := (buffer[i] as int) * 95 / 100 - 1;
        buffer[i] := if hue > 0 then hue else 0;
      }
    }

    /** Sets to 255 exactly the cells of the walk from (x1, y1) to (x2, y2);
        every other cell keeps its hue. */
    method Line(x1: u32, y1: u32, x2: u32, y2: u32)
      requires Valid() && Unwrapped()
      requires x1 < width && x2 < width && y1 < height && y2 < height
      requires LineFitsInt32(x1, y1, x2, y2)
      modifies buffer
      ensures forall x, y | 0 <= x < width && 0 <= y < height ::
        Pixel(x, y) == if Segment(x1, y1, x2, y2).Covers(x, y) then 255 else old(Pixel(x, y))
    {
      ghost var g := Segment(x1, y1, x2, y2);
      var dx: int, dy: int := x2 - x1, y2 - y1;
      var stepx: int := if dx > 0 then 1 else -1;
      var stepy: int := if dy > 0 then 1 else -1;
      var x: int, y: int := x1 - stepx, y1;
      var ny: int;
      assert stepx == g.StepX() && stepy == g.StepY();
      while x != x2
        invariant Toward(stepx, x1 - stepx, x, x2)
        invariant y == g.RunStart(x + stepx)
        invariant forall x', y' | 0 <= x' < width && 0 <= y' < height ::
          Pixel(x', y') == if g.Walked(x, y, x', y') then 255 else old(Pixel(x', y'))
        decreases if stepx > 0 then x2 - x else x - x2
      {
        ghost var px, py := x, y;
        x := x + stepx;
        y := y - stepy;
        ny := if dx != 0 then y1 + TruncDiv(dy * (x - x1), dx) else y2;
        assert ny == g.Row(x);
        assert y == g.RunStart(x) - stepy;
        RunInSpan(g, x);
        WalkedNextColumn(g, px, py, x, y);
        while y != ny
          invariant Toward(stepy, g.RunStart(x) - stepy, y, ny)
          invariant forall x', y' | 0 <= x' < width && 0 <= y' < height ::
            Pixel(x', y') == if g.Walked(x, y, x', y') then 255 else old(Pixel(x', y'))
          decreases if stepy > 0 then ny - y else y - ny
        {
          ghost var py := y;
          y := y + stepy;
          RowMajorInBounds(width, height, x, y);
          Set(x, y, 255);
          WalkedGrows(g, x, py, y);
        }
      }
    }
  }
}
