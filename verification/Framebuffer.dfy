/** Drawing into a linear framebuffer: pixels at y * pitch + x, clipping, lines, discs, and
    copying rectangles out and back. */
module Framebuffer {
  import opened Common

  // ----- pixels in a flat array -----

  /** y * pitch + x, row by row. */
  function Index(pitch: nat, x: int, y: int): int
    decreases if y < 0 then 0 else y
  {
    if y <= 0 then x else pitch + Index(pitch, x, y - 1)
  }

  lemma {:induction false} IndexIs(pitch: nat, x: int, y: nat)
    ensures Index(pitch, x, y) == y * pitch + x
    decreases y
  {
    if y > 0 {
      IndexIs(pitch, x, y - 1);
      NextProduct(y - 1, pitch);
    }
  }

  /** The pixel in column x of row y. */
  function At(m: seq<int>, pitch: nat, x: int, y: int): int {
    Nth(m, Index(pitch, x, y))
  }

  function Nth(m: seq<int>, k: int): int {
    if 0 <= k < |m| then m[k] else 0
  }


  lemma NextProduct(i: nat, m: nat)
    ensures (i + 1) * m == i * m + m
  {
  }

  /** Cells of a grid lie in the array, and no two of them share an index. */
  lemma {:induction false} CellIndex(pitch: nat, rows: nat, x: int, y: int)
    requires 0 <= x < pitch && 0 <= y < rows
    ensures 0 <= Index(pitch, x, y) < Index(pitch, 0, rows)
    decreases y
  {
    if y > 0 {
      CellIndex(pitch, rows - 1, x, y - 1);
    } else {
      RowsUp(pitch, rows - 1);
    }
  }

  lemma {:induction false} RowsUp(pitch: nat, rows: nat)
    ensures Index(pitch, 0, rows) >= 0
    decreases rows
  {
    if rows > 0 { RowsUp(pitch, rows - 1); }
  }

  lemma {:induction false} CellsApart(pitch: nat, x: int, y: nat, x': int, y': nat)
    requires 0 <= x < pitch && 0 <= x' < pitch && Index(pitch, x, y) == Index(pitch, x', y')
    ensures x == x' && y == y'
    decreases y
  {
    if y > 0 && y' > 0 {
      CellsApart(pitch, x, y - 1, x', y' - 1);
    } else if y > 0 {
      CellIndex(pitch, y, x, y - 1);
    } else if y' > 0 {
      CellIndex(pitch, y', x', y' - 1);
    }
  }

  /** Every index belongs to some cell, so equal cells make equal images. */
  lemma {:induction false} IndexIsCell(pitch: nat, rows: nat, k: nat) returns (x: nat, y: nat)
    requires k < Index(pitch, 0, rows)
    ensures x < pitch && y < rows && Index(pitch, x, y) == k
    decreases rows
  {
    if k < pitch {
      x, y := k, 0;
    } else {
      x, y := IndexIsCell(pitch, rows - 1, k - pitch);
      y := y + 1;
    }
  }

  lemma SameCellsSameImage(m: seq<int>, m': seq<int>, pitch: nat, rows: nat)
    requires |m| == |m'| == Index(pitch, 0, rows)
    requires forall x, y :: 0 <= x < pitch && 0 <= y < rows ==> At(m, pitch, x, y) == At(m', pitch, x, y)
    ensures m == m'
  {
    forall k | 0 <= k < |m| ensures m[k] == m'[k] {
      var x, y := IndexIsCell(pitch, rows, k);
      assert At(m, pitch, x, y) == At(m', pitch, x, y);
    }
  }

  /** Stores one cell of a grid; every other cell keeps its value. */
  method PutCell(m: array<int>, pitch: nat, rows: nat, x: int, y: int, v: int)
    requires m.Length == Index(pitch, 0, rows) && 0 <= x < pitch && 0 <= y < rows
    modifies m
    ensures forall x', y' :: 0 <= x' < pitch && 0 <= y' < rows ==>
              At(m[..], pitch, x', y') == if x' == x && y' == y then v else At(old(m[..]), pitch, x', y')
  {
    CellIndex(pitch, rows, x, y);
    IndexIs(pitch, x, y);
    m[y * pitch + x] := v;
    forall x', y' | 0 <= x' < pitch && 0 <= y' < rows
      ensures At(m[..], pitch, x', y') == if x' == x && y' == y then v else At(old(m[..]), pitch, x', y')
    {
      CellIndex(pitch, rows, x', y');
      if Index(pitch, x', y') == Index(pitch, x, y) { CellsApart(pitch, x, y, x', y'); }
    }
  }

  method GetCell(m: array<int>, pitch: nat, rows: nat, x: int, y: int) returns (v: int)
    requires m.Length == Index(pitch, 0, rows) && 0 <= x < pitch && 0 <= y < rows
    ensures v == At(m[..], pitch, x, y)
  {
    CellIndex(pitch, rows, x, y);
    IndexIs(pitch, x, y);
    v := m[y * pitch + x];
  }

  // ----- Bresenham's line, in absolute steps -----

  /** After some steps: i columns and j rows from the start, and the error term. */
  datatype Pos = Pos(i: nat, j: nat, err: int)

  /** C division truncates, so for a steep line this is minus half the height. */
  function Start(adx: nat, ady: nat): Pos {
    Pos(0, 0, if adx > ady then adx / 2 else 0 - ady / 2)
  }

  function Advance(adx: nat, ady: nat, p: Pos): Pos {
    var across := p.err > 0 - adx;
    var along := p.err < ady;
    Pos(if across then p.i + 1 else p.i, if along then p.j + 1 else p.j,
        p.err - (if across then ady else 0) + (if along then adx else 0))
  }

  function Walk(adx: nat, ady: nat, k: nat): Pos {
    if k == 0 then Start(adx, ady) else Advance(adx, ady, Walk(adx, ady, k - 1))
  }

  function Max(a: nat, b: nat): nat { if a > b then a else b }

  /** The error term tracks the distance from the ideal line, and the longer axis moves at every step. */
  lemma {:induction false} WalkTracks(adx: nat, ady: nat, k: nat)
    requires k <= Max(adx, ady)
    ensures var p := Walk(adx, ady, k);
            && p.err == Start(adx, ady).err - p.i * ady + p.j * adx
            && (if adx > ady then p.i == k && 0 <= p.err < adx else p.j == k && (ady > 0 ==> 0 - ady < p.err <= 0))
    decreases k
  {
    if k > 0 {
      WalkTracks(adx, ady, k - 1);
      var p := Walk(adx, ady, k - 1);
      var q := Walk(adx, ady, k);
      NextProduct(p.i, ady);
      NextProduct(p.j, adx);
      assert q.i * ady == p.i * ady + if p.err > 0 - adx then ady else 0;
      assert q.j * adx == p.j * adx + if p.err < ady then adx else 0;
    }
  }

  function Abs(x: int): nat { if x < 0 then -x else x }

  /** Every point lies within half a pixel of the ideal line, measured along the shorter axis. */
  predicate OnLine(adx: nat, ady: nat, i: int, j: int) {
    2 * Abs(j * adx - i * ady) <= Max(adx, ady)
  }

  lemma WalkAccurate(adx: nat, ady: nat, k: nat)
    requires k <= Max(adx, ady)
    ensures OnLine(adx, ady, Walk(adx, ady, k).i, Walk(adx, ady, k).j)
  {
    WalkTracks(adx, ady, k);
  }

  lemma Squeezed(a: int, b: int, m: nat)
    requires 0 - m < a * m - b * m < m
    ensures a == b
  {
    if a > b { TimesAtLeast(a, b + 1, m); }
    if a < b { TimesAtLeast(b, a + 1, m); }
  }

  /** The walk reaches the far corner after exactly max(adx, ady) steps and not before. */
  lemma WalkEnds(adx: nat, ady: nat, k: nat)
    requires k <= Max(adx, ady)
    ensures (Walk(adx, ady, k).i == adx && Walk(adx, ady, k).j == ady) <==> k == Max(adx, ady)
  {
    WalkTracks(adx, ady, k);
    var p := Walk(adx, ady, k);
    if k == Max(adx, ady) && k > 0 {
      if adx > ady {
        CornerReached(adx, ady, p.j, p.err);
      } else {
        CornerReached(ady, adx, p.i, 0 - p.err);
      }
    }
  }

  /** At the far end of the longer axis, the error term leaves only one place on the shorter. */
  lemma CornerReached(long: nat, short: nat, j: nat, err: int)
    requires err == long / 2 - long * short + j * long && 0 <= err < long
    ensures j == short
  {
    assert long * short == short * long;
    Squeezed(j, short, long);
  }

  /** Neither coordinate overshoots on the way. */
  lemma {:induction false} WalkWithin(adx: nat, ady: nat, k: nat)
    requires k <= Max(adx, ady)
    ensures Walk(adx, ady, k).i <= adx && Walk(adx, ady, k).j <= ady
    decreases Max(adx, ady) - k
  {
    if k == Max(adx, ady) {
      WalkEnds(adx, ady, k);
    } else {
      WalkWithin(adx, ady, k + 1);
    }
  }

  /** The k-th pixel of the line from (x0, y0) to (x1, y1). */
  function LinePoint(x0: int, y0: int, x1: int, y1: int, k: nat): (int, int) {
    var p := Walk(Abs(x1 - x0), Abs(y1 - y0), k);
    (if x1 < x0 then x0 - p.i else x0 + p.i, if y1 < y0 then y0 - p.j else y0 + p.j)
  }

  /** The loop of lfb_line stands at pixel k. */
  predicate LineAt(x0: int, y0: int, x1: int, y1: int, k: nat, x: int, y: int, err: int) {
    (x, y) == LinePoint(x0, y0, x1, y1, k) && err == Walk(Abs(x1 - x0), Abs(y1 - y0), k).err
  }

  /** One step of the loop, and the bound that keeps the error term from overflowing. */
  lemma LineStep(x0: int, y0: int, x1: int, y1: int, k: nat, x: int, y: int, err: int)
    requires k < Max(Abs(x1 - x0), Abs(y1 - y0)) && LineAt(x0, y0, x1, y1, k, x, y, err)
    ensures var adx, ady := Abs(x1 - x0), Abs(y1 - y0);
            var across, along := err > 0 - adx, err < ady;
            var x' := if across then (if x1 < x0 then x - 1 else x + 1) else x;
            var y' := if along then (if y1 < y0 then y - 1 else y + 1) else y;
            var err' := err - (if across then ady else 0) + (if along then adx else 0);
            LineAt(x0, y0, x1, y1, k + 1, x', y', err') && 0 - (adx + ady) <= err' <= adx + ady
  {
    WalkTracks(Abs(x1 - x0), Abs(y1 - y0), k + 1);
  }

  /** The pixels of a line: they start at the first endpoint, end on the second after
      max(|dx|, |dy|) steps, move to one of the eight neighbours each time, and stay within half
      a pixel of the ideal line. */
  lemma LineShape(x0: int, y0: int, x1: int, y1: int, k: nat)
    requires k <= Max(Abs(x1 - x0), Abs(y1 - y0))
    ensures var adx, ady := Abs(x1 - x0), Abs(y1 - y0); var q := LinePoint(x0, y0, x1, y1, k);
            && LinePoint(x0, y0, x1, y1, 0) == (x0, y0)
            && (q == (x1, y1) <==> k == Max(adx, ady))
            && OnLine(adx, ady, Abs(q.0 - x0), Abs(q.1 - y0))
            && (k < Max(adx, ady) ==>
                  var r := LinePoint(x0, y0, x1, y1, k + 1); r != q && Abs(r.0 - q.0) <= 1 && Abs(r.1 - q.1) <= 1)
  {
    var adx, ady := Abs(x1 - x0), Abs(y1 - y0);
    WalkEnds(adx, ady, k);
    WalkAccurate(adx, ady, k);
    WalkWithin(adx, ady, k);
    if k < Max(adx, ady) { LineMoves(adx, ady, k); }
  }

  lemma LineMoves(adx: nat, ady: nat, k: nat)
    requires k < Max(adx, ady)
    ensures var p, q := Walk(adx, ady, k), Walk(adx, ady, k + 1);
            p.i <= q.i <= p.i + 1 && p.j <= q.j <= p.j + 1 && (q.i != p.i || q.j != p.j)
  {
    WalkTracks(adx, ady, k);
    WalkTracks(adx, ady, k + 1);
  }

  // ----- integer square root -----

  /** Largest x with x * x <= n; 0 for negative n. */
  method Isqrt(n: int) returns (x: nat)
    ensures n >= 0 ==> x * x <= n < (x + 1) * (x + 1)
    ensures n < 0 ==> x == 0
  {
    x := 0;
    while (x + 1) * (x + 1) <= n
      invariant x == 0 || x * x <= n
      decreases n - x
    {
      x := x + 1;
    }
  }

  lemma RootBounds(half: nat, n: nat, d: int)
    requires half * half <= n < (half + 1) * (half + 1)
    ensures d * d <= n <==> 0 - half <= d <= half
  {
    var a := Abs(d);
    assert a * a == d * d;
    if a <= half {
      TimesAtLeast(half, a, a);
      TimesAtLeast(half, a, half);
    } else {
      TimesAtLeast(a, half + 1, half + 1);
      TimesAtLeast(a, half + 1, a);
    }
  }

  // ----- the screen -----

  class Screen {
    const width: nat
    const height: nat
    const pitch: nat
    const fb: array<int>

    constructor (width: nat, height: nat, pitch: nat, fb: array<int>)
      requires width <= pitch && fb.Length == Index(pitch, 0, height)
      ensures this.width == width && this.height == height && this.pitch == pitch && this.fb == fb && Valid()
    {
      this.width, this.height, this.pitch, this.fb := width, height, pitch, fb;
    }

    ghost predicate Valid() {
      width <= pitch && fb.Length == Index(pitch, 0, height)
    }

    predicate Cell(x: int, y: int) { 0 <= x < pitch && 0 <= y < height }

    predicate Visible(x: int, y: int) { 0 <= x < width && 0 <= y < height }

    /** lfb_pixel. */
    method Pixel(x: int, y: int, rgb: int)
      requires Valid()
      modifies fb
      ensures forall a, b :: Cell(a, b) ==>
                At(fb[..], pitch, a, b) ==
                  if a == x && b == y && Visible(x, y) then rgb else At(old(fb[..]), pitch, a, b)
    {
      if 0 <= x < width && 0 <= y < height {
        PutCell(fb, pitch, height, x, y, rgb);
      }
    }

    /** lfb_fill: exactly the visible pixels of the rectangle change. */
    method Fill(x0: int, y0: int, w0: int, h0: int, rgb: int)
      requires Valid()
      modifies fb
      ensures forall a, b :: Cell(a, b) ==>
                At(fb[..], pitch, a, b) ==
                  if x0 <= a < x0 + w0 && y0 <= b < y0 + h0 && Visible(a, b) then rgb else At(old(fb[..]), pitch, a, b)
    {
      var x, y, w, h := x0, y0, w0, h0;
      if x < 0 { w := w + x; x := 0; }
      if y < 0 { h := h + y; y := 0; }
      if x + w > width { w := width - x; }
      if y + h > height { h := height - y; }
      var j := 0;
      while j < h
        invariant 0 <= j && (j <= h || j == 0)
        invariant forall a, b :: Cell(a, b) ==>
                    At(fb[..], pitch, a, b) ==
                      if x <= a < x + w && y <= b < y + j then rgb else At(old(fb[..]), pitch, a, b)
      {
        var i := 0;
        while i < w
          invariant 0 <= i && (i <= w || i == 0)
          invariant forall a, b :: Cell(a, b) ==>
                      At(fb[..], pitch, a, b) ==
                        if (x <= a < x + w && y <= b < y + j) || (x <= a < x + i && b == y + j) then rgb
                        else At(old(fb[..]), pitch, a, b)
        {
          PutCell(fb, pitch, height, x + i, y + j, rgb);
          i := i + 1;
        }
        j := j + 1;
      }
    }

    /** lfb_blit_get: a rectangle out of the screen, 0 where it is off screen. */
    method BlitGet(x: int, y: int, w: nat, h: nat, buf: array<int>)
      requires Valid() && buf.Length == Index(w, 0, h) && buf != fb
      modifies buf
      ensures forall i, j :: 0 <= i < w && 0 <= j < h ==>
                At(buf[..], w, i, j) == if Visible(x + i, y + j) then At(fb[..], pitch, x + i, y + j) else 0
    {
      for j := 0 to h
        invariant fb[..] == old(fb[..])
        invariant forall a, b :: 0 <= a < w && 0 <= b < j ==> At(buf[..], w, a, b) == Seen(fb[..], x + a, y + b)
      {
        for i := 0 to w
          invariant fb[..] == old(fb[..])
          invariant forall a, b :: 0 <= a < w && 0 <= b < j ==> At(buf[..], w, a, b) == Seen(fb[..], x + a, y + b)
          invariant forall a :: 0 <= a < i ==> At(buf[..], w, a, j) == Seen(fb[..], x + a, y + j)
        {
          var v := 0;
          if 0 <= x + i < width && 0 <= y + j < height {
            v := GetCell(fb, pitch, height, x + i, y + j);
          }
          PutCell(buf, w, h, i, j, v);
        }
      }
    }

    /** What blit_get reads at a position. */
    function Seen(m: seq<int>, a: int, b: int): int {
      if Visible(a, b) then At(m, pitch, a, b) else 0
    }

    /** lfb_blit_put: a rectangle back onto the screen, clipped. */
    method BlitPut(x: int, y: int, w: nat, h: nat, buf: array<int>)
      requires Valid() && buf.Length == Index(w, 0, h) && buf != fb
      modifies fb
      ensures forall a, b :: Cell(a, b) ==>
                At(fb[..], pitch, a, b) ==
                  if x <= a < x + w && y <= b < y + h && Visible(a, b) then At(buf[..], w, a - x, b - y)
                  else At(old(fb[..]), pitch, a, b)
    {
      for j := 0 to h
        invariant buf[..] == old(buf[..])
        invariant forall a, b :: Cell(a, b) ==>
                    At(fb[..], pitch, a, b) ==
                      if x <= a < x + w && y <= b < y + j && Visible(a, b) then At(buf[..], w, a - x, b - y)
                      else At(old(fb[..]), pitch, a, b)
      {
        for i := 0 to w
          invariant buf[..] == old(buf[..])
          invariant forall a, b :: Cell(a, b) ==>
                      At(fb[..], pitch, a, b) ==
                        if Visible(a, b) && ((x <= a < x + w && y <= b < y + j) || (x <= a < x + i && b == y + j))
                        then At(buf[..], w, a - x, b - y) else At(old(fb[..]), pitch, a, b)
        {
          if 0 <= x + i < width && 0 <= y + j < height {
            var v := GetCell(buf, w, h, i, j);
            PutCell(fb, pitch, height, x + i, y + j, v);
          }
        }
      }
    }

    /** After the first n pixels of a line: each cell is the line's colour if it was visibly touched. */
    ghost predicate LineDrawn(m: seq<int>, m': seq<int>, x0: int, y0: int, x1: int, y1: int, rgb: int, n: nat) {
      forall a, b :: Cell(a, b) ==> LineCell(m, m', x0, y0, x1, y1, rgb, n, a, b)
    }

    ghost predicate LineCell(m: seq<int>, m': seq<int>, x0: int, y0: int, x1: int, y1: int, rgb: int, n: nat,
                             a: int, b: int) {
      At(m', pitch, a, b) ==
        if Touched(x0, y0, x1, y1, n, a, b) && Visible(a, b) then rgb else At(m, pitch, a, b)
    }

    /** lfb_line: exactly the visible pixels of the line change. Signed arithmetic stays in range
        as long as |dx| + |dy| does. */
    method Line(x0: int, y0: int, x1: int, y1: int, rgb: int) returns (ghost pixels: nat)
      requires Valid()
      modifies fb
      ensures pixels == Max(Abs(x1 - x0), Abs(y1 - y0)) + 1
      ensures LineDrawn(old(fb[..]), fb[..], x0, y0, x1, y1, rgb, pixels)
    {
      var dx, dy := x1 - x0, y1 - y0;
      var adx, ady := if dx < 0 then -dx else dx, if dy < 0 then -dy else dy;
      var sx, sy := if dx < 0 then -1 else 1, if dy < 0 then -1 else 1;
      var err := if adx > ady then adx / 2 else -(ady / 2);
      var x, y := x0, y0;
      ghost var k := 0;
      NothingTouched(x0, y0, x1, y1, fb[..], rgb);
      while true
        invariant k <= Max(adx, ady) && LineAt(x0, y0, x1, y1, k, x, y, err)
        invariant -(adx + ady) <= err <= adx + ady
        invariant LineDrawn(old(fb[..]), fb[..], x0, y0, x1, y1, rgb, k)
        decreases Max(adx, ady) - k
      {
        Plot(x, y, rgb, old(fb[..]), x0, y0, x1, y1, k);
        assert x == x1 && y == y1 <==> k == Max(adx, ady) by { LineShape(x0, y0, x1, y1, k); }
        if x == x1 && y == y1 {
          pixels := k + 1;
          return;
        }
        x, y, err := NextPixel(x0, y0, x1, y1, adx, ady, sx, sy, x, y, err, k);
        k := k + 1;
      }
    }

    /** The tail of the line's loop: both tests look at the error term from before the step. */
    method NextPixel(ghost x0: int, ghost y0: int, ghost x1: int, ghost y1: int, adx: nat, ady: nat, sx: int, sy: int,
                     x: int, y: int, err: int, ghost k: nat) returns (x': int, y': int, err': int)
      requires adx == Abs(x1 - x0) && ady == Abs(y1 - y0) && k < Max(adx, ady) && LineAt(x0, y0, x1, y1, k, x, y, err)
      requires sx == (if x1 < x0 then -1 else 1) && sy == (if y1 < y0 then -1 else 1)
      ensures LineAt(x0, y0, x1, y1, k + 1, x', y', err') && -(adx + ady) <= err' <= adx + ady
    {
      LineStep(x0, y0, x1, y1, k, x, y, err);
      x', y', err' := x, y, err;
      var e2 := err;
      if e2 > 0 - adx { err' := err' - ady; x' := x' + sx; }
      if e2 < ady { err' := err' + adx; y' := y' + sy; }
    }

    /** The pixel store inside the line's loop. */
    method Plot(x: int, y: int, rgb: int, ghost m: seq<int>,
                ghost x0: int, ghost y0: int, ghost x1: int, ghost y1: int, ghost k: nat)
      requires Valid() && (x, y) == LinePoint(x0, y0, x1, y1, k) && LineDrawn(m, fb[..], x0, y0, x1, y1, rgb, k)
      modifies fb
      ensures LineDrawn(m, fb[..], x0, y0, x1, y1, rgb, k + 1)
    {
      ghost var before := fb[..];
      Pixel(x, y, rgb);
      forall a, b | Cell(a, b) ensures LineCell(m, fb[..], x0, y0, x1, y1, rgb, k + 1, a, b) {
        assert LineCell(m, before, x0, y0, x1, y1, rgb, k, a, b);
        TouchedNext(x0, y0, x1, y1, k, a, b);
      }
    }

    lemma NothingTouched(x0: int, y0: int, x1: int, y1: int, m: seq<int>, rgb: int)
      ensures LineDrawn(m, m, x0, y0, x1, y1, rgb, 0)
    {
      forall a, b | Cell(a, b) ensures LineCell(m, m, x0, y0, x1, y1, rgb, 0, a, b) {}
    }

    /** lfb_disc: exactly the visible pixels at distance at most r from the centre change. */
    method Disc(cx: int, cy: int, r: int, rgb: int)
      requires Valid()
      modifies fb
      ensures forall a, b :: Cell(a, b) ==>
                At(fb[..], pitch, a, b) ==
                  if r >= 0 && InDisc(cx, cy, r, a, b) && Visible(a, b) then rgb else At(old(fb[..]), pitch, a, b)
    {
      var dy := -r;
      while dy <= r
        invariant dy <= r + 1 || dy == -r
        invariant forall a, b :: Cell(a, b) ==>
                    At(fb[..], pitch, a, b) ==
                      if -r <= b - cy < dy && InDisc(cx, cy, r, a, b) && Visible(a, b) then rgb
                      else At(old(fb[..]), pitch, a, b)
      {
        DiscRow(cx, cy, r, dy, rgb);
        dy := dy + 1;
      }
      forall a, b | r >= 0 && InDisc(cx, cy, r, a, b) ensures -r <= b - cy <= r { DiscRows(r, a - cx, b - cy); }
    }

    /** One row of the disc. */
    method DiscRow(cx: int, cy: int, r: int, dy: int, rgb: int)
      requires Valid() && -r <= dy <= r
      modifies fb
      ensures forall a, b :: Cell(a, b) ==>
                At(fb[..], pitch, a, b) ==
                  if b - cy == dy && InDisc(cx, cy, r, a, b) && Visible(a, b) then rgb else At(old(fb[..]), pitch, a, b)
    {
      RowRadius(r, dy);
      var half := Isqrt(r * r - dy * dy);
      Fill(cx - half, cy + dy, 2 * half + 1, 1, rgb);
      forall a, b | Cell(a, b) && b == cy + dy
        ensures cx - half <= a < cx - half + (2 * half + 1) <==> InDisc(cx, cy, r, a, b)
      {
        RootBounds(half, r * r - dy * dy, a - cx);
        assert (b - cy) * (b - cy) == dy * dy;
      }
    }
  }

  /** Is (a, b) one of the first n pixels of the line? */
  ghost predicate Touched(x0: int, y0: int, x1: int, y1: int, n: nat, a: int, b: int) {
    exists k: nat :: k < n && LinePoint(x0, y0, x1, y1, k) == (a, b)
  }

  lemma TouchedNext(x0: int, y0: int, x1: int, y1: int, k: nat, a: int, b: int)
    ensures Touched(x0, y0, x1, y1, k + 1, a, b) <==>
            Touched(x0, y0, x1, y1, k, a, b) || LinePoint(x0, y0, x1, y1, k) == (a, b)
  {
  }

  predicate InDisc(cx: int, cy: int, r: int, a: int, b: int) {
    (a - cx) * (a - cx) + (b - cy) * (b - cy) <= r * r
  }

  lemma RowRadius(r: int, dy: int)
    requires -r <= dy <= r
    ensures r * r - dy * dy >= 0
  {
    var a := Abs(dy);
    assert a * a == dy * dy;
    TimesAtLeast(r, a, a);
    TimesAtLeast(r, a, r);
  }

  lemma DiscRows(r: nat, x: int, y: int)
    requires x * x + y * y <= r * r
    ensures 0 - r <= y <= r
  {
    var a := Abs(y);
    assert a * a == y * y && x * x >= 0;
    if a > r {
      TimesAtLeast(a, r + 1, a);
      TimesAtLeast(a, r + 1, r + 1);
    }
  }
}
