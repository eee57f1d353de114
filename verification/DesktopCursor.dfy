/** The composited mouse cursor: save what is under the arrow, draw it, put it back. */
module DesktopCursor {
  import opened Framebuffer

  const CUR_W := 12
  const CUR_H := 19

  /** A cursor bitmap: 'X' white, 'o' outline, anything else transparent. */
  type Bitmap = seq<string>

  predicate Shaped(arrow: Bitmap) {
    |arrow| == CUR_H && forall r :: 0 <= r < CUR_H ==> |arrow[r]| == CUR_W
  }

  /** Is there an inked pixel at column c of row r, and which colour has it? */
  predicate Solid(arrow: Bitmap, c: int, r: int)
    requires Shaped(arrow)
  {
    0 <= r < CUR_H && 0 <= c < CUR_W && (arrow[r][c] == 'X' || arrow[r][c] == 'o')
  }

  function Ink(arrow: Bitmap, c: int, r: int): int
    requires Shaped(arrow) && Solid(arrow, c, r)
  {
    if arrow[r][c] == 'X' then 0xff_ffff else 0x0a_0f1a
  }

  datatype Op = Show(x: int, y: int) | Hide

  class Cursor {
    const screen: Screen
    const save: array<int>
    const arrow: Bitmap
    var x: int
    var y: int
    var visible: bool
    ghost var base: seq<int>        // the image without the cursor

    constructor (screen: Screen, save: array<int>, arrow: Bitmap)
      requires Shaped(arrow) && screen.Valid() && save.Length == Index(CUR_W, 0, CUR_H) && save != screen.fb
      ensures this.screen == screen && this.save == save && this.arrow == arrow
      ensures !visible && base == screen.fb[..] && Inv()
    {
      this.screen, this.save, this.arrow, x, y, visible := screen, save, arrow, 0, 0, false;
      base := screen.fb[..];
    }

    ghost predicate Valid() {
      Shaped(arrow) && screen.Valid() && save.Length == Index(CUR_W, 0, CUR_H) && save != screen.fb
    }

    /** What the cell shows: the arrow where it is solid and on screen, else the image m. Only the
        first rows of the arrow, and cols more pixels, have been drawn. */
    ghost function Composited(m: seq<int>, cx: int, cy: int, rows: int, cols: int, a: int, b: int): int
      requires Shaped(arrow)
    {
      if Solid(arrow, a - cx, b - cy) && screen.Visible(a, b) && (b - cy < rows || (b - cy == rows && a - cx < cols))
      then Ink(arrow, a - cx, b - cy) else At(m, screen.pitch, a, b)
    }

    /** Saved pixels are the base image's, where they are on screen. */
    ghost predicate SavedAt(s: seq<int>, i: int, j: int)
      reads this
    {
      At(s, CUR_W, i, j) == screen.Seen(base, x + i, y + j)
    }

    ghost predicate SavedOk(s: seq<int>)
      reads this
    {
      forall i, j :: 0 <= i < CUR_W && 0 <= j < CUR_H ==> SavedAt(s, i, j)
    }

    /** The framebuffer cell is the base image's, overlaid by the arrow when it is visible. */
    ghost predicate ShownAt(m: seq<int>, on: bool, a: int, b: int)
      requires Shaped(arrow)
      reads this
    {
      At(m, screen.pitch, a, b) ==
        if on then Composited(base, x, y, CUR_H, 0, a, b) else At(base, screen.pitch, a, b)
    }

    ghost predicate Shown(m: seq<int>, on: bool)
      requires Shaped(arrow)
      reads this
    {
      forall a, b :: screen.Cell(a, b) ==> ShownAt(m, on, a, b)
    }

    /** The framebuffer is the base image, overlaid by the arrow when it is visible. */
    ghost predicate Inv()
      reads this, save, screen.fb
    {
      && Valid()
      && |base| == screen.fb.Length
      && (visible ==> SavedOk(save[..]))
      && Shown(screen.fb[..], visible)
    }

    /** cursor_hide: exactly the base image is back. */
    method HideCursor()
      requires Inv()
      modifies `visible, screen.fb
      ensures Inv() && !visible && screen.fb[..] == base
    {
      if visible {
        ghost var m := screen.fb[..];
        screen.BlitPut(x, y, CUR_W, CUR_H, save);
        forall a, b | screen.Cell(a, b) ensures ShownAt(screen.fb[..], false, a, b) {
          assert ShownAt(m, true, a, b);
          if x <= a < x + CUR_W && y <= b < y + CUR_H { assert SavedAt(save[..], a - x, b - y); }
        }
        visible := false;
      }
      HiddenIsBase(screen.fb[..]);
    }

    lemma HiddenIsBase(m: seq<int>)
      requires Valid() && Shown(m, false) && |m| == |base| == screen.fb.Length
      ensures m == base
    {
      forall a, b | 0 <= a < screen.pitch && 0 <= b < screen.height
        ensures At(m, screen.pitch, a, b) == At(base, screen.pitch, a, b)
      {
        assert screen.Cell(a, b) && ShownAt(m, false, a, b);
      }
      SameCellsSameImage(m, base, screen.pitch, screen.height);
    }

    /** cursor_show. */
    method ShowCursor(nx: int, ny: int)
      requires Inv()
      modifies `x, `y, `visible, save, screen.fb
      ensures Inv() && visible && x == nx && y == ny
      ensures forall c, r :: 0 <= c < 12 && 0 <= r < 19 && screen.Visible(nx + c, ny + r) ==>
                At(screen.fb[..], screen.pitch, nx + c, ny + r) == Pixel(c, r)
    {
      if visible {
        HideCursor();
      }
      HiddenIsBase(screen.fb[..]);
      screen.BlitGet(nx, ny, CUR_W, CUR_H, save);
      x, y := nx, ny;
      forall i, j | 0 <= i < CUR_W && 0 <= j < CUR_H ensures SavedAt(save[..], i, j) {}
      DrawArrow(nx, ny);
      visible := true;
      forall a, b | screen.Cell(a, b) ensures ShownAt(screen.fb[..], true, a, b) {}
      forall c, r | 0 <= c < 12 && 0 <= r < 19 && screen.Visible(nx + c, ny + r)
        ensures At(screen.fb[..], screen.pitch, nx + c, ny + r) == Pixel(c, r)
      {
        assert screen.Cell(nx + c, ny + r) && ShownAt(screen.fb[..], true, nx + c, ny + r);
      }
    }

    /** What the cursor shows at column c of row r: white for X, the outline colour for o, and the
        base image for anything else. */
    ghost function Pixel(c: int, r: int): int
      requires Shaped(arrow) && 0 <= c < 12 && 0 <= r < 19
      reads this
    {
      match arrow[r][c]
      case 'X' => 0xff_ffff
      case 'o' => 0x0a_0f1a
      case _ => At(base, screen.pitch, x + c, y + r)
    }

    /** The drawing loops of cursor_show. */
    method DrawArrow(nx: int, ny: int)
      requires Valid()
      modifies screen.fb
      ensures forall a, b :: screen.Cell(a, b) ==>
                At(screen.fb[..], screen.pitch, a, b) == Composited(old(screen.fb[..]), nx, ny, CUR_H, 0, a, b)
    {
      for r := 0 to CUR_H
        invariant forall a, b :: screen.Cell(a, b) ==>
                    At(screen.fb[..], screen.pitch, a, b) == Composited(old(screen.fb[..]), nx, ny, r, 0, a, b)
      {
        for c := 0 to CUR_W
          invariant forall a, b :: screen.Cell(a, b) ==>
                      At(screen.fb[..], screen.pitch, a, b) == Composited(old(screen.fb[..]), nx, ny, r, c, a, b)
        {
          var p := arrow[r][c];
          if p == 'X' {
            screen.Pixel(nx + c, ny + r, 0xff_ffff);
          } else if p == 'o' {
            screen.Pixel(nx + c, ny + r, 0x0a_0f1a);
          }
        }
      }
    }

    /** Any sequence of showing and hiding, anywhere on or off the screen: the base image is
        never lost, and after hiding the framebuffer is exactly it again. */
    method Drive(ops: seq<Op>)
      requires Inv()
      modifies `x, `y, `visible, save, screen.fb
      ensures Inv()
      ensures ops != [] ==> (visible <==> ops[|ops| - 1].Show?)
      ensures ops != [] && ops[|ops| - 1].Hide? ==> screen.fb[..] == base
    {
      for i := 0 to |ops|
        invariant Inv()
        invariant i > 0 ==> (visible <==> ops[i - 1].Show?)
        invariant i > 0 && ops[i - 1].Hide? ==> screen.fb[..] == base
      {
        match ops[i]
        case Show(nx, ny) => ShowCursor(nx, ny);
        case Hide => HideCursor();
      }
    }
  }
}
