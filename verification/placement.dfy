/** Label placement: where the label box of a window on the active workspace is
    put, and the list row used for a window on another workspace. All values are
    32-bit integers converted exactly to floating point, so integers suffice. */
module Placement {
  import opened Types

  function Abs(a: int): nat
  {
    if a < 0 then -a else a
  }

  /** Integer division rounding toward zero, as Rust's `/` on `i32` divides. */
  function TruncDiv(a: int, b: int): (q: int)
    requires b != 0
    ensures Abs(a - b * q) < Abs(b)
    ensures a - b * q == 0 || (a - b * q > 0 <==> a > 0)
  {
    var n := Abs(a) / Abs(b);
    var q := if (a < 0) == (b < 0) then n else -n;
    DivMod(Abs(a), Abs(b));
    SignedProduct(a, b, n, q);
    q
  }

  /** The product of the divisor and the signed quotient carries the sign of
      the dividend. */
  lemma SignedProduct(a: int, b: int, n: int, q: int)
    requires b != 0
    requires q == if (a < 0) == (b < 0) then n else -n
    ensures b * q == if a < 0 then -(Abs(b) * n) else Abs(b) * n
  {
    if b < 0 {
      assert Abs(b) == -b;
      assert b * q == -(Abs(b) * q);
    } else {
      assert Abs(b) == b;
    }
  }

  lemma DivMod(x: nat, y: nat)
    requires y > 0
    ensures x == y * (x / y) + x % y && 0 <= x % y < y
    ensures x % y <= x
  {
    assert x / y >= 0;
    assert y * (x / y) >= 0;
  }

  /** On a non-negative dividend and positive divisor truncation and Euclidean
      division agree; sizes and box sizes are the only values halved. */
  lemma TruncDivNonNegative(a: int, b: int)
    requires a >= 0 && b > 0
    ensures TruncDiv(a, b) == a / b
  {
  }

  /** The top-left corner of the label box for a window at `(px, py)` of size
      `(w, h)` and a box of side `b`. BottomRight yields the window origin, as
      TopLeft does. */
  function Anchor(p: Position, px: int, py: int, w: int, h: int, b: int): (int, int)
  {
    var halfBox := TruncDiv(b, 2);
    match p
    case TopCenter => (px + TruncDiv(w, 2) - halfBox, py)
    case BottomCenter => (px + TruncDiv(w, 2) - halfBox, py - b + h)
    case TopLeft => (px, py)
    case BottomLeft => (px, py + h - b)
    case TopRight => (px + w - b, py)
    case BottomRight => (px, py)
    case Center => (px + TruncDiv(w, 2) - halfBox, py + TruncDiv(h, 2) - halfBox)
  }

  /** A box no larger than its window lies inside the window, whatever the anchor. */
  lemma AnchorInside(p: Position, px: int, py: int, w: int, h: int, b: int)
    requires 0 <= b <= w && b <= h
    ensures var (x, y) := Anchor(p, px, py, w, h, b);
      px <= x && x + b <= px + w && py <= y && y + b <= py + h
  {
    TruncDivNonNegative(w, 2);
    TruncDivNonNegative(h, 2);
    TruncDivNonNegative(b, 2);
  }

  /** Which window edges each anchor keeps the box flush with, and which axes it
      centres on (to within one pixel, from truncation). */
  lemma AnchorEdges(p: Position, px: int, py: int, w: int, h: int, b: int)
    requires 0 <= b && 0 <= w && 0 <= h
    ensures var (x, y) := Anchor(p, px, py, w, h, b);
      && (p in {TopLeft, TopCenter, TopRight, BottomRight} ==> y == py)
      && (p in {BottomLeft, BottomCenter} ==> y + b == py + h)
      && (p in {TopLeft, BottomLeft, BottomRight} ==> x == px)
      && (p == TopRight ==> x + b == px + w)
      && (p in {TopCenter, BottomCenter, Center} ==> -1 <= (px + w - (x + b)) - (x - px) <= 1)
      && (p == Center ==> -1 <= (py + h - (y + b)) - (y - py) <= 1)
  {
    TruncDivNonNegative(w, 2);
    TruncDivNonNegative(h, 2);
    TruncDivNonNegative(b, 2);
  }

  /** The BottomRight anchor places the box exactly where TopLeft does, so its
      right edge meets the window's right edge only when box and window are
      equally wide. */
  lemma BottomRightIsTopLeft(px: int, py: int, w: int, h: int, b: int)
    ensures Anchor(BottomRight, px, py, w, h, b) == Anchor(TopLeft, px, py, w, h, b)
    ensures Anchor(BottomRight, px, py, w, h, b).0 + b == px + w <==> b == w
  {
  }

  /** What the overlay shows for one labelled window. */
  datatype Item =
    | Row(glyph: char, title: string)
    | Placed(glyph: char, x: int, y: int, current: bool)

  /** A window on another workspace becomes a list row (glyph and title); a
      window on the active workspace gets a box at its anchor. */
  function Render(w: Window, glyph: char, activeWorkspace: int, p: Position, b: int): (it: Item)
    ensures it.glyph == glyph
    ensures it.Row? <==> w.workspace != activeWorkspace
    ensures it.Row? ==> it.title == w.title
    ensures it.Placed? ==> (it.x, it.y) == Anchor(p, w.position.0, w.position.1, w.size.0, w.size.1, b)
    ensures it.Placed? ==> (it.current <==> w.isCurrent)
  {
    if w.workspace != activeWorkspace then Row(glyph, w.title)
    else
      var (x, y) := Anchor(p, w.position.0, w.position.1, w.size.0, w.size.1, b);
      Placed(glyph, x, y, w.isCurrent)
  }

  /** A box no larger than its window is drawn inside that window. */
  lemma RenderInside(w: Window, glyph: char, activeWorkspace: int, p: Position, b: int)
    requires 0 <= b <= w.size.0 && b <= w.size.1
    ensures var it := Render(w, glyph, activeWorkspace, p, b);
      it.Placed? ==>
        && w.position.0 <= it.x && it.x + b <= w.position.0 + w.size.0
        && w.position.1 <= it.y && it.y + b <= w.position.1 + w.size.1
  {
    AnchorInside(p, w.position.0, w.position.1, w.size.0, w.size.1, b);
  }
}
