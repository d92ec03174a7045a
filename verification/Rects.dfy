/** Integer rectangles with inclusive edges, as `QRect`: the right edge is `left + width - 1`. */
module Rects {
  datatype Rect = Rect(left: int, top: int, right: int, bottom: int) {
    function Width(): int { right - left + 1 }

    function Height(): int { bottom - top + 1 }

    predicate IsEmpty() { left > right || top > bottom }

    predicate IsValid() { !IsEmpty() }

    function MoveLeft(x: int): Rect { Rect(x, top, x + Width() - 1, bottom) }

    function MoveRight(x: int): Rect { Rect(x - Width() + 1, top, x, bottom) }

    function MoveTop(y: int): Rect { Rect(left, y, right, y + Height() - 1) }

    function MoveBottom(y: int): Rect { Rect(left, y - Height() + 1, right, y) }

    function Translated(dx: int, dy: int): Rect { Rect(left + dx, top + dy, right + dx, bottom + dy) }

    function Adjusted(l: int, t: int, r: int, b: int): Rect { Rect(left + l, top + t, right + r, bottom + b) }

    /** The common part; empty when there is none. */
    function And(r: Rect): Rect {
      if left > r.right || r.left > right || top > r.bottom || r.top > bottom then Rect(0, 0, -1, -1)
      else Rect(Max(left, r.left), Max(top, r.top), Min(right, r.right), Min(bottom, r.bottom))
    }

    predicate Intersects(r: Rect) { !And(r).IsEmpty() }

    predicate Inside(r: Rect) { r.left <= left && right <= r.right && r.top <= top && bottom <= r.bottom }
  }

  /** A rectangle from its position and size. */
  function Sized(x: int, y: int, width: int, height: int): Rect {
    Rect(x, y, x + width - 1, y + height - 1)
  }

  function Max(a: int, b: int): int { if a < b then b else a }

  function Min(a: int, b: int): int { if b < a then b else a }

  function Abs(a: int): nat { if a < 0 then -a else a }

  function Sign(v: int): int { if v > 0 then 1 else if v < 0 then -1 else 0 }

  /** Integer division by four, toward zero. */
  function Quarter(n: int): int { if n >= 0 then n / 4 else -((-n) / 4) }
}
