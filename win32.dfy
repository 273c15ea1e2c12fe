/** The small part of the Win32 API surface the utility relies on: integer
    widths, handle values, and the rectangle intersection of `IntersectRect`. */
module Win32 {

  newtype i16 = x: int | -0x8000 <= x < 0x8000
  newtype i32 = x: int | -0x8000_0000 <= x < 0x8000_0000
  newtype u32 = x: int | 0 <= x < 0x1_0000_0000
  newtype usize = x: int | 0 <= x < 0x1_0000_0000_0000_0000

  /** Window, monitor and hook handles are opaque machine addresses; 0 is the null handle. */
  type Hwnd = nat
  type HMonitor = nat
  type HHook = nat

  /** `is_invalid()` of the windows crate's handle types: the handle is null. */
  predicate IsInvalid(h: nat) {
    h == 0
  }

  /** Rust's `as u32` on a `usize` value keeps the low 32 bits: a value
      that already fits is unchanged, and the result differs from the input by
      a whole number of 2^32 steps. */
  function LowDword(x: usize): (r: u32)
    ensures x as int < 0x1_0000_0000 ==> r as int == x as int
    ensures exists k: nat :: x as int == k * 0x1_0000_0000 + r as int
  {
    var k: nat := x as int / 0x1_0000_0000;
    var low := x as int - k * 0x1_0000_0000;
    assert x as int == k * 0x1_0000_0000 + low;
    low as u32
  }

  /** Rust's `as u16` on a u32 keeps the low 16 bits: a value that already
      fits is unchanged, and the result differs from the input by a whole
      number of 2^16 steps. */
  function LowWord(x: u32): (r: int)
    ensures 0 <= r < 0x1_0000
    ensures x as int < 0x1_0000 ==> r == x as int
    ensures exists k: nat :: x as int == k * 0x1_0000 + r
  {
    var k: nat := x as int / 0x1_0000;
    var low := x as int - k * 0x1_0000;
    assert x as int == k * 0x1_0000 + low;
    low
  }

  /** A `RECT`: the half-open box [left, right) x [top, bottom). */
  datatype Rect = Rect(left: int, top: int, right: int, bottom: int)

  const EmptyRect := Rect(0, 0, 0, 0)

  /** `IsRectEmpty`: the rectangle covers no point. */
  predicate IsRectEmpty(r: Rect) {
    r.left >= r.right || r.top >= r.bottom
  }

  /** The point (x, y) lies inside `r`. */
  ghost predicate ContainsPoint(r: Rect, x: int, y: int) {
    r.left <= x < r.right && r.top <= y < r.bottom
  }

  /** Reference definition: the two rectangles share at least one point. */
  ghost predicate Overlap(a: Rect, b: Rect) {
    exists x: int, y: int :: ContainsPoint(a, x, y) && ContainsPoint(b, x, y)
  }

  function Max(a: int, b: int): int { if a < b then b else a }
  function Min(a: int, b: int): int { if a < b then a else b }

  /** What `IntersectRect(&mut dest, src1, src2)` returns and writes to `dest`. */
  datatype Intersection = Intersection(nonEmpty: bool, dest: Rect)

  /** `IntersectRect`: on an empty intersection it writes the empty rectangle
      (0, 0, 0, 0) and returns FALSE; otherwise it writes the overlap. */
  function IntersectRect(src1: Rect, src2: Rect): (r: Intersection)
    ensures !r.nonEmpty ==> r.dest == EmptyRect
    ensures r.nonEmpty <==> !IsRectEmpty(r.dest)
  {
    if IsRectEmpty(src1) || IsRectEmpty(src2)
       || src1.left >= src2.right || src2.left >= src1.right
       || src1.top >= src2.bottom || src2.top >= src1.bottom
    then Intersection(false, EmptyRect)
    else Intersection(true, Rect(Max(src1.left, src2.left), Max(src1.top, src2.top),
                                 Min(src1.right, src2.right), Min(src1.bottom, src2.bottom)))
  }

  /** `IntersectRect` reports a non-empty intersection exactly when the two
      rectangles share a point, and the rectangle it writes holds exactly the
      common points. */
  lemma IntersectRectIsOverlap(a: Rect, b: Rect)
    ensures IntersectRect(a, b).nonEmpty <==> Overlap(a, b)
    ensures forall x: int, y: int :: ContainsPoint(IntersectRect(a, b).dest, x, y)
                                     <==> ContainsPoint(a, x, y) && ContainsPoint(b, x, y)
  {
    var r := IntersectRect(a, b);
    if r.nonEmpty {
      var x, y := Max(a.left, b.left), Max(a.top, b.top);
      assert ContainsPoint(a, x, y) && ContainsPoint(b, x, y);
    }
  }
}
