/** The line drawing of the fatal error screen (gfx.c: gfx_set_pixel, gfx_line). */
module GfxLine {
  import opened MachineInts

  datatype Point = Point(x: int, y: int)

  /** The end points of one call, with the derived quantities of its first two lines. */
  datatype Segment = Segment(from: Point, to: Point) {
    function Dx(): int { Abs(to.x - from.x) }
    function Dy(): int { Abs(to.y - from.y) }
    function Steps(): int { if Dx() > Dy() then Dx() else Dy() }
  }

  function Abs(x: int): int { if x < 0 then -x else x }

  /** d steps from a in the direction of b. */
  function Toward(a: int, b: int, d: int): int { if a < b then a + d else a - d }

  // ---- The ideal line ---------------------------------------------------------------

  /** minor*k/major, rounded to a nearest integer. */
  function Rounded(major: nat, minor: nat, k: nat): int {
    if major == 0 then 0 else (minor * k + (major - 1 - major / 2)) / major
  }

  /** The k-th pixel: one step along the longer axis each time, the other axis rounded. */
  function At(s: Segment, k: nat): Point {
    if s.Dx() > s.Dy() then
      Point(Toward(s.from.x, s.to.x, k), Toward(s.from.y, s.to.y, Rounded(s.Dx(), s.Dy(), k)))
    else
      Point(Toward(s.from.x, s.to.x, Rounded(s.Dy(), s.Dx(), k)), Toward(s.from.y, s.to.y, k))
  }

  function Line(s: Segment): (points: seq<Point>) {
    seq(s.Steps() + 1, k requires 0 <= k => At(s, k))
  }

  /** What the error term of the loop keeps: m is minor*k/major rounded. */
  predicate Follows(major: nat, minor: nat, k: nat, m: int) {
    0 <= major / 2 - minor * k + major * m < major
  }

  lemma RoundedFollows(major: nat, minor: nat, k: nat)
    requires major > 0
    ensures Follows(major, minor, k, Rounded(major, minor, k))
  {
    var t := minor * k + (major - 1 - major / 2);
    assert t == major * (t / major) + t % major;
  }

  lemma FollowsIsRounded(major: nat, minor: nat, k: nat, m: int)
    requires Follows(major, minor, k, m)
    ensures m == Rounded(major, minor, k)
  {
    var r := Rounded(major, minor, k);
    RoundedFollows(major, minor, k);
    assert major * (m - r) == major * m - major * r;
    MultipleAtLeast(major, m - r);
    MultipleAtLeast(major, r - m);
  }

  lemma StartsAtZero(major: nat, minor: nat)
    ensures Rounded(major, minor, 0) == 0
  {
    if major > 0 {
      assert minor * 0 == 0 && major * 0 == 0;
      FollowsIsRounded(major, minor, 0, 0);
    }
  }

  lemma EndsAtMinor(major: nat, minor: nat)
    requires minor <= major
    ensures Rounded(major, minor, major) == minor
  {
    if major > 0 {
      assert minor * major == major * minor;
      FollowsIsRounded(major, minor, major, minor);
    }
  }

  lemma NextRounded(major: nat, minor: nat, k: nat)
    requires minor <= major
    ensures Rounded(major, minor, k) <= Rounded(major, minor, k + 1) <= Rounded(major, minor, k) + 1
  {
    if major > 0 {
      var m := Rounded(major, minor, k);
      RoundedFollows(major, minor, k);
      assert minor * (k + 1) == minor * k + minor && major * (m + 1) == major * m + major;
      if major / 2 - minor * (k + 1) + major * m >= 0 {
        FollowsIsRounded(major, minor, k + 1, m);
      } else {
        FollowsIsRounded(major, minor, k + 1, m + 1);
      }
    }
  }

  lemma {:induction false} RoundedWithin(major: nat, minor: nat, k: nat)
    requires minor <= major && k <= major
    ensures 0 <= Rounded(major, minor, k) <= minor
    decreases major - k
  {
    StartsAtZero(major, minor);
    RoundedGrows(major, minor, 0, k);
    RoundedGrows(major, minor, k, major);
    EndsAtMinor(major, minor);
  }

  lemma {:induction false} RoundedGrows(major: nat, minor: nat, j: nat, k: nat)
    requires minor <= major && j <= k
    ensures Rounded(major, minor, j) <= Rounded(major, minor, k)
    decreases k
  {
    if j < k {
      RoundedGrows(major, minor, j, k - 1);
      NextRounded(major, minor, k - 1);
    }
  }

  // ---- What the line is -------------------------------------------------------------

  /** It starts and ends exactly at the end points and has max(dx, dy) + 1 pixels. */
  lemma EndPoints(s: Segment)
    ensures var line := Line(s);
            && |line| == s.Steps() + 1
            && line[0] == s.from && line[|line| - 1] == s.to
  {
    StartsAtZero(s.Dx(), s.Dy());
    StartsAtZero(s.Dy(), s.Dx());
    if s.Dx() > s.Dy() {
      EndsAtMinor(s.Dx(), s.Dy());
    } else {
      EndsAtMinor(s.Dy(), s.Dx());
    }
  }

  /** Each pixel is a king move from the one before. */
  lemma KingMoves(s: Segment, k: nat)
    requires k < s.Steps()
    ensures var p, q := Line(s)[k], Line(s)[k + 1];
            Abs(q.x - p.x) <= 1 && Abs(q.y - p.y) <= 1 && p != q
  {
    if s.Dx() > s.Dy() {
      NextRounded(s.Dx(), s.Dy(), k);
    } else {
      NextRounded(s.Dy(), s.Dx(), k);
    }
  }

  /** Each pixel lies within half a pixel of the true line, measured along the shorter axis. */
  lemma HalfPixel(s: Segment, k: nat)
    requires k <= s.Steps()
    ensures var p := Line(s)[k];
            var a, b := Abs(p.x - s.from.x), Abs(p.y - s.from.y);
            2 * Abs(b * s.Dx() - a * s.Dy()) <= s.Steps()
  {
    if s.Dx() > s.Dy() {
      RoundedWithin(s.Dx(), s.Dy(), k);
      HalfStep(s.Dx(), s.Dy(), k);
    } else {
      RoundedWithin(s.Dy(), s.Dx(), k);
      HalfStep(s.Dy(), s.Dx(), k);
    }
  }

  lemma HalfStep(major: nat, minor: nat, k: nat)
    requires minor <= major && k <= major
    ensures var m := Rounded(major, minor, k);
            2 * Abs(m * major - k * minor) <= major && 2 * Abs(k * minor - m * major) <= major
  {
    if major > 0 {
      RoundedFollows(major, minor, k);
    }
  }

  /** A line between two visible points stays on the screen. */
  lemma Inside(s: Segment, k: nat, width: nat, height: nat)
    requires 0 <= s.from.x < width && 0 <= s.to.x < width
    requires 0 <= s.from.y < height && 0 <= s.to.y < height
    requires k <= s.Steps()
    ensures 0 <= Line(s)[k].x < width && 0 <= Line(s)[k].y < height
  {
    if s.Dx() > s.Dy() {
      RoundedWithin(s.Dx(), s.Dy(), k);
    } else {
      RoundedWithin(s.Dy(), s.Dx(), k);
    }
  }

  // ---- Plotting ---------------------------------------------------------------------

  /** fb[x + y * stride], computed in 32-bit unsigned arithmetic. */
  function Cell(stride: u32, p: Point): u32 {
    (p.x + p.y * stride) % TWO_32
  }

  /** Visible points have cells of their own. */
  lemma CellsOfVisible(stride: u32, height: nat, p: Point, q: Point)
    requires stride * height <= TWO_32
    requires 0 <= p.x < stride && 0 <= p.y < height && 0 <= q.x < stride && 0 <= q.y < height
    ensures Cell(stride, p) == p.y * stride + p.x < stride * height
    ensures Cell(stride, p) == Cell(stride, q) <==> p == q
  {
    CellInside(stride, height, p);
    CellInside(stride, height, q);
    if p.y < q.y {
      RowsApart(stride, p.y, q.y);
    } else if q.y < p.y {
      RowsApart(stride, q.y, p.y);
    }
  }

  lemma CellInside(stride: u32, height: nat, p: Point)
    requires stride * height <= TWO_32 && 0 <= p.x < stride && 0 <= p.y < height
    ensures Cell(stride, p) == p.y * stride + p.x < stride * height
  {
    RowsApart(stride, p.y, height);
  }

  lemma RowsApart(stride: nat, y: nat, z: nat)
    requires y < z
    ensures y * stride + stride <= z * stride == stride * z
  {
    MultipleAtLeast(stride, z - y);
    assert (z - y) * stride == z * stride - y * stride == stride * (z - y);
  }

  function Plotted(fb: map<u32, u32>, stride: u32, points: seq<Point>, color: u32): map<u32, u32> {
    if points == [] then fb
    else Plotted(fb, stride, points[..|points| - 1], color)[Cell(stride, points[|points| - 1]) := color]
  }

  /** Plotting colours exactly the cells of the given pixels and keeps every other cell. */
  lemma {:induction false} ColoursItsPixels(fb: map<u32, u32>, stride: u32, points: seq<Point>, color: u32, c: u32)
    ensures (exists k :: 0 <= k < |points| && Cell(stride, points[k]) == c) ==>
              c in Plotted(fb, stride, points, color) && Plotted(fb, stride, points, color)[c] == color
    ensures (c in Plotted(fb, stride, points, color) <==>
              c in fb || exists k :: 0 <= k < |points| && Cell(stride, points[k]) == c)
    ensures c in fb && !(exists k :: 0 <= k < |points| && Cell(stride, points[k]) == c) ==>
              Plotted(fb, stride, points, color)[c] == fb[c]
  {
    if points != [] {
      var last := |points| - 1;
      ColoursItsPixels(fb, stride, points[..last], color, c);
      assert forall k :: 0 <= k < last ==> points[..last][k] == points[k];
      assert Cell(stride, points[last]) == c || Cell(stride, points[last]) != c;
    }
  }

  /** The linear frame buffer that gfx_ctxt describes. */
  class Context {
    var fb: map<u32, u32>
    const stride: u32
    ghost var trace: seq<Point>   // the pixels set so far

    constructor (stride: u32)
      ensures fb == map[] && this.stride == stride && trace == []
    {
      fb, trace := map[], [];
      this.stride := stride;
    }

    method SetPixel(x: int, y: int, color: u32)
      modifies this
      ensures fb == old(fb)[Cell(stride, Point(x, y)) := color] && trace == old(trace) + [Point(x, y)]
    {
      fb := fb[Cell(stride, Point(x, y)) := color];
      trace := trace + [Point(x, y)];
    }

    /** gfx_line plots the pixels of the ideal line, each once and in order, and stops. */
    method DrawLine(from: Point, to: Point, color: u32)
      modifies this
      ensures trace == old(trace) + Line(Segment(from, to))
      ensures fb == Plotted(old(fb), stride, Line(Segment(from, to)), color)
    {
      ghost var errs := Guide(Segment(from, to));
      DrawAlong(from, to, color, Line(Segment(from, to)), errs);
    }

    /** The text of gfx_line; line and errs are the pixels and error terms it will meet. */
    method DrawAlong(from: Point, to: Point, color: u32, ghost line: seq<Point>, ghost errs: seq<int>)
      requires Guides(from, to, line, errs)
      modifies this
      ensures trace == old(trace) + line && fb == Plotted(old(fb), stride, line, color)
    {
      var x0, y0, x1, y1 := from.x, from.y, to.x, to.y;
      var dx, sx := Abs(x1 - x0), if x0 < x1 then 1 else -1;
      var dy, sy := Abs(y1 - y0), if y0 < y1 then 1 else -1;
      var err: int := if dx > dy then dx / 2 else 0 - dy / 2;
      ghost var k := 0;
      assert line[..0] == [];
      while true
        invariant 0 <= k < |line| && line[k] == Point(x0, y0) && errs[k] == err
        invariant trace == old(trace) + line[..k] && fb == Plotted(old(fb), stride, line[..k], color)
        decreases |line| - k
      {
        SetPixel(x0, y0, color);
        assert line[..k + 1] == line[..k] + [line[k]] && line[..k + 1][..k] == line[..k];
        assert LeavesPixel(from, to, line, errs, k);
        if x0 == x1 && y0 == y1 {
          assert line[..k + 1] == line;
          break;
        }
        var e2 := err;
        if e2 > -dx {
          err := err - dy;
          x0 := x0 + sx;
        }
        if e2 < dy {
          err := err + dx;
          y0 := y0 + sy;
        }
        k := k + 1;
      }
    }
  }

  /** What the loop does at pixel k: it stops at the end point and only at the last pixel;
      otherwise the error term decides the next pixel and the next error term. */
  ghost predicate LeavesPixel(from: Point, to: Point, line: seq<Point>, errs: seq<int>, k: nat)
    requires k < |line| == |errs|
  {
    if k == |line| - 1 then line[k] == to
    else
      var dx, dy, p, e := Abs(to.x - from.x), Abs(to.y - from.y), line[k], errs[k];
      && p != to
      && line[k + 1].x == p.x + (if e > -dx then (if from.x < to.x then 1 else -1) else 0)
      && line[k + 1].y == p.y + (if e < dy then (if from.y < to.y then 1 else -1) else 0)
      && errs[k + 1] == e - (if e > -dx then dy else 0) + (if e < dy then dx else 0)
  }

  ghost predicate Guides(from: Point, to: Point, line: seq<Point>, errs: seq<int>) {
    var dx, dy := Abs(to.x - from.x), Abs(to.y - from.y);
    && 0 < |line| == |errs| && line[0] == from && errs[0] == (if dx > dy then dx / 2 else 0 - dy / 2)
    && forall k :: 0 <= k < |line| ==> LeavesPixel(from, to, line, errs, k)
  }

  lemma Guide(s: Segment) returns (errs: seq<int>)
    ensures Guides(s.from, s.to, Line(s), errs)
  {
    errs := seq(s.Steps() + 1, k requires 0 <= k => Error(s, k));
    Start(s);
    forall k | 0 <= k <= s.Steps()
      ensures LeavesPixel(s.from, s.to, Line(s), errs, k)
    {
      AtEnd(s, k);
      if k < s.Steps() {
        Step(s, k);
      }
    }
  }

  /** The value of err before pixel k is left. */
  function Error(s: Segment, k: nat): int {
    if s.Dx() > s.Dy() then s.Dx() / 2 - s.Dy() * k + s.Dx() * Rounded(s.Dx(), s.Dy(), k)
    else -(s.Dy() / 2) + s.Dx() * k - s.Dy() * Rounded(s.Dy(), s.Dx(), k)
  }

  lemma Start(s: Segment)
    ensures At(s, 0) == s.from
    ensures Error(s, 0) == if s.Dx() > s.Dy() then s.Dx() / 2 else -(s.Dy() / 2)
  {
    StartsAtZero(s.Dx(), s.Dy());
    StartsAtZero(s.Dy(), s.Dx());
  }

  /** The loop stops at the last pixel and not before. */
  lemma AtEnd(s: Segment, k: nat)
    requires k <= s.Steps()
    ensures At(s, k) == s.to <==> k == s.Steps()
  {
    EndPoints(s);
  }

  /** How the error term decides the next pixel. It stays between -dy and dx, so it never
      leaves the range of the differences themselves. */
  lemma Step(s: Segment, k: nat)
    requires k < s.Steps()
    ensures var p, e := At(s, k), Error(s, k);
            && -(s.Dy() as int) <= e <= s.Dx()
            && At(s, k + 1).x == p.x + (if e > -(s.Dx() as int) then Toward(s.from.x, s.to.x, 1) - s.from.x else 0)
            && At(s, k + 1).y == p.y + (if e < s.Dy() then Toward(s.from.y, s.to.y, 1) - s.from.y else 0)
            && Error(s, k + 1) == e - (if e > -(s.Dx() as int) then s.Dy() else 0) + (if e < s.Dy() then s.Dx() else 0)
  {
    if s.Dx() > s.Dy() {
      StepAlong(s.Dx(), s.Dy(), k);
    } else {
      StepAlong(s.Dy(), s.Dx(), k);
    }
  }

  lemma StepAlong(major: nat, minor: nat, k: nat)
    requires 0 < major && minor <= major
    ensures var m := Rounded(major, minor, k);
            var rest := minor * k - major * m;
            && 0 <= major / 2 - rest < major
            && var n := (if major / 2 - rest < minor then m + 1 else m);
               && Rounded(major, minor, k + 1) == n
               && minor * (k + 1) - major * n == rest + minor - (if n == m then 0 else major)
  {
    var m := Rounded(major, minor, k);
    RoundedFollows(major, minor, k);
    assert minor * (k + 1) == minor * k + minor && major * (m + 1) == major * m + major;
    FollowsIsRounded(major, minor, k + 1, if major / 2 - minor * k + major * m < minor then m + 1 else m);
  }
}
