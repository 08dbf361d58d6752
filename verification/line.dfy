/** The integer line drawer (src/drivers/fb32.c, `framebuffer_draw_line`): an endless loop that leaves only when it
    stands on the target. What it plots is stated independently of it, as the rounded points of the exact line. */
module Line {
  import opened Words

  newtype int32 = x: int | -0x8000_0000 <= x < 0x8000_0000

  datatype Point = Point(x: int32, y: int32)

  function Abs(x: int): nat {
    if x >= 0 then x else -x
  }

  // ------------------------------------------------------------------ the reference line

  /** p / q rounded to the nearest integer, halves up. */
  function Round(p: nat, q: nat): nat
    requires q > 0
  {
    (2 * p + q) / (2 * q)
  }

  /** a is p / q, rounded. */
  ghost predicate Nearest(a: int, p: int, q: int) {
    -q < 2 * (a * q - p) <= q
  }

  lemma RoundIsNearest(p: nat, q: nat)
    requires q > 0
    ensures Nearest(Round(p, q), p, q)
  {
    var a := Round(p, q);
    var r := (2 * p + q) % (2 * q);
    assert 2 * p + q == 2 * q * a + r;
    assert 2 * (a * q - p) == q - r;
  }

  lemma NearestIsOne(a: int, b: int, p: int, q: nat)
    ensures Nearest(a, p, q) && Nearest(b, p, q) ==> a == b
  {
    Multiples(a, b, q);
    Multiples(b, a, q);
  }

  /** a units from one coordinate towards the other. */
  function Toward(from: int, to: int, a: nat): int {
    if from < to then from + a else from - a
  }

  /** How many steps a line takes: one for each unit of its longer axis. */
  function Steps(from: Point, to: Point): nat {
    var dx, dy := Abs(to.x as int - from.x as int), Abs(to.y as int - from.y as int);
    if dx >= dy then dx else dy
  }

  /** One coordinate after k of n steps: the exact value at k / n of the way, rounded. */
  function Along(from: int, to: int, k: nat, n: nat): int {
    if n == 0 then from else Toward(from, to, Round(k * Abs(to - from), n))
  }

  /** Whether the point (x, y) is the one after k steps of the line. */
  predicate IsCell(from: Point, to: Point, k: nat, x: int, y: int) {
    var n := Steps(from, to);
    x == Along(from.x as int, to.x as int, k, n) && y == Along(from.y as int, to.y as int, k, n)
  }

  lemma RoundIs(a: nat, p: nat, q: nat)
    requires q > 0 && a * q == p
    ensures Round(p, q) == a
  {
    RoundIsNearest(p, q);
    NearestIsOne(Round(p, q), a, p, q);
  }

  lemma RoundAtMost(p: nat, d: nat, n: nat)
    requires 0 < n && p <= d * n
    ensures Round(p, n) <= d
  {
    RoundIsNearest(p, n);
    hide Round;
    Multiples(d, Round(p, n), n);
  }

  lemma ProductAtMost(k: nat, d: nat, n: nat)
    requires k <= n
    ensures 0 <= k * d <= d * n
  {
    if k < n { Multiples(k, n, d); }
  }

  /** Rounding stays between the ends, is exact at them, and is the identity along the longer axis. */
  lemma RoundBetween(k: nat, d: nat, n: nat)
    requires 0 < n && k <= n
    ensures 0 <= k * d && Round(k * d, n) <= d
    ensures k == 0 ==> Round(k * d, n) == 0
    ensures k == n ==> Round(k * d, n) == d
    ensures d == n ==> Round(k * d, n) == k
  {
    hide Round;
    ProductAtMost(k, d, n);
    RoundAtMost(k * d, d, n);
    if k == 0 { RoundIs(0, k * d, n); }
    if k == n { RoundIs(d, k * d, n); }
    if d == n { RoundIs(k, k * d, n); }
  }

  /** The line starts and ends on its end points and stays in the box between them. */
  lemma LineStaysInBox(from: Point, to: Point, k: nat, x: int, y: int)
    requires k <= Steps(from, to) && IsCell(from, to, k, x, y)
    ensures from.x <= to.x ==> from.x as int <= x <= to.x as int
    ensures from.x >= to.x ==> to.x as int <= x <= from.x as int
    ensures from.y <= to.y ==> from.y as int <= y <= to.y as int
    ensures from.y >= to.y ==> to.y as int <= y <= from.y as int
    ensures k == 0 ==> x == from.x as int && y == from.y as int
    ensures k == Steps(from, to) ==> x == to.x as int && y == to.y as int
  {
    AlongBetween(from.x as int, to.x as int, k, Steps(from, to));
    AlongBetween(from.y as int, to.y as int, k, Steps(from, to));
    hide Along;
  }

  lemma AlongBetween(from: int, to: int, k: nat, n: nat)
    requires k <= n && Abs(to - from) <= n
    ensures from <= to ==> from <= Along(from, to, k, n) <= to
    ensures from >= to ==> to <= Along(from, to, k, n) <= from
    ensures k == 0 ==> Along(from, to, k, n) == from
    ensures k == n ==> Along(from, to, k, n) == to
    ensures n > 0 ==> k * Abs(to - from) >= 0 && Abs(Along(from, to, k, n) - from) == Round(k * Abs(to - from), n)
  {
    if n > 0 { RoundBetween(k, Abs(to - from), n); }
    hide Round;
  }

  /** Every plotted point lies within half a pixel of the exact line: after a steps along x and b along y,
      |2 (b dx - a dy)| <= max(dx, dy). */
  lemma WithinHalfPixel(from: Point, to: Point, k: nat, x: int, y: int)
    requires k <= Steps(from, to) && IsCell(from, to, k, x, y)
    ensures var dx, dy, a, b := Abs(to.x as int - from.x as int), Abs(to.y as int - from.y as int),
              Abs(x - from.x as int), Abs(y - from.y as int);
      Abs(2 * (b * dx - a * dy)) <= Steps(from, to)
  {
    var n := Steps(from, to);
    var dx, dy := Abs(to.x as int - from.x as int), Abs(to.y as int - from.y as int);
    AlongBetween(from.x as int, to.x as int, k, n);
    AlongBetween(from.y as int, to.y as int, k, n);
    if n > 0 {
      RoundBetween(k, dx, n);
      RoundBetween(k, dy, n);
      RoundIsNearest(k * dx, n);
      RoundIsNearest(k * dy, n);
    }
    hide Round, Along;
  }

  /** A coordinate of the line is the one of the box whose distance from the start, times n, is nearest to k times the
      side, the larger one of two. */
  lemma AlongIs(from: int, to: int, k: nat, n: nat, x: int)
    requires k <= n && n > 0 && Abs(to - from) <= n
    ensures x == Along(from, to, k, n) <==>
            && (from <= x <= to || to <= x <= from)
            && -(n as int) < 2 * (Abs(x - from) * n - k * Abs(to - from)) <= n
  {
    var d, a := Abs(to - from), Abs(x - from);
    AlongBetween(from, to, k, n);
    RoundIsNearest(k * d, n);
    NearestIsOne(a, Round(k * d, n), k * d, n);
    hide Round;
  }

  /** The points of the line, without rounding: n steps for the longer side n, and after k of them the nearest point of
      the box on either axis. */
  lemma CellIs(from: Point, to: Point, k: nat, x: int, y: int)
    requires k <= Steps(from, to)
    ensures var dx, dy := Abs(to.x as int - from.x as int), Abs(to.y as int - from.y as int);
            var n := if dx < dy then dy else dx;
      && Steps(from, to) == n
      && (IsCell(from, to, k, x, y) <==>
            && (from.x as int <= x <= to.x as int || to.x as int <= x <= from.x as int)
            && (from.y as int <= y <= to.y as int || to.y as int <= y <= from.y as int)
            && (n > 0 ==> -(n as int) < 2 * (Abs(x - from.x as int) * n - k * dx) <= n)
            && (n > 0 ==> -(n as int) < 2 * (Abs(y - from.y as int) * n - k * dy) <= n))
  {
    var n := Steps(from, to);
    if n > 0 {
      AlongIs(from.x as int, to.x as int, k, n, x);
      AlongIs(from.y as int, to.y as int, k, n, y);
    } else {
      assert from == to;
    }
    hide Round, Toward;
  }

  // ------------------------------------------------------------------ the loop

  /** The error term after a steps along an axis of length dx and b along one of length dy. */
  function Err(dx: nat, dy: nat, a: nat, b: nat): int {
    (b + 1) * dx - (a + 1) * dy
  }

  /** After k steps the longer axis has advanced k times and the other by the rounded proportion. */
  ghost predicate Tracks(dx: nat, dy: nat, k: nat, a: nat, b: nat) {
    if dx >= dy then k <= dx && a == k && b <= dy && (dx > 0 ==> Nearest(b, k * dy, dx))
    else k <= dy && b == k && a <= dx && Nearest(a, k * dx, dy)
  }

  /** The next error term, and its size. */
  lemma NextErr(dx: nat, dy: nat, a: nat, b: nat)
    ensures Err(dx, dy, a, b) == b * dx - a * dy + dx - dy
    ensures Err(dx, dy, a + 1, b) == Err(dx, dy, a, b) - dy
    ensures Err(dx, dy, a, b + 1) == Err(dx, dy, a, b) + dx
    ensures Err(dx, dy, a + 1, b + 1) == Err(dx, dy, a, b) + dx - dy
  {
  }

  /** One pass through the two tests of the loop. */
  lemma Advance(dx: nat, dy: nat, k: nat, a: nat, b: nat)
    requires Tracks(dx, dy, k, a, b) && k < if dx >= dy then dx else dy
    ensures var e2 := 2 * Err(dx, dy, a, b);
      Tracks(dx, dy, k + 1, if e2 >= -(dy as int) then a + 1 else a, if e2 <= dx then b + 1 else b)
    ensures 2 * Abs(Err(dx, dy, a, b)) <= 3 * if dx >= dy then dx else dy
  {
    NextErr(dx, dy, a, b);
    hide Err;
    if dx >= dy {
      AdvanceShorter(dx, dy, k, b, b * dx, a * dy);
      ErrBound(dx, dy, b * dx - a * dy);
    } else {
      AdvanceShorter(dy, dx, k, a, a * dy, b * dx);
      ErrBound(dy, dx, a * dy - b * dx);
    }
    hide Nearest;
  }

  lemma ErrBound(long: nat, short: nat, w: int)
    requires long >= short && -(long as int) < 2 * w <= long
    ensures 2 * Abs(w + long - short) <= 3 * long && 2 * Abs(-w + short - long) <= 3 * long
  {
  }

  /** The shorter axis advances exactly when that keeps it nearest. */
  lemma AdvanceShorter(long: nat, short: nat, k: nat, b: nat, bl: int, ks: int)
    requires long >= short && k < long && b <= short && Nearest(b, k * short, long) && bl == b * long && ks == k * short
    ensures -(long as int) < 2 * (bl - ks) <= long
    ensures 2 * (bl - ks + long - short) <= long ==> Nearest(b + 1, (k + 1) * short, long) && b + 1 <= short
    ensures 2 * (bl - ks + long - short) > long ==> Nearest(b, (k + 1) * short, long)
  {
    NearestStep(long, short, k, b, bl, ks);
    hide Nearest;
    if 2 * (bl - ks + long - short) <= long { NearestAtMost(b + 1, k + 1, short, long); }
  }

  lemma NearestStep(long: nat, short: nat, k: nat, b: nat, bl: int, ks: int)
    requires long >= short && Nearest(b, k * short, long) && bl == b * long && ks == k * short
    ensures -(long as int) < 2 * (bl - ks) <= long
    ensures 2 * (bl - ks + long - short) <= long ==> Nearest(b + 1, (k + 1) * short, long)
    ensures 2 * (bl - ks + long - short) > long ==> Nearest(b, (k + 1) * short, long)
  {
    assert (k + 1) * short == ks + short && (b + 1) * long == bl + long;
  }

  lemma NearestAtMost(b: nat, k: nat, short: nat, long: nat)
    requires k <= long && long > 0 && Nearest(b, k * short, long)
    ensures b <= short
  {
    ProductAtMost(k, short, long);
    RoundAtMost(k * short, short, long);
    RoundIsNearest(k * short, long);
    NearestIsOne(b, Round(k * short, long), k * short, long);
    hide Nearest, Round;
  }

  lemma AxisAt(from: int, to: int, a: nat, k: nat, n: nat)
    requires if n > 0 then Nearest(a, k * Abs(to - from), n) else a == 0
    ensures Along(from, to, k, n) == Toward(from, to, a)
  {
    if n > 0 {
      ProductAtMost(k, Abs(to - from), k);
      RoundIsNearest(k * Abs(to - from), n);
      hide Round;
      NearestIsOne(a, Round(k * Abs(to - from), n), k * Abs(to - from), n);
    }
    hide Nearest;
  }

  /** Where the loop stands after k steps is the k-th point of the line. */
  lemma TracksCell(from: Point, to: Point, k: nat, a: nat, b: nat, x: int, y: int)
    requires Tracks(Abs(to.x as int - from.x as int), Abs(to.y as int - from.y as int), k, a, b)
    requires x == Toward(from.x as int, to.x as int, a) && y == Toward(from.y as int, to.y as int, b)
    ensures k <= Steps(from, to) && IsCell(from, to, k, x, y)
  {
    var n := Steps(from, to);
    assert n > 0 ==> Nearest(k, k * n, n);
    hide Nearest;
    AxisAt(from.x as int, to.x as int, a, k, n);
    AxisAt(from.y as int, to.y as int, b, k, n);
    hide Along;
  }

  lemma TracksEnd(dx: nat, dy: nat, k: nat)
    ensures Tracks(dx, dy, k, dx, dy) ==> k == if dx >= dy then dx else dy
  {
  }

  /** The loop's variables after k steps, a of them along x and b along y. */
  ghost predicate Standing(from: Point, to: Point, k: nat, a: nat, b: nat, x: int, y: int, err: int) {
    var dx, dy := Abs(to.x as int - from.x as int), Abs(to.y as int - from.y as int);
    && Tracks(dx, dy, k, a, b) && err == Err(dx, dy, a, b)
    && x == Toward(from.x as int, to.x as int, a) && y == Toward(from.y as int, to.y as int, b)
  }

  lemma StandingStart(from: Point, to: Point)
    ensures Standing(from, to, 0, 0, 0, from.x as int, from.y as int,
                     Abs(to.x as int - from.x as int) - Abs(to.y as int - from.y as int))
  {
  }

  /** The loop stands on the k-th point, and on the target only after all its steps; its error term stays small. */
  lemma StandingFacts(from: Point, to: Point, k: nat, a: nat, b: nat, x: int, y: int, err: int)
    ensures Standing(from, to, k, a, b, x, y, err) ==>
              && k <= Steps(from, to) && IsCell(from, to, k, x, y)
              && Between(from.x as int, to.x as int, x) && Between(from.y as int, to.y as int, y)
              && (x == to.x as int && y == to.y as int <==> k == Steps(from, to))
              && (k < Steps(from, to) ==> 2 * Abs(err) <= 3 * Steps(from, to))
  {
    if Standing(from, to, k, a, b, x, y, err) {
      var dx, dy := Abs(to.x as int - from.x as int), Abs(to.y as int - from.y as int);
      TracksCell(from, to, k, a, b, x, y);
      LineStaysInBox(from, to, k, x, y);
      TracksEnd(dx, dy, k);
      if k < Steps(from, to) { Advance(dx, dy, k, a, b); }
    }
    hide Tracks, Err, IsCell;
  }

  ghost predicate Between(from: int, to: int, x: int) {
    from <= x <= to || to <= x <= from
  }

  /** The variables the loop changes. */
  datatype LoopState = LoopState(x: int, y: int, err: int)

  /** One pass through the loop (lines 38-42). */
  function LoopPass(from: Point, to: Point, s: LoopState): LoopState {
    var dx, dy := Abs(to.x as int - from.x as int) as int, -(Abs(to.y as int - from.y as int) as int);
    var stepX, stepY := 2 * s.err >= dy, 2 * s.err <= dx;
    LoopState(if stepX then s.x + (if from.x < to.x then 1 else -1) else s.x,
              if stepY then s.y + (if from.y < to.y then 1 else -1) else s.y,
              s.err + (if stepX then dy else 0) + (if stepY then dx else 0))
  }

  /** The loop after k passes, for any two points. */
  function LoopAfter(from: Point, to: Point, k: nat): LoopState {
    if k == 0 then
      LoopState(from.x as int, from.y as int, Abs(to.x as int - from.x as int) - Abs(to.y as int - from.y as int))
    else LoopPass(from, to, LoopAfter(from, to, k - 1))
  }

  lemma StandingNext(from: Point, to: Point, k: nat, a: nat, b: nat, s: LoopState) returns (a': nat, b': nat)
    ensures Standing(from, to, k, a, b, s.x, s.y, s.err) && k < Steps(from, to) ==>
              var next := LoopPass(from, to, s); Standing(from, to, k + 1, a', b', next.x, next.y, next.err)
  {
    hide Tracks, Err;
    var dx, dy := Abs(to.x as int - from.x as int), Abs(to.y as int - from.y as int);
    a' := if 2 * s.err >= -(dy as int) then a + 1 else a;
    b' := if 2 * s.err <= dx then b + 1 else b;
    TracksNext(dx, dy, k, a, b);
  }

  lemma {:induction false} TraceStands(from: Point, to: Point, k: nat) returns (a: nat, b: nat)
    requires k <= Steps(from, to)
    ensures var s := LoopAfter(from, to, k); Standing(from, to, k, a, b, s.x, s.y, s.err)
  {
    if k == 0 {
      a, b := 0, 0;
      StandingStart(from, to);
    } else {
      a, b := TraceStands(from, to, k - 1);
      a, b := StandingNext(from, to, k - 1, a, b, LoopAfter(from, to, k - 1));
    }
    hide Standing, Steps, LoopPass;
  }

  /** For any two points the loop stands on the k-th point of the line after k passes, and on the target after all of
      them and not before. */
  lemma TraceIsLine(from: Point, to: Point, k: nat)
    ensures k <= Steps(from, to) ==>
              var s := LoopAfter(from, to, k);
              && IsCell(from, to, k, s.x, s.y)
              && Between(from.x as int, to.x as int, s.x) && Between(from.y as int, to.y as int, s.y)
              && (s.x == to.x as int && s.y == to.y as int <==> k == Steps(from, to))
              && (k < Steps(from, to) ==> 2 * Abs(s.err) <= 3 * Steps(from, to))
  {
    if k <= Steps(from, to) {
      var s := LoopAfter(from, to, k);
      var a, b := TraceStands(from, to, k);
      StandingFacts(from, to, k, a, b, s.x, s.y, s.err);
    }
    hide *;
  }

  predicate FitsInt(x: int) {
    -0x8000_0000 <= x < 0x8000_0000
  }

  /** When three times the longer axis fits an int, so does everything the loop computes. */
  lemma TraceFits(from: Point, to: Point, k: nat)
    requires 3 * Steps(from, to) < 0x8000_0000 && k < Steps(from, to)
    ensures var s, next := LoopAfter(from, to, k), LoopAfter(from, to, k + 1);
      && -0x8000_0000 <= s.x < 0x8000_0000 && -0x8000_0000 <= s.y < 0x8000_0000
      && -0x8000_0000 <= s.err && -0x8000_0000 <= 2 * s.err < 0x8000_0000
      && -0x8000_0000 <= next.x < 0x8000_0000 && -0x8000_0000 <= next.y < 0x8000_0000
      && -0x8000_0000 <= next.err < 0x8000_0000
      && -0x8000_0000 <= s.err - Abs(to.y as int - from.y as int) < 0x8000_0000
  {
    hide *;
    TraceIsLine(from, to, k);
    TraceIsLine(from, to, k + 1);
    TraceNext(from, to, k);
    SidesBelow(from, to);
    AbsIs(LoopAfter(from, to, k).err);
    var s, next := LoopAfter(from, to, k), LoopAfter(from, to, k + 1);
    InSpan(from.x, to.x, s.x);
    InSpan(from.y, to.y, s.y);
    InSpan(from.x, to.x, next.x);
    InSpan(from.y, to.y, next.y);
    ErrFits(s.err, Steps(from, to), Abs(to.x as int - from.x as int), Abs(to.y as int - from.y as int), next.err);
  }

  lemma SidesBelow(from: Point, to: Point)
    ensures Abs(to.x as int - from.x as int) <= Steps(from, to) && Abs(to.y as int - from.y as int) <= Steps(from, to)
  {
  }

  lemma InSpan(from: int32, to: int32, x: int)
    ensures Between(from as int, to as int, x) ==> FitsInt(x)
  {
  }

  lemma ErrFits(err: int, n: nat, dx: nat, dy: nat, next: int)
    ensures 2 * Abs(err) <= 3 * n && dx <= n && dy <= n && 3 * n < 0x8000_0000 ==>
              FitsInt(err) && FitsInt(2 * err) && FitsInt(err - dy)
    ensures 2 * Abs(err) <= 3 * n && dx <= n && dy <= n && 3 * n < 0x8000_0000 && err - dy <= next <= err + dx ==>
              FitsInt(next)
  {
  }

  lemma TracksNext(dx: nat, dy: nat, k: nat, a: nat, b: nat)
    ensures Tracks(dx, dy, k, a, b) && k < (if dx >= dy then dx else dy) ==>
              var err := Err(dx, dy, a, b);
              var stepX, stepY := 2 * err >= -(dy as int), 2 * err <= dx;
              var a', b' := if stepX then a + 1 else a, if stepY then b + 1 else b;
              Tracks(dx, dy, k + 1, a', b') &&
              Err(dx, dy, a', b') == err + (if stepX then -(dy as int) else 0) + (if stepY then dx else 0)
  {
    if Tracks(dx, dy, k, a, b) && k < (if dx >= dy then dx else dy) {
      Advance(dx, dy, k, a, b);
      NextErr(dx, dy, a, b);
    }
    hide Tracks, Err;
  }

  // ------------------------------------------------------------------ the frame buffer

  newtype byte = x: int | 0 <= x < 256

  /** Byte `offset` of the frame buffer belongs to the 32-bit pixel (x, y). */
  predicate InPixel(pitch: int, offset: int, x: int, y: int) {
    0 <= offset - (pitch * y + 4 * x) < 4
  }

  /** A byte of a row belongs to the pixel its place in the row says, and to no other. */
  lemma PixelDecodes(pitch: int, offset: int, x: int, y: int)
    requires 0 <= x && 4 * x + 4 <= pitch && 0 <= offset
    ensures InPixel(pitch, offset, x, y) <==> offset / pitch == y && offset % pitch / 4 == x
  {
    if InPixel(pitch, offset, x, y) {
      RowOf(offset, pitch, y, offset - pitch * y);
    }
    assert offset == pitch * (offset / pitch) + offset % pitch;
  }

  lemma PixelsDecode(pitch: int, x: int, y: int)
    requires 0 <= x && 4 * x + 4 <= pitch
    ensures forall offset: nat :: InPixel(pitch, offset, x, y) <==> offset / pitch == y && offset % pitch / 4 == x
  {
    forall offset: nat
      ensures InPixel(pitch, offset, x, y) <==> offset / pitch == y && offset % pitch / 4 == x
    {
      PixelDecodes(pitch, offset, x, y);
    }
  }

  lemma RowOf(offset: int, pitch: int, y: int, r: int)
    requires 0 <= offset == pitch * y + r && 0 <= r < pitch
    ensures offset / pitch == y && offset % pitch == r
  {
    if y < 0 { Multiples(y, 0, pitch); }
    Swap(pitch, y);
    QuotientIs(offset, pitch, y, r);
  }

  lemma Swap(a: int, b: int)
    ensures a * b == b * a
  {
  }

  /** Byte `offset` belongs to one of the first n points of the line. */
  ghost predicate Plotted(from: Point, to: Point, pitch: int, n: nat, offset: int) {
    exists k: nat, x: int, y: int :: k < n && IsCell(from, to, k, x, y) && InPixel(pitch, offset, x, y)
  }

  lemma PlottedNext(from: Point, to: Point, pitch: int, n: nat, m: nat, x: int, y: int)
    ensures IsCell(from, to, n, x, y) && m == n + 1 ==>
              forall offset {:trigger Plotted(from, to, pitch, m, offset)} ::
                Plotted(from, to, pitch, m, offset) <==>
                  Plotted(from, to, pitch, n, offset) || InPixel(pitch, offset, x, y)
  {
  }

  /** `fb_config_t`, with the memory behind its address. */
  class Framebuffer {
    const memory: array<byte>
    const width: int32
    const height: int32
    const pitch: int32

    /** The rows fit the memory, and their byte offsets fit an int. */
    ghost predicate Valid() {
      && width > 0 && height > 0 && 4 * (width as int) <= pitch as int
      && (pitch as int) * (height as int) <= memory.Length && (pitch as int) * (height as int) < 0x8000_0000
    }

    ghost predicate Inside(p: Point) {
      0 <= p.x < width && 0 <= p.y < height
    }

    constructor (memory: array<byte>, width: int32, height: int32, pitch: int32)
      ensures this.memory == memory && this.width == width && this.height == height && this.pitch == pitch
    {
      this.memory, this.width, this.height, this.pitch := memory, width, height, pitch;
    }

    /** Rows of at least 4 bytes a pixel in memory below 2 GiB will do, and points on them. */
    lemma Usable(p: Point)
      requires 0 <= p.x < width && 0 <= p.y < height
      requires 4 * (width as int) <= pitch as int && (pitch as int) * (height as int) < 0x8000_0000
      requires (pitch as int) * (height as int) <= memory.Length
      ensures Valid() && Inside(p)
    {
    }

    lemma SidesFit(from: Point, to: Point)
      ensures Valid() && Inside(from) && Inside(to) ==>
                0 <= from.x < 0x2000_0000 && 0 <= from.y < 0x2000_0000 && 0 <= to.x < 0x2000_0000
                  && 0 <= to.y < 0x2000_0000
                && Steps(from, to) < 0x2000_0000
    {
      if Valid() { SidesAre(pitch as int, height as int, width as int); }
    }

    lemma InsideBetween(from: Point, to: Point, x: int32, y: int32)
      ensures Inside(from) && Inside(to) && Between(from.x as int, to.x as int, x as int)
                && Between(from.y as int, to.y as int, y as int)
              ==> Inside(Point(x, y)) && 0 <= x && 0 <= y
    {
    }

    /** A byte of the line is one whose row and place in the row are a point of the line. */
    lemma PlottedDecodes(from: Point, to: Point, offset: int)
      requires Valid() && Inside(from) && Inside(to) && offset >= 0
      ensures pitch as int > 0
      ensures Plotted(from, to, pitch as int, Steps(from, to) + 1, offset) <==>
              exists k: nat, x: int, y: int ::
                && y == offset / (pitch as int) && x == offset % (pitch as int) / 4
                && k <= Steps(from, to) && IsCell(from, to, k, x, y)
    {
      hide IsCell, Steps, InPixel;
      forall k: nat, x: int, y: int | k <= Steps(from, to) && IsCell(from, to, k, x, y)
        ensures InPixel(pitch as int, offset, x, y) <==>
                  offset / (pitch as int) == y && offset % (pitch as int) / 4 == x
      {
        LineStaysInBox(from, to, k, x, y);
        PixelDecodes(pitch as int, offset, x, y);
      }
    }

    /** Bytes set by the pixels of the line are those whose place in the rows is a point of the line. */
    lemma Decoded(from: Point, to: Point, n: nat, before: seq<byte>, after: seq<byte>)
      requires Valid() && Inside(from) && Inside(to) && n == Steps(from, to) + 1 && |before| == |after|
      requires forall i :: 0 <= i < |after| ==>
                 after[i] == if Plotted(from, to, pitch as int, n, i) then 255 else before[i]
      ensures pitch as int > 0
      ensures forall i :: 0 <= i < |after| ==>
                after[i] == if (exists k: nat, x: int, y: int ::
                                  && y == i / (pitch as int) && x == i % (pitch as int) / 4
                                  && k <= Steps(from, to) && IsCell(from, to, k, x, y))
                            then 255 else before[i]
    {
      hide IsCell, Steps, Plotted;
      forall i | 0 <= i < |after|
        ensures after[i] == if (exists k: nat, x: int, y: int ::
                                  && y == i / (pitch as int) && x == i % (pitch as int) / 4
                                  && k <= Steps(from, to) && IsCell(from, to, k, x, y))
                            then 255 else before[i]
      {
        PlottedDecodes(from, to, i);
      }
    }

    /** `*pixel32 (fb, x, y) = FOREGROUND` (lines 9-13). */
    method Foreground(x: int32, y: int32)
      requires Valid() && Inside(Point(x, y))
      modifies memory
      ensures forall i :: 0 <= i < memory.Length ==>
                memory[i] == if InPixel(pitch as int, i, x as int, y as int) then 255 else old(memory[i])
      ensures pitch as int > 0
      ensures forall i :: 0 <= i < memory.Length ==>
                memory[i] == if i / (pitch as int) == y as int && i % (pitch as int) / 4 == x as int then 255
                             else old(memory[i])
    {
      RowFits(pitch as int, y as int, height as int, x as int, width as int);
      var offset := pitch * y + 4 * x;
      memory[offset], memory[offset + 1], memory[offset + 2], memory[offset + 3] := 255, 255, 255, 255;
      PixelsDecode(pitch as int, x as int, y as int);
    }

    /** `framebuffer_draw_line` (lines 21-44): plots exactly the points of the line, inside the frame buffer, without
        int overflow, and stops. */
    method DrawLine(from: Point, to: Point)
      requires Valid() && Inside(from) && Inside(to)
      modifies memory
      ensures forall i :: 0 <= i < memory.Length ==>
                memory[i] == if Plotted(from, to, pitch as int, Steps(from, to) + 1, i) then 255 else old(memory[i])
      ensures pitch as int > 0
      ensures forall i :: 0 <= i < memory.Length ==>
                memory[i] == if (exists k: nat, x: int, y: int ::
                                   && y == i / (pitch as int) && x == i % (pitch as int) / 4
                                   && k <= Steps(from, to) && IsCell(from, to, k, x, y))
                             then 255 else old(memory[i])
    {
      hide *;
      SidesFit(from, to);
      var x0, y0 := from.x, from.y;
      var dx: int32 := if to.x - from.x >= 0 then to.x - from.x else -(to.x - from.x);
      var dy: int32 := -(if to.y - from.y >= 0 then to.y - from.y else -(to.y - from.y));
      var sx: int32 := if x0 < to.x then 1 else -1;
      var sy: int32 := if y0 < to.y then 1 else -1;
      var err := dx + dy;
      ghost var k := 0;
      AbsIs(to.x as int - from.x as int);
      AbsIs(to.y as int - from.y as int);
      TraceStart(from, to);
      NonePlotted(from, to, pitch as int);
      while true
        invariant k <= Steps(from, to) && LoopAfter(from, to, k) == LoopState(x0 as int, y0 as int, err as int)
        invariant forall i :: 0 <= i < memory.Length ==>
                    memory[i] == if Plotted(from, to, pitch as int, k, i) then 255 else old(memory[i])
        decreases Steps(from, to) - k
      {
        TraceIsLine(from, to, k);
        InsideBetween(from, to, x0, y0);
        Foreground(x0, y0);
        PlottedNext(from, to, pitch as int, k, k + 1, x0 as int, y0 as int);
        if x0 == to.x && y0 == to.y {
          Decoded(from, to, k + 1, old(memory[..]), memory[..]);
          break;
        }
        TraceNext(from, to, k);
        AbsIs(err as int);
        var e2 := 2 * err;
        if e2 >= dy {
          err := err + dy;
          x0 := x0 + sx;
        }
        if e2 <= dx {
          err := err + dx;
          y0 := y0 + sy;
        }
        k := k + 1;
      }
    }
  }

  lemma TraceStart(from: Point, to: Point)
    ensures LoopAfter(from, to, 0) ==
            LoopState(from.x as int, from.y as int, Abs(to.x as int - from.x as int) - Abs(to.y as int - from.y as int))
  {
  }

  lemma TraceNext(from: Point, to: Point, k: nat)
    ensures var dx, dy := Abs(to.x as int - from.x as int) as int, -(Abs(to.y as int - from.y as int) as int);
      var s := LoopAfter(from, to, k);
      var stepX, stepY := 2 * s.err >= dy, 2 * s.err <= dx;
      LoopAfter(from, to, k + 1) ==
      LoopState(if stepX then s.x + (if from.x < to.x then 1 else -1) else s.x,
                if stepY then s.y + (if from.y < to.y then 1 else -1) else s.y,
                s.err + (if stepX then dy else 0) + (if stepY then dx else 0))
  {
  }

  lemma AbsIs(x: int)
    ensures Abs(x) == if x >= 0 then x else -x
  {
  }

  lemma NonePlotted(from: Point, to: Point, pitch: int)
    ensures forall offset :: !Plotted(from, to, pitch, 0, offset)
  {
  }

  lemma RowFits(pitch: int, y: int, height: int, x: int, width: int)
    requires 0 <= y < height && 0 <= x < width && 4 * width <= pitch
    ensures 0 <= pitch * y && pitch * y + 4 * x + 4 <= pitch * height
  {
    ProductAtMost(y, pitch, height);
    Multiples(y, height, pitch);
  }

  lemma SidesAre(pitch: int, height: int, width: int)
    requires 0 < height && 0 < width && 4 * width <= pitch && pitch * height < 0x8000_0000
    ensures width < 0x2000_0000 && height < 0x2000_0000
  {
    Multiples(0, height, pitch);
    ProductAtMost(4, height, pitch);
  }
}
