/**
 * N-up imposition: the transformation matrices that place 2^power logical
 * pages on one physical page, in the order the logical pages are drawn.
 */
module NUp {

  /** An affine transformation `[a b c d e f]`: (x, y) goes to (a*x + c*y + e, b*x + d*y + f). */
  datatype Matrix = Matrix(a: real, b: real, c: real, d: real, e: real, f: real)

  datatype Point = Point(x: real, y: real)

  function Apply(m: Matrix, p: Point): Point {
    Point(m.a * p.x + m.c * p.y + m.e, m.b * p.x + m.d * p.y + m.f)
  }

  function Pow2(n: nat): (r: nat)
    ensures r >= 1
  {
    if n == 0 then 1 else 2 * Pow2(n - 1)
  }

  /** Tiles per row (even power) or rows of tiles (odd power): 2^(power div 2). */
  function Dim(power: nat): (dim: nat)
    ensures dim >= 1
  {
    Pow2(power / 2)
  }

  /** One row of the grid used for an even power: columns 0 .. dim-1 of row `i`. */
  function EvenRow(i: nat, dim: nat, w: real, h: real, c: real): (row: seq<Matrix>)
    ensures |row| == dim
  {
    seq(dim, j requires 0 <= j < dim => Matrix(c, 0.0, 0.0, c, j as real * w * c, i as real * h * c))
  }

  /** Rows 0 .. n-1 of the even-power grid, row after row. */
  function EvenRows(n: nat, dim: nat, w: real, h: real, c: real): seq<Matrix> {
    if n == 0 then [] else EvenRows(n - 1, dim, w, h, c) + EvenRow(n - 1, dim, w, h, c)
  }

  /** One row of the rotated layout used for an odd power: columns 0 .. 2*dim-1 of row `i`. */
  function OddRow(i: nat, dim: nat, w: real, h: real, c: real): (row: seq<Matrix>)
    ensures |row| == 2 * dim
  {
    seq(2 * dim, j requires 0 <= j < 2 * dim => Matrix(0.0, c, -c, 0.0, i as real * h * c, j as real * w * c))
  }

  /** Rows i, i-1, .. 1 of the rotated layout (the source counts rows downwards). */
  function OddRows(i: nat, dim: nat, w: real, h: real, c: real): seq<Matrix> {
    if i == 0 then [] else OddRow(i, dim, w, h, c) + OddRows(i - 1, dim, w, h, c)
  }

  /** Reference definition of tile `k` for an even power: row-major, scaled by `c`. */
  function EvenTile(k: nat, dim: nat, w: real, h: real, c: real): Matrix
    requires dim >= 1
  {
    Matrix(c, 0.0, 0.0, c, (k % dim) as real * w * c, (k / dim) as real * h * c)
  }

  /** Reference definition of tile `k` for an odd power: quarter-turned, rows counted down from `dim`. */
  function OddTile(k: nat, dim: nat, w: real, h: real, c: real): Matrix
    requires dim >= 1
  {
    Matrix(0.0, c, -c, 0.0, (dim - k / (2 * dim)) as real * h * c, (k % (2 * dim)) as real * w * c)
  }

  /**
   * `nup_matrices(power, w, h)` with the scale `c = 1/sqrt(2^power)` passed
   * in: 2^power tiles, either a dim x dim grid or dim rows of 2*dim rotated
   * tiles, in drawing order.
   */
  function NupMatrices(power: nat, w: real, h: real, c: real): (tiles: seq<Matrix>)
    ensures |tiles| == Pow2(power)
    ensures power % 2 == 0 ==>
      forall k | 0 <= k < |tiles| :: tiles[k] == EvenTile(k, Dim(power), w, h, c)
    ensures power % 2 == 1 ==>
      forall k | 0 <= k < |tiles| :: tiles[k] == OddTile(k, Dim(power), w, h, c)
  {
    var dim := Dim(power);
    Pow2Split(power);
    if power % 2 == 1 then
      OddRowsLength(dim, dim, w, h, c);
      assert forall k | 0 <= k < dim * (2 * dim) ::
        OddRows(dim, dim, w, h, c)[k] == OddTile(k, dim, w, h, c) by {
        forall k | 0 <= k < dim * (2 * dim)
          ensures OddRows(dim, dim, w, h, c)[k] == OddTile(k, dim, w, h, c)
        {
          OddRowsAt(dim, dim, w, h, c, k);
        }
      }
      OddRows(dim, dim, w, h, c)
    else
      EvenRowsAt(dim, dim, w, h, c);
      EvenRows(dim, dim, w, h, c)
  }

  lemma {:induction false} Pow2Split(power: nat)
    ensures power % 2 == 0 ==> Pow2(power) == Dim(power) * Dim(power)
    ensures power % 2 == 1 ==> Pow2(power) == Dim(power) * (2 * Dim(power))
  {
    Pow2Add(power / 2, power / 2);
    if power % 2 == 1 {
      assert power == power / 2 + power / 2 + 1;
    }
  }

  lemma {:induction false} Pow2Add(m: nat, n: nat)
    ensures Pow2(m + n) == Pow2(m) * Pow2(n)
  {
    if m > 0 {
      Pow2Add(m - 1, n);
    }
  }

  /** `k = q*d + r` with `0 <= r < d` determines the quotient and the remainder. */
  lemma DivModOf(k: nat, q: nat, r: nat, d: nat)
    requires d >= 1 && r < d && k == q * d + r
    ensures k / d == q && k % d == r
  {
    var q', r' := k / d, k % d;
    assert (q' - q) * d == r - r';
    MulMono(q' - q, d);
  }

  lemma MulMono(t: int, d: int)
    requires d >= 1
    ensures t >= 1 ==> t * d >= d
    ensures t <= -1 ==> t * d <= -d
  {
  }

  lemma {:induction false} EvenRowsAt(n: nat, dim: nat, w: real, h: real, c: real)
    requires dim >= 1
    ensures |EvenRows(n, dim, w, h, c)| == n * dim
    ensures forall k | 0 <= k < n * dim :: EvenRows(n, dim, w, h, c)[k] == EvenTile(k, dim, w, h, c)
  {
    if n > 0 {
      EvenRowsAt(n - 1, dim, w, h, c);
      var prev := EvenRows(n - 1, dim, w, h, c);
      var row := EvenRow(n - 1, dim, w, h, c);
      forall k | (n - 1) * dim <= k < n * dim
        ensures (prev + row)[k] == EvenTile(k, dim, w, h, c)
      {
        var j := k - (n - 1) * dim;
        DivModOf(k, n - 1, j, dim);
      }
    }
  }

  lemma {:induction false} OddRowsLength(i: nat, dim: nat, w: real, h: real, c: real)
    ensures |OddRows(i, dim, w, h, c)| == i * (2 * dim)
  {
    if i > 0 {
      OddRowsLength(i - 1, dim, w, h, c);
      assert i * (2 * dim) == 2 * dim + (i - 1) * (2 * dim);
    }
  }

  lemma {:induction false} OddRowsAt(i: nat, dim: nat, w: real, h: real, c: real, k: nat)
    requires 1 <= dim && i <= dim && k < i * (2 * dim)
    ensures k < |OddRows(i, dim, w, h, c)|
    ensures OddRows(i, dim, w, h, c)[k] == OddTile(k + (dim - i) * (2 * dim), dim, w, h, c)
  {
    OddRowsLength(i, dim, w, h, c);
    if k < 2 * dim {
      OddRowEntry(i, k, dim, w, h, c);
    } else {
      OddRowsAt(i - 1, dim, w, h, c, k - 2 * dim);
      ShiftRow(k, i, dim);
    }
  }

  lemma ShiftRow(k: nat, i: nat, dim: nat)
    requires 1 <= i <= dim && 2 * dim <= k
    ensures (k - 2 * dim) + (dim - (i - 1)) * (2 * dim) == k + (dim - i) * (2 * dim)
  {
    assert (dim - (i - 1)) * (2 * dim) == (dim - i) * (2 * dim) + 2 * dim;
  }

  lemma OddRowEntry(i: nat, j: nat, dim: nat, w: real, h: real, c: real)
    requires 1 <= i <= dim && j < 2 * dim
    ensures OddRow(i, dim, w, h, c)[j] == OddTile(j + (dim - i) * (2 * dim), dim, w, h, c)
  {
    DivModOf(j + (dim - i) * (2 * dim), dim - i, j, 2 * dim);
  }

  /** The quotient of an index below n*d by d is below n. */
  lemma DivBelow(k: nat, d: nat, n: nat)
    requires d >= 1 && k < n * d
    ensures k / d < n
  {
    var q := k / d;
    assert k == q * d + k % d;
    MulMono(q - n + 1, d);
    assert (q - n + 1) * d == q * d - n * d + d;
  }

  /** a <= b scaled by a non-negative factor stays ordered. */
  lemma MulLe(a: real, b: real, f: real)
    requires a <= b && f >= 0.0
    ensures a * f <= b * f
  {
  }

  /** Tile `k` of an N-up layout, as `nup_matrices` returns it. */
  lemma NupTile(power: nat, w: real, h: real, c: real, k: nat)
    requires k < Pow2(power)
    ensures power % 2 == 0 ==> NupMatrices(power, w, h, c)[k] == EvenTile(k, Dim(power), w, h, c)
    ensures power % 2 == 1 ==> NupMatrices(power, w, h, c)[k] == OddTile(k, Dim(power), w, h, c)
  {
  }

  /** The upright tile whose lower-left corner is (x0, y0) sends (0, 0) there and (w, h) to (x0 + c*w, y0 + c*h). */
  lemma UprightCorners(x0: real, y0: real, w: real, h: real, c: real)
    ensures Apply(Matrix(c, 0.0, 0.0, c, x0, y0), Point(0.0, 0.0)) == Point(x0, y0)
    ensures Apply(Matrix(c, 0.0, 0.0, c, x0, y0), Point(w, h)) == Point(x0 + c * w, y0 + c * h)
    ensures Apply(Matrix(c, 0.0, 0.0, c, x0, y0), Point(w, h)).x == x0 + c * w
    ensures Apply(Matrix(c, 0.0, 0.0, c, x0, y0), Point(w, h)).y == y0 + c * h
  {
    assert 0.0 * h == 0.0 && 0.0 * w == 0.0 && c * 0.0 == 0.0;
  }

  /** The quarter-turned tile anchored at (x0, y0) sends (0, 0) there and (w, h) to (x0 - c*h, y0 + c*w). */
  lemma TurnedCorners(x0: real, y0: real, w: real, h: real, c: real)
    ensures Apply(Matrix(0.0, c, -c, 0.0, x0, y0), Point(0.0, 0.0)) == Point(x0, y0)
    ensures Apply(Matrix(0.0, c, -c, 0.0, x0, y0), Point(w, h)) == Point(x0 - c * h, y0 + c * w)
  {
    assert 0.0 * h == 0.0 && 0.0 * w == 0.0 && c * 0.0 == 0.0 && -c * 0.0 == 0.0;
  }

  /** n*len*c + c*len is the next multiple: (n + 1)*len*c. */
  lemma NextMultiple(n: real, len: real, c: real)
    ensures n * len * c + c * len == (n + 1.0) * len * c
    ensures n * len * c - c * len == (n - 1.0) * len * c
  {
  }

  /** Corner mapping of the reference even-power tile `k` of a dim x dim grid. */
  lemma EvenTileRefCorners(k: nat, dim: nat, w: real, h: real, c: real)
    requires 1 <= dim && k < dim * dim
    ensures var col, row := k % dim, k / dim;
            && row < dim && col < dim
            && Apply(EvenTile(k, dim, w, h, c), Point(0.0, 0.0)) == Point(col as real * w * c, row as real * h * c)
            && Apply(EvenTile(k, dim, w, h, c), Point(w, h))
               == Point((col as real + 1.0) * w * c, (row as real + 1.0) * h * c)
  {
    DivBelow(k, dim, dim);
    var col, row := (k % dim) as real, (k / dim) as real;
    UprightCorners(col * w * c, row * h * c, w, h, c);
    NextMultiple(col, w, c);
    NextMultiple(row, h, c);
  }

  /**
   * Even power, corner mapping: tile `k` sends the logical page's corners
   * (0, 0) and (w, h) to the corners of grid cell (column k mod dim, row k div
   * dim), and both indices are below dim.
   */
  lemma EvenTileCorners(power: nat, w: real, h: real, c: real, k: nat)
    requires power % 2 == 0 && k < Pow2(power)
    ensures var dim := Dim(power);
            var col, row := k % dim, k / dim;
            && row < dim && col < dim
            && Apply(NupMatrices(power, w, h, c)[k], Point(0.0, 0.0))
               == Point(col as real * w * c, row as real * h * c)
            && Apply(NupMatrices(power, w, h, c)[k], Point(w, h))
               == Point((col as real + 1.0) * w * c, (row as real + 1.0) * h * c)
  {
    Pow2Split(power);
    NupTile(power, w, h, c, k);
    EvenTileRefCorners(k, Dim(power), w, h, c);
  }

  /**
   * With c = 1/dim, cell `n` of `dim` equal parts of a side of length `len`
   * starts at x0 = n*len*c and ends within the side. The offset is passed as
   * `x0` so that callers can treat it as one quantity.
   */
  lemma CellInside(n: nat, dim: nat, len: real, c: real, x0: real)
    requires n < dim && c * dim as real == 1.0 && len >= 0.0 && x0 == n as real * len * c
    ensures 0.0 <= x0 && x0 + c * len <= len
  {
    var cl := len * c;
    assert c >= 0.0;
    assert cl >= 0.0;
    MulLe(0.0, n as real, cl);
    MulLe(n as real + 1.0, dim as real, cl);
    assert dim as real * cl == len * (c * dim as real);
  }

  /** An upright tile anchored at (x0, y0) whose far corner stays within w x h maps the page into the page. */
  lemma UprightInside(x0: real, y0: real, w: real, h: real, c: real)
    requires 0.0 <= x0 && x0 + c * w <= w && 0.0 <= y0 && y0 + c * h <= h
    ensures var m := Matrix(c, 0.0, 0.0, c, x0, y0);
            var lo, hi := Apply(m, Point(0.0, 0.0)), Apply(m, Point(w, h));
            0.0 <= lo.x && hi.x <= w && 0.0 <= lo.y && hi.y <= h
  {
    assert 0.0 * h == 0.0 && 0.0 * w == 0.0 && c * 0.0 == 0.0;
  }

  /** Even power with c = 1/dim: the logical page drawn through any tile lands inside the physical page. */
  lemma EvenTileInside(power: nat, w: real, h: real, c: real, k: nat)
    requires power % 2 == 0 && k < Pow2(power)
    requires c * Dim(power) as real == 1.0 && w >= 0.0 && h >= 0.0
    ensures var lo, hi := Apply(NupMatrices(power, w, h, c)[k], Point(0.0, 0.0)),
                          Apply(NupMatrices(power, w, h, c)[k], Point(w, h));
            0.0 <= lo.x && hi.x <= w && 0.0 <= lo.y && hi.y <= h
  {
    Pow2Split(power);
    NupTile(power, w, h, c, k);
    EvenTileRefInside(k, Dim(power), w, h, c);
  }

  lemma EvenTileRefInside(k: nat, dim: nat, w: real, h: real, c: real)
    requires 1 <= dim && k < dim * dim
    requires c * dim as real == 1.0 && w >= 0.0 && h >= 0.0
    ensures var lo, hi := Apply(EvenTile(k, dim, w, h, c), Point(0.0, 0.0)),
                          Apply(EvenTile(k, dim, w, h, c), Point(w, h));
            0.0 <= lo.x && hi.x <= w && 0.0 <= lo.y && hi.y <= h
  {
    DivBelow(k, dim, dim);
    var x0, y0 := (k % dim) as real * w * c, (k / dim) as real * h * c;
    CellInside(k % dim, dim, w, c, x0);
    CellInside(k / dim, dim, h, c, y0);
    UprightInside(x0, y0, w, h, c);
  }

  /** Even power: every cell (row, col) of the dim x dim grid is the tile drawn at position row*dim + col. */
  lemma EvenTileForCell(power: nat, w: real, h: real, c: real, row: nat, col: nat)
    requires power % 2 == 0 && row < Dim(power) && col < Dim(power)
    ensures row * Dim(power) + col < Pow2(power)
    ensures Apply(NupMatrices(power, w, h, c)[row * Dim(power) + col], Point(0.0, 0.0))
         == Point(col as real * w * c, row as real * h * c)
  {
    var dim := Dim(power);
    Pow2Split(power);
    CellIndex(row, col, dim);
    NupTile(power, w, h, c, row * dim + col);
    EvenTileRefForCell(row, col, dim, w, h, c);
  }

  lemma EvenTileRefForCell(row: nat, col: nat, dim: nat, w: real, h: real, c: real)
    requires row < dim && col < dim
    ensures Apply(EvenTile(row * dim + col, dim, w, h, c), Point(0.0, 0.0))
         == Point(col as real * w * c, row as real * h * c)
  {
    CellIndex(row, col, dim);
    var x0, y0 := col as real * w * c, row as real * h * c;
    assert EvenTile(row * dim + col, dim, w, h, c) == Matrix(c, 0.0, 0.0, c, x0, y0);
    UprightCorners(x0, y0, w, h, c);
  }

  lemma CellIndex(row: nat, col: nat, dim: nat)
    requires row < dim && col < dim
    ensures row * dim + col < dim * dim
    ensures (row * dim + col) / dim == row && (row * dim + col) % dim == col
  {
    MulMono(dim - row, dim);
    assert (dim - row) * dim == dim * dim - row * dim;
    DivModOf(row * dim + col, row, col, dim);
  }

  /** Even power: two different tiles never cover the same interior point of the physical page. */
  lemma EvenTilesDisjoint(power: nat, w: real, h: real, c: real, k1: nat, k2: nat, p1: Point, p2: Point)
    requires power % 2 == 0 && c > 0.0
    requires k1 < Pow2(power) && k2 < Pow2(power) && k1 != k2
    requires 0.0 < p1.x < w && 0.0 < p1.y < h && 0.0 < p2.x < w && 0.0 < p2.y < h
    ensures Apply(NupMatrices(power, w, h, c)[k1], p1) != Apply(NupMatrices(power, w, h, c)[k2], p2)
  {
    NupTile(power, w, h, c, k1);
    NupTile(power, w, h, c, k2);
    EvenTilesRefDisjoint(Dim(power), w, h, c, k1, k2, p1, p2);
  }

  lemma EvenTilesRefDisjoint(dim: nat, w: real, h: real, c: real, k1: nat, k2: nat, p1: Point, p2: Point)
    requires dim >= 1 && c > 0.0 && k1 != k2
    requires 0.0 < p1.x < w && 0.0 < p1.y < h && 0.0 < p2.x < w && 0.0 < p2.y < h
    ensures Apply(EvenTile(k1, dim, w, h, c), p1) != Apply(EvenTile(k2, dim, w, h, c), p2)
  {
    CellDetermines(k1, k2, dim);
    CellsDisjoint(k1 % dim, k1 / dim, k2 % dim, k2 / dim, w, h, c, p1, p2,
                  EvenTile(k1, dim, w, h, c), EvenTile(k2, dim, w, h, c));
  }

  /** Points strictly inside two different cells of the grid are drawn at different places. */
  lemma CellsDisjoint(col1: nat, row1: nat, col2: nat, row2: nat, w: real, h: real, c: real, p1: Point, p2: Point,
                      m1: Matrix, m2: Matrix)
    requires col1 != col2 || row1 != row2
    requires c > 0.0
    requires 0.0 < p1.x < w && 0.0 < p1.y < h && 0.0 < p2.x < w && 0.0 < p2.y < h
    requires m1 == Matrix(c, 0.0, 0.0, c, col1 as real * w * c, row1 as real * h * c)
    requires m2 == Matrix(c, 0.0, 0.0, c, col2 as real * w * c, row2 as real * h * c)
    ensures Apply(m1, p1) != Apply(m2, p2)
  {
    var x1, y1 := col1 as real * w * c, row1 as real * h * c;
    var x2, y2 := col2 as real * w * c, row2 as real * h * c;
    UprightApply(x1, y1, c, p1);
    UprightApply(x2, y2, c, p2);
    if col1 != col2 {
      Separated(col1, col2, w, c, p1.x, p2.x, x1, x2);
    } else {
      Separated(row1, row2, h, c, p1.y, p2.y, y1, y2);
    }
  }

  /** An index is determined by its column and row in a grid `dim` wide. */
  lemma CellDetermines(k1: nat, k2: nat, dim: nat)
    requires dim >= 1
    ensures k1 % dim == k2 % dim && k1 / dim == k2 / dim ==> k1 == k2
  {
    assert k1 == (k1 / dim) * dim + k1 % dim;
    assert k2 == (k2 / dim) * dim + k2 % dim;
  }

  /** An upright tile anchored at (x0, y0) scales a point by c and shifts it by the anchor. */
  lemma UprightApply(x0: real, y0: real, c: real, p: Point)
    ensures Apply(Matrix(c, 0.0, 0.0, c, x0, y0), p).x == c * p.x + x0
    ensures Apply(Matrix(c, 0.0, 0.0, c, x0, y0), p).y == c * p.y + y0
  {
    assert 0.0 * p.x == 0.0 && 0.0 * p.y == 0.0;
  }

  /** Points strictly inside two different cells of a row of equal cells differ. */
  lemma Separated(n1: nat, n2: nat, len: real, c: real, t1: real, t2: real, s1: real, s2: real)
    requires n1 != n2 && c > 0.0 && 0.0 < t1 < len && 0.0 < t2 < len
    requires s1 == n1 as real * len * c && s2 == n2 as real * len * c
    ensures c * t1 + s1 != c * t2 + s2
  {
    if n1 < n2 {
      SeparatedOrdered(n1, n2, len, c, t1, t2, s1, s2);
    } else {
      SeparatedOrdered(n2, n1, len, c, t2, t1, s2, s1);
    }
  }

  lemma SeparatedOrdered(lo: nat, hi: nat, len: real, c: real, tlo: real, thi: real, slo: real, shi: real)
    requires lo < hi && c > 0.0 && 0.0 < tlo < len && 0.0 < thi < len
    requires slo == lo as real * len * c && shi == hi as real * len * c
    ensures c * tlo + slo < c * thi + shi
  {
    MulLess(tlo, len, c);
    MulLess(0.0, thi, c);
    MulLess(0.0, len, c);
    calc {
      c * tlo + slo;
    <
      c * len + slo;
    == { NextMultiple(lo as real, len, c); }
      (lo as real + 1.0) * len * c;
    <= { MulLe(lo as real + 1.0, hi as real, len); MulLe((lo as real + 1.0) * len, hi as real * len, c); }
      hi as real * len * c;
    <
      c * thi + shi;
    }
  }

  /** a < b scaled by a positive factor stays strictly ordered. */
  lemma MulLess(a: real, b: real, c: real)
    requires a < b && c > 0.0
    ensures c * a < c * b
    ensures c * 0.0 == 0.0
  {
    assert c * b - c * a == c * (b - a);
  }

  /**
   * Odd power, corner mapping: tile `k` is turned a quarter and sends (0, 0)
   * and (w, h) to opposite corners of the cell in column j = k mod 2*dim and
   * in row i = dim - k div (2*dim) counted from 1 at the bottom; 1 <= i <= dim
   * and j < 2*dim, so the cells fill dim*h*c by 2*dim*w*c.
   */
  lemma OddTileCorners(power: nat, w: real, h: real, c: real, k: nat)
    requires power % 2 == 1 && k < Pow2(power)
    ensures var dim := Dim(power);
            var i, j := dim - k / (2 * dim), k % (2 * dim);
            && 1 <= i <= dim && j < 2 * dim
            && Apply(NupMatrices(power, w, h, c)[k], Point(0.0, 0.0))
               == Point(i as real * h * c, j as real * w * c)
            && Apply(NupMatrices(power, w, h, c)[k], Point(w, h))
               == Point((i as real - 1.0) * h * c, (j as real + 1.0) * w * c)
  {
    Pow2Split(power);
    NupTile(power, w, h, c, k);
    OddTileRefCorners(k, Dim(power), w, h, c);
  }

  /** Corner mapping of the reference odd-power tile `k` of dim rows of 2*dim cells. */
  lemma OddTileRefCorners(k: nat, dim: nat, w: real, h: real, c: real)
    requires 1 <= dim && k < dim * (2 * dim)
    ensures var i, j := dim - k / (2 * dim), k % (2 * dim);
            && 1 <= i <= dim && j < 2 * dim
            && Apply(OddTile(k, dim, w, h, c), Point(0.0, 0.0)) == Point(i as real * h * c, j as real * w * c)
            && Apply(OddTile(k, dim, w, h, c), Point(w, h))
               == Point((i as real - 1.0) * h * c, (j as real + 1.0) * w * c)
  {
    DivBelow(k, 2 * dim, dim);
    TurnedCellAt(dim - k / (2 * dim), k % (2 * dim), w, h, c, OddTile(k, dim, w, h, c));
  }

  lemma TurnedCellAt(i: nat, j: nat, w: real, h: real, c: real, m: Matrix)
    requires m == Matrix(0.0, c, -c, 0.0, i as real * h * c, j as real * w * c)
    ensures Apply(m, Point(0.0, 0.0)) == Point(i as real * h * c, j as real * w * c)
    ensures Apply(m, Point(w, h)) == Point((i as real - 1.0) * h * c, (j as real + 1.0) * w * c)
  {
    TurnedCell(i as real, j as real, w, h, c);
  }

  /** Odd power: two different tiles never cover the same interior point of the physical page. */
  lemma OddTilesDisjoint(power: nat, w: real, h: real, c: real, k1: nat, k2: nat, p1: Point, p2: Point)
    requires power % 2 == 1 && c > 0.0
    requires k1 < Pow2(power) && k2 < Pow2(power) && k1 != k2
    requires 0.0 < p1.x < w && 0.0 < p1.y < h && 0.0 < p2.x < w && 0.0 < p2.y < h
    ensures Apply(NupMatrices(power, w, h, c)[k1], p1) != Apply(NupMatrices(power, w, h, c)[k2], p2)
  {
    Pow2Split(power);
    NupTile(power, w, h, c, k1);
    NupTile(power, w, h, c, k2);
    OddTilesRefDisjoint(Dim(power), w, h, c, k1, k2, p1, p2);
  }

  lemma OddTilesRefDisjoint(dim: nat, w: real, h: real, c: real, k1: nat, k2: nat, p1: Point, p2: Point)
    requires dim >= 1 && c > 0.0 && k1 != k2 && k1 < dim * (2 * dim) && k2 < dim * (2 * dim)
    requires 0.0 < p1.x < w && 0.0 < p1.y < h && 0.0 < p2.x < w && 0.0 < p2.y < h
    ensures Apply(OddTile(k1, dim, w, h, c), p1) != Apply(OddTile(k2, dim, w, h, c), p2)
  {
    DivBelow(k1, 2 * dim, dim);
    DivBelow(k2, 2 * dim, dim);
    CellDetermines(k1, k2, 2 * dim);
    TurnedCellsDisjoint(dim - k1 / (2 * dim), k1 % (2 * dim), dim - k2 / (2 * dim), k2 % (2 * dim), w, h, c, p1, p2,
                        OddTile(k1, dim, w, h, c), OddTile(k2, dim, w, h, c));
  }

  /** Points strictly inside two different cells of the turned layout are drawn at different places. */
  lemma TurnedCellsDisjoint(i1: nat, j1: nat, i2: nat, j2: nat, w: real, h: real, c: real, p1: Point, p2: Point,
                            m1: Matrix, m2: Matrix)
    requires i1 != i2 || j1 != j2
    requires 1 <= i1 && 1 <= i2 && c > 0.0
    requires 0.0 < p1.x < w && 0.0 < p1.y < h && 0.0 < p2.x < w && 0.0 < p2.y < h
    requires m1 == Matrix(0.0, c, -c, 0.0, i1 as real * h * c, j1 as real * w * c)
    requires m2 == Matrix(0.0, c, -c, 0.0, i2 as real * h * c, j2 as real * w * c)
    ensures Apply(m1, p1) != Apply(m2, p2)
  {
    TurnedApply(i1 as real * h * c, j1 as real * w * c, c, p1);
    TurnedApply(i2 as real * h * c, j2 as real * w * c, c, p2);
    if j1 != j2 {
      Separated(j1, j2, w, c, p1.x, p2.x, j1 as real * w * c, j2 as real * w * c);
    } else {
      FromRowBelow(i1, h, c, p1.y);
      FromRowBelow(i2, h, c, p2.y);
      Separated(i1 - 1, i2 - 1, h, c, h - p1.y, h - p2.y, (i1 - 1) as real * h * c, (i2 - 1) as real * h * c);
    }
  }

  /** A turned tile anchored at (x0, y0) sends p to (x0 - c*p.y, y0 + c*p.x). */
  lemma TurnedApply(x0: real, y0: real, c: real, p: Point)
    ensures Apply(Matrix(0.0, c, -c, 0.0, x0, y0), p).x == x0 - c * p.y
    ensures Apply(Matrix(0.0, c, -c, 0.0, x0, y0), p).y == c * p.x + y0
  {
    assert 0.0 * p.x == 0.0 && 0.0 * p.y == 0.0;
  }

  /** Going down `t` from the top of row i is going up `h - t` from the bottom of row i - 1. */
  lemma FromRowBelow(i: nat, h: real, c: real, t: real)
    requires i >= 1
    ensures i as real * h * c - c * t == c * (h - t) + (i - 1) as real * h * c
  {
    NextMultiple(i as real, h, c);
    assert (i - 1) as real == i as real - 1.0;
  }

  /** The quarter-turned tile anchored at cell (i, j) sends (w, h) to the opposite corner of the cell. */
  lemma TurnedCell(i: real, j: real, w: real, h: real, c: real)
    ensures Apply(Matrix(0.0, c, -c, 0.0, i * h * c, j * w * c), Point(0.0, 0.0)) == Point(i * h * c, j * w * c)
    ensures Apply(Matrix(0.0, c, -c, 0.0, i * h * c, j * w * c), Point(w, h))
         == Point((i - 1.0) * h * c, (j + 1.0) * w * c)
  {
    TurnedCorners(i * h * c, j * w * c, w, h, c);
    NextMultiple(i, h, c);
    NextMultiple(j, w, c);
  }
}
