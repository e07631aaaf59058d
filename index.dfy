/** The index arithmetic of spreadFire (main.go:91-111): Go's truncating
    division, the flat index of the target cell, its decoding back into
    coordinates, and the decayed value that is written there. */
module FireIndex {

  /** A grid position: column `x`, row `y` (row 0 is the top). */
  datatype Cell = Cell(x: int, y: int)

  datatype Option<T> = None | Some(value: T)

  /** Go's integer `/`, which truncates toward zero (Dafny's `/` rounds a
      negative `a` down instead): the quotient never has the opposite sign of
      `a`; GoRem states how far `q*n` is from `a`. */
  function GoQuo(a: int, n: int): (q: int)
    requires n > 0
    ensures a >= 0 ==> q >= 0
    ensures a <= 0 ==> q <= 0
  {
    if a >= 0 then a / n else -((-a) / n)
  }

  /** Go's integer `%`: the remainder of a truncating division, with the
      sign of `a` and smaller than `n` in magnitude. */
  function GoRem(a: int, n: int): (r: int)
    requires n > 0
    ensures a >= 0 ==> 0 <= r < n
    ensures a < 0 ==> -n < r <= 0
  {
    a - n * GoQuo(a, n)
  }

  /** Row-major decoding: `y*w + x` splits back into row `y` and column `x`. */
  lemma RowMajorDecode(w: int, x: int, y: int)
    requires 0 <= x < w && 0 <= y
    ensures GoQuo(y * w + x, w) == y && GoRem(y * w + x, w) == x
  {
    var a := y * w + x;
    assert 0 <= a;
    var q, r := a / w, a % w;
    assert a == q * w + r && 0 <= r < w;
    assert (q - y) * w == x - r;
    MulAwayFromZero(q - y, w);
  }

  /** A non-zero multiple of `w` is at least `w` away from zero. */
  lemma MulAwayFromZero(d: int, w: int)
    requires w > 0
    ensures d >= 1 ==> d * w >= w
    ensures d <= -1 ==> d * w <= -w
  {
    if d >= 1 {
      MulLeq(1, d, w);
    } else if d <= -1 {
      MulLeq(d, -1, w);
    }
  }

  lemma MulLeq(a: int, b: int, w: int)
    requires a <= b && w >= 0
    ensures a * w <= b * w
  {
  }

  /** A flat index inside a `w*h` grid decodes to a cell inside the grid. */
  lemma FlatIndexInGrid(w: int, h: int, a: int)
    requires w >= 1 && 0 <= a < w * h
    ensures 0 <= GoQuo(a, w) < h && 0 <= GoRem(a, w) < w
  {
    var q := GoQuo(a, w);
    assert q * w <= a;
    MulLess(q, h, w);
  }

  /** Multiplying by a positive `w` keeps a strict order. */
  lemma MulLess(a: int, b: int, w: int)
    requires w > 0
    ensures a * w < b * w ==> a < b
  {
    if a >= b {
      MulLeq(b, a, w);
    }
  }

  /** A cell inside a `w*h` grid has a flat index inside the grid. */
  lemma CellIndexInGrid(w: int, h: int, x: int, y: int)
    requires 0 <= x < w && 0 <= y < h
    ensures 0 <= y * w + x < w * h
  {
    MulLeq(y, h - 1, w);
  }

  /** The flat index spreadFire aims at: one row up, shifted by the lateral
      offset; it is never after `from` and at most one cell from `from - w`. */
  function Target(w: int, from: int, offset: int): (to: int)
    ensures w >= 1 && IsOffset(offset) ==> to <= from && from - w - 1 <= to <= from - w + 1
  {
    from - w + offset
  }

  /** The cell spreadFire writes for source index `from`, or None when it
      returns early. Both early returns of the source are kept: the range
      check on the flat index and the column check on the decoded `dstX`.
      The column check at main.go:109 never rejects anything: the write is
      dropped exactly when the flat target falls outside the grid, and a
      target inside the grid decodes to the cell inside the grid whose flat
      index it is. */
  function Dest(w: int, h: int, from: int, offset: int): (r: Option<Cell>)
    requires w >= 1 && h >= 1
    ensures r.Some? <==> 0 <= Target(w, from, offset) < w * h
    ensures r.Some? ==>
              0 <= r.value.x < w && 0 <= r.value.y < h &&
              (r.value.y) * w + r.value.x == Target(w, from, offset)
  {
    var to := Target(w, from, offset);
    if to < 0 || to >= w * h then None
    else
      FlatIndexInGrid(w, h, to);
      var dstX := GoRem(to, w);
      var dstY := GoQuo(to, w);
      if dstX < 0 || dstX >= w then None
      else Some(Cell(dstX, dstY))
  }

  /** The cell spreadFire reads for source index `from`; for an index inside
      the grid it is the cell inside the grid whose flat index it is. */
  function Source(w: int, h: int, from: int): (c: Cell)
    requires w >= 1
    ensures 0 <= from < w * h ==> 0 <= c.x < w && 0 <= c.y < h && (c.y) * w + c.x == from
  {
    // Both branches yield the same cell; the first only brings in the lemma for the ensures.
    if 0 <= from < w * h then
      FlatIndexInGrid(w, h, from);
      Cell(GoRem(from, w), GoQuo(from, w))
    else
      Cell(GoRem(from, w), GoQuo(from, w))
  }

  /** The heat after a decay of `decay`, clamped at zero: the larger of 0
      and `src - decay`. */
  function NewValue(src: int, decay: int): (v: int)
    ensures 0 <= v && src - decay <= v && (v == 0 || v == src - decay)
  {
    if src - decay < 0 then 0 else src - decay
  }

  predicate IsOffset(offset: int) { -1 <= offset <= 1 }

  predicate IsDecay(decay: int) { 0 <= decay <= 1 }

  /** Which cell a source `(x, y)` with `y >= 1` targets, for every offset:
      straight or diagonal up when `x + offset` stays in the row; from the
      left edge leftwards, the last cell two rows up (dropped on row 1); from
      the right edge rightwards, the first cell of the source's own row. */
  lemma DestOfCell(w: int, h: int, x: int, y: int, offset: int)
    requires w >= 1 && 0 <= x < w && 1 <= y < h && IsOffset(offset)
    ensures 0 <= x + offset < w ==> Dest(w, h, y * w + x, offset) == Some(Cell(x + offset, y - 1))
    ensures x + offset < 0 ==>
              (x == 0 && offset == -1 &&
               Dest(w, h, y * w + x, offset) == (if y >= 2 then Some(Cell(w - 1, y - 2)) else None))
    ensures x + offset >= w ==>
              (x == w - 1 && offset == 1 && Dest(w, h, y * w + x, offset) == Some(Cell(0, y)))
  {
    var from := y * w + x;
    var to := Target(w, from, offset);
    if 0 <= x + offset < w {
      assert to == (y - 1) * w + (x + offset);
      CellIndexInGrid(w, h, x + offset, y - 1);
      RowMajorDecode(w, x + offset, y - 1);
    } else if x + offset < 0 {
      if y >= 2 {
        assert to == (y - 2) * w + (w - 1);
        CellIndexInGrid(w, h, w - 1, y - 2);
        RowMajorDecode(w, w - 1, y - 2);
      } else {
        assert to == -1;
      }
    } else {
      assert to == y * w;
      CellIndexInGrid(w, h, 0, y);
      RowMajorDecode(w, 0, y);
    }
  }

  /** The only source index that can reach the bottom row is the last cell of
      the grid, `(w-1, h-1)`, with offset +1, and it reaches column 0. */
  lemma DestInBottomRow(w: int, h: int, from: int, offset: int)
    requires w >= 1 && h >= 1 && from < w * h && IsOffset(offset)
    requires Dest(w, h, from, offset).Some? && Dest(w, h, from, offset).value.y == h - 1
    ensures Dest(w, h, from, offset).value.x == 0
    ensures from == w * h - 1 && offset == 1
  {
    var c := Dest(w, h, from, offset).value;
    assert c.y * w == w * h - w;
  }

  /** The written value has lost at most one unit of heat and is never negative. */
  lemma NewValueBounds(src: int, decay: int)
    requires IsDecay(decay)
    ensures 0 <= NewValue(src, decay) <= (if src < 0 then 0 else src)
    ensures src - 1 <= NewValue(src, decay)
  {
  }
}
