/** The `Game` of main.go: the framebuffer updated in place by NewGame,
    spreadFire, doFire and Update, the palette lookup of Draw, and Layout.
    Each random draw of the source is an argument (a Sample per spreadFire
    call). */
module DoomFire {
  import opened Palette
  import opened FireIndex
  import opened FireGrid

  const ScreenWidth: int := 320
  const ScreenHeight: int := 200
  const FireWidth: int := ScreenWidth
  const FireHeight: int := ScreenHeight

  class Game {
    /** Width and height of the fire, fixed for the life of the game. */
    const W: int
    const H: int
    /** The intensity of every cell, indexed `[y, x]` with row 0 at the top. */
    const framebuffer: array2<int>
    const palette: seq<Rgba>
    /** The framebuffer as a grid value, `Cells[y][x] == framebuffer[y, x]`. */
    ghost var Cells: Grid

    /** The shape of the game, and Cells mirrors the framebuffer. */
    ghost predicate WellFormed()
      reads this, framebuffer
    {
      W >= 1 && H >= 1 && framebuffer.Length0 == H && framebuffer.Length1 == W &&
      IsGrid(Cells, W, H) &&
      forall y, x :: 0 <= y < H && 0 <= x < W ==> Cells[y][x] == framebuffer[y, x]
    }

    /** The object invariant: the shape, a palette entry for every intensity,
        and the framebuffer is a reachable frame. */
    ghost predicate Valid()
      reads this, framebuffer
    {
      WellFormed() && palette == GeneratePalette() && FireInvariant(Cells, W, H)
    }

    /** NewGame for a fire of `w` by `h` cells: `h` zeroed rows of `w` cells,
        then the bottom row set to full heat, column by column. */
    constructor Init(w: int, h: int)
      requires w >= 1 && h >= 1
      ensures Valid() && fresh(framebuffer)
      ensures W == w && H == h && palette == GeneratePalette()
      ensures Cells == InitialGrid(w, h)
    {
      W, H := w, h;
      var rows := new int[h, w]((_, _) => 0);
      palette := GeneratePalette();
      HeatBottomRow(rows);
      InitialGridIsValid(w, h);
      FrameIsInitialGrid(rows, w, h);
      framebuffer := rows;
      Cells := InitialGrid(w, h);
    }

    /** The loop of NewGame: every cell of the bottom row of a zeroed
        framebuffer is set to full heat, left to right. */
    static method HeatBottomRow(rows: array2<int>)
      requires rows.Length0 >= 1
      requires forall y, x :: 0 <= y < rows.Length0 && 0 <= x < rows.Length1 ==> rows[y, x] == 0
      modifies rows
      ensures forall y, x :: 0 <= y < rows.Length0 && 0 <= x < rows.Length1 ==>
                rows[y, x] == (if y == rows.Length0 - 1 then MaxIntensity else 0)
    {
      var h := rows.Length0;
      for x := 0 to rows.Length1
        invariant forall yy, xx :: 0 <= yy < h && 0 <= xx < rows.Length1 ==>
                    rows[yy, xx] == (if yy == h - 1 && xx < x then MaxIntensity else 0)
      {
        rows[h - 1, x] := MaxIntensity;
      }
    }

    /** A framebuffer of zeroes with the bottom row at full heat holds the
        initial grid. */
    static lemma FrameIsInitialGrid(rows: array2<int>, w: int, h: int)
      requires w >= 1 && h >= 1 && rows.Length0 == h && rows.Length1 == w
      requires forall y, x :: 0 <= y < h && 0 <= x < w ==>
                 rows[y, x] == (if y == h - 1 then MaxIntensity else 0)
      ensures forall y, x :: 0 <= y < h && 0 <= x < w ==> InitialGrid(w, h)[y][x] == rows[y, x]
    {
      forall y, x | 0 <= y < h && 0 <= x < w
        ensures InitialGrid(w, h)[y][x] == rows[y, x]
      {
        assert InitialGrid(w, h)[y][x] == (if y == h - 1 then MaxIntensity else 0);
      }
    }

    /** spreadFire: copy the heat of cell `from`, less the decay, one row up
        with the lateral offset, unless the flat target leaves the grid. */
    method SpreadFire(from: int, s: Sample)
      requires WellFormed() && from < W * H && ValidSample(s)
      modifies this, framebuffer
      ensures WellFormed()
      ensures Cells == Spread(old(Cells), W, H, from, s)
      ensures old(Valid()) ==> Valid()
    {
      var to := from - W + s.offset;
      if to < 0 || to >= W * H {
        return;
      }
      assert Dest(W, H, from, s.offset).Some?;
      var srcX := GoRem(from, W);
      var srcY := GoQuo(from, W);
      assert Source(W, H, from) == Cell(srcX, srcY);
      var dstX := GoRem(to, W);
      var dstY := GoQuo(to, W);
      if dstX < 0 || dstX >= W {
        return;
      }
      assert Dest(W, H, from, s.offset) == Some(Cell(dstX, dstY));
      var newValue := framebuffer[srcY, srcX] - s.decay;
      if newValue < 0 {
        newValue := 0;
      }
      framebuffer[dstY, dstX] := newValue;
      Cells := Cells[dstY := Cells[dstY][dstX := newValue]];
      if old(Valid()) {
        SpreadPreservesInvariant(old(Cells), W, H, from, s);
      }
    }

    /** doFire: spreadFire for every column left to right, and in each column
        for rows 1 to H-1 from the top down; the k-th call uses `samples[k]`. */
    method DoFire(samples: seq<Sample>)
      requires Valid() && |samples| == W * (H - 1) && ValidSamples(samples)
      modifies this, framebuffer
      ensures Valid()
      ensures Cells == Sweep(old(Cells), W, H, samples)
    {
      SpreadColumns(samples);
      SweepPreservesInvariant(old(Cells), W, H, samples);
    }

    /** The two loops of doFire, proved against the sweep without the rest
        of the object invariant. */
    method SpreadColumns(samples: seq<Sample>)
      requires WellFormed() && |samples| == W * (H - 1) && ValidSamples(samples)
      modifies this, framebuffer
      ensures WellFormed()
      ensures Cells == Sweep(old(Cells), W, H, samples)
    {
      SweepPrefixEmpty(Cells, W, H, samples);
      var k := 0;
      for x := 0 to W
        invariant WellFormed()
        invariant k == x * (H - 1) && k <= |samples|
        invariant Cells == SweepPrefix(old(Cells), W, H, samples, k)
      {
        NextColumn(W, H, x, k, k + (H - 1));
        SpreadColumn(x, samples, old(Cells), k);
        k := k + (H - 1);
      }
      SweepPrefixComplete(old(Cells), W, H, samples);
    }

    /** The inner loop of doFire for column `x`: spreadFire for rows 1 to H-1,
        from the top down, the calls numbered from `start` on. */
    method SpreadColumn(x: int, samples: seq<Sample>, ghost g: Grid, start: int)
      requires WellFormed() && IsGrid(g, W, H) && |samples| == W * (H - 1) && ValidSamples(samples)
      requires 0 <= x < W && start == x * (H - 1) && start + (H - 1) <= |samples|
      requires Cells == SweepPrefix(g, W, H, samples, start)
      modifies this, framebuffer
      ensures WellFormed()
      ensures Cells == SweepPrefix(g, W, H, samples, start + (H - 1))
    {
      var k := start;
      for y := 1 to H
        invariant WellFormed()
        invariant k == start + (y - 1) && k <= |samples|
        invariant Cells == SweepPrefix(g, W, H, samples, k)
      {
        SweepStep(g, W, H, samples, x, y, start, k);
        ghost var next := SweepPrefix(g, W, H, samples, k + 1);
        SpreadFire(y * W + x, samples[k]);
        assert Cells == next;
        k := k + 1;
      }
    }

    /** Update: one frame of the fire. */
    method Update(samples: seq<Sample>)
      requires Valid() && |samples| == W * (H - 1) && ValidSamples(samples)
      modifies this, framebuffer
      ensures Valid()
      ensures Cells == Sweep(old(Cells), W, H, samples)
    {
      DoFire(samples);
    }

    /** The palette lookup of Draw: the colour of every cell, row by row, as
        handed to the screen. Every intensity is a valid palette index. */
    method Draw() returns (screen: seq<seq<Rgba>>)
      requires Valid()
      ensures |screen| == H
      ensures forall y :: 0 <= y < H ==> |screen[y]| == W
      ensures forall y, x :: 0 <= y < H && 0 <= x < W ==>
                0 <= framebuffer[y, x] <= MaxIntensity && screen[y][x] == ColorOf(framebuffer[y, x])
    {
      screen := [];
      for y := 0 to H
        invariant |screen| == y
        invariant forall yy :: 0 <= yy < y ==> |screen[yy]| == W
        invariant forall yy, xx :: 0 <= yy < y && 0 <= xx < W ==>
                    0 <= framebuffer[yy, xx] <= MaxIntensity && screen[yy][xx] == ColorOf(framebuffer[yy, xx])
      {
        var row := [];
        for x := 0 to W
          invariant |row| == x
          invariant forall xx :: 0 <= xx < x ==>
                      0 <= framebuffer[y, xx] <= MaxIntensity && row[xx] == ColorOf(framebuffer[y, xx])
        {
          var intensity := framebuffer[y, x];
          row := row + [palette[intensity]];
        }
        screen := screen + [row];
      }
    }

    /** Layout: the logical screen is always the fixed screen size, whatever
        the window size, and so the size of the default fire. */
    function Layout(outsideWidth: int, outsideHeight: int): (size: (int, int))
      ensures size == (ScreenWidth, ScreenHeight)
      ensures size == (FireWidth, FireHeight)
    {
      (ScreenWidth, ScreenHeight)
    }
  }

  /** NewGame as the program calls it: a 320 by 200 fire. */
  method NewGame() returns (g: Game)
    ensures fresh(g) && fresh(g.framebuffer) && g.Valid()
    ensures g.W == FireWidth && g.H == FireHeight
    ensures g.Cells == InitialGrid(FireWidth, FireHeight)
  {
    g := new Game.Init(FireWidth, FireHeight);
  }
}
