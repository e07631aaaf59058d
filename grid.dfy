/** The intensity field as a value: a grid of `h` rows of `w` cells, indexed
    `g[y][x]` as the framebuffer of main.go is. The functions here are the
    specification of what NewGame, spreadFire and doFire do to the
    framebuffer; the class in DoomFire is proved to follow them. */
module FireGrid {
  import opened FireIndex
  import opened Palette

  /** The two random draws of one spreadFire call: `rand.Intn(3) - 1` and `rand.Intn(2)`. */
  datatype Sample = Sample(offset: int, decay: int)

  predicate ValidSample(s: Sample) { IsOffset(s.offset) && IsDecay(s.decay) }

  predicate ValidSamples(ss: seq<Sample>)
  {
    forall i :: 0 <= i < |ss| ==> ValidSample(ss[i])
  }

  type Grid = seq<seq<int>>

  predicate IsGrid(g: Grid, w: int, h: int)
  {
    w >= 1 && h >= 1 && |g| == h && forall y :: 0 <= y < h ==> |g[y]| == w
  }

  /** The bottom row, the heat source of the fire. */
  function BottomRow(g: Grid): seq<int>
    requires |g| >= 1
  {
    g[|g| - 1]
  }

  /** What every reachable frame satisfies: every cell is a palette index, and,
      when the grid is at least two cells wide, the bottom row is the full heat
      source except its first cell, which may have cooled by one. */
  predicate FireInvariant(g: Grid, w: int, h: int)
    requires IsGrid(g, w, h)
  {
    (forall y, x :: 0 <= y < h && 0 <= x < w ==> 0 <= g[y][x] <= MaxIntensity) &&
    (w >= 2 ==>
      (forall x :: 1 <= x < w ==> BottomRow(g)[x] == MaxIntensity) &&
      MaxIntensity - 1 <= BottomRow(g)[0])
  }

  /** The framebuffer after NewGame: zeroes, with the bottom row at full heat. */
  function InitialGrid(w: int, h: int): (g: Grid)
    requires w >= 1 && h >= 1
    ensures IsGrid(g, w, h)
  {
    seq(h, y => seq(w, x => if y == h - 1 then MaxIntensity else 0))
  }

  lemma InitialGridIsValid(w: int, h: int)
    requires w >= 1 && h >= 1
    ensures IsGrid(InitialGrid(w, h), w, h)
    ensures FireInvariant(InitialGrid(w, h), w, h)
    ensures forall x :: 0 <= x < w ==> BottomRow(InitialGrid(w, h))[x] == MaxIntensity
    ensures forall y, x :: 0 <= y < h - 1 && 0 <= x < w ==> InitialGrid(w, h)[y][x] == 0
  {
  }

  /** One spreadFire call on the grid: the target cell, if any, receives the
      source cell's heat less the decay, clamped at zero. */
  function Spread(g: Grid, w: int, h: int, from: int, s: Sample): (r: Grid)
    requires IsGrid(g, w, h) && from < w * h && ValidSample(s)
    ensures IsGrid(r, w, h)
  {
    match Dest(w, h, from, s.offset)
    case None => g
    case Some(c) =>
      var src := Source(w, h, from);
      g[c.y := g[c.y][c.x := NewValue(g[src.y][src.x], s.decay)]]
  }

  /** spreadFire changes at most one cell, the one Dest names, and nothing at
      all when the flat target falls outside the grid. */
  lemma SpreadChangesOnlyTarget(g: Grid, w: int, h: int, from: int, s: Sample)
    requires IsGrid(g, w, h) && from < w * h && ValidSample(s)
    ensures !(0 <= Target(w, from, s.offset) < w * h) ==> Spread(g, w, h, from, s) == g
    ensures forall y, x :: 0 <= y < h && 0 <= x < w && Dest(w, h, from, s.offset) != Some(Cell(x, y)) ==>
              Spread(g, w, h, from, s)[y][x] == g[y][x]
  {
  }

  /** The cell spreadFire writes receives the source's heat less at most one,
      never below zero. */
  lemma SpreadWrittenValue(g: Grid, w: int, h: int, from: int, s: Sample)
    requires IsGrid(g, w, h) && from < w * h && ValidSample(s)
    requires Dest(w, h, from, s.offset).Some?
    ensures 0 <= Source(w, h, from).x < w && 0 <= Source(w, h, from).y < h
    ensures var c := Dest(w, h, from, s.offset).value;
            var v := g[Source(w, h, from).y][Source(w, h, from).x];
            Spread(g, w, h, from, s)[c.y][c.x] == NewValue(v, s.decay) &&
            v - 1 <= NewValue(v, s.decay) &&
            0 <= NewValue(v, s.decay) <= (if v < 0 then 0 else v)
  {
    var c := Dest(w, h, from, s.offset).value;
    assert 0 <= from;
    var src := Source(w, h, from);
    var v := g[src.y][src.x];
    assert Spread(g, w, h, from, s) == g[c.y := g[c.y][c.x := NewValue(v, s.decay)]];
    NewValueBounds(v, s.decay);
  }

  /** Bottom-row cells other than the first are never the target; the first
      can only receive the decayed heat of the last cell of the grid. */
  lemma SpreadBottomRow(g: Grid, w: int, h: int, from: int, s: Sample)
    requires IsGrid(g, w, h) && from < w * h && ValidSample(s)
    ensures forall x :: 1 <= x < w ==> BottomRow(Spread(g, w, h, from, s))[x] == BottomRow(g)[x]
    ensures BottomRow(Spread(g, w, h, from, s))[0] == BottomRow(g)[0] ||
            BottomRow(Spread(g, w, h, from, s))[0] == NewValue(BottomRow(g)[w - 1], s.decay)
  {
    SpreadChangesOnlyTarget(g, w, h, from, s);
    var d := Dest(w, h, from, s.offset);
    if d.Some? && d.value.y == h - 1 {
      DestInBottomRow(w, h, from, s.offset);
      RowMajorDecode(w, w - 1, h - 1);
    }
  }

  lemma SpreadPreservesInvariant(g: Grid, w: int, h: int, from: int, s: Sample)
    requires IsGrid(g, w, h) && from < w * h && ValidSample(s)
    requires FireInvariant(g, w, h)
    ensures FireInvariant(Spread(g, w, h, from, s), w, h)
  {
    SpreadChangesOnlyTarget(g, w, h, from, s);
    if Dest(w, h, from, s.offset).Some? {
      SpreadWrittenValue(g, w, h, from, s);
    }
    SpreadBottomRow(g, w, h, from, s);
  }

  /** The source indices doFire passes for column `x`, rows 1 to h-1 in order. */
  function Column(w: int, h: int, x: int): (r: seq<int>)
    requires h >= 1
  {
    seq(h - 1, i => (i + 1) * w + x)
  }

  /** Every index the column visits lies in the rows above the first one, and
      the cell spreadFire reads for its `i`-th call is row `i + 1` of column `x`. */
  lemma ColumnDecodes(w: int, h: int, x: int)
    requires w >= 1 && h >= 1 && 0 <= x < w
    ensures |Column(w, h, x)| == h - 1
    ensures forall i :: 0 <= i < h - 1 ==>
      w <= Column(w, h, x)[i] < w * h && Source(w, h, Column(w, h, x)[i]) == Cell(x, i + 1)
  {
    forall i | 0 <= i < h - 1
      ensures w <= Column(w, h, x)[i] < w * h && Source(w, h, Column(w, h, x)[i]) == Cell(x, i + 1)
    {
      assert Column(w, h, x)[i] == (i + 1) * w + x;
      CellIndexInGrid(w, h, x, i + 1);
      MulLeq(1, i + 1, w);
      RowMajorDecode(w, x, i + 1);
    }
  }

  /** The source indices of columns 0 to n-1, in the order doFire visits them. */
  function Calls(w: int, h: int, n: nat): (r: seq<int>)
    requires h >= 1
    ensures |r| == n * (h - 1)
  {
    if n == 0 then [] else Calls(w, h, n - 1) + Column(w, h, n - 1)
  }

  lemma {:induction false} CallsInGrid(w: int, h: int, n: nat)
    requires w >= 1 && h >= 1 && n <= w
    ensures forall i :: 0 <= i < |Calls(w, h, n)| ==> w <= Calls(w, h, n)[i] < w * h
  {
    if n > 0 {
      CallsInGrid(w, h, n - 1);
      var col := Column(w, h, n - 1);
      forall i | 0 <= i < |col|
        ensures w <= col[i] < w * h
      {
        CellIndexInGrid(w, h, n - 1, i + 1);
        MulLeq(1, i + 1, w);
      }
    }
  }

  /** The position of cell (x, y) among doFire's calls. */
  function CallIndex(h: int, x: int, y: int): int
  {
    x * (h - 1) + (y - 1)
  }

  /** Among the calls of the first n columns, the one at CallIndex(h, x, y) is for cell (x, y). */
  lemma {:induction false} CallsAtPrefix(w: int, h: int, n: nat, x: int, y: int)
    requires h >= 1 && 0 <= x < n && 1 <= y < h
    ensures 0 <= CallIndex(h, x, y) < |Calls(w, h, n)|
    ensures Calls(w, h, n)[CallIndex(h, x, y)] == y * w + x
  {
    var prev := Calls(w, h, n - 1);
    assert Calls(w, h, n) == prev + Column(w, h, n - 1);
    if x == n - 1 {
      assert CallIndex(h, x, y) == |prev| + (y - 1);
      assert Column(w, h, x)[y - 1] == y * w + x;
    } else {
      CallsAtPrefix(w, h, n - 1, x, y);
      assert CallIndex(h, x, y) < |prev|;
    }
  }

  /** The sweep order of doFire: exactly `w*(h-1)` calls, the call at position
      `x*(h-1) + (y-1)` is for cell `(x, y)`, so columns go left to right in
      the outer loop and rows 1 to h-1 downwards in the inner loop; when
      `h == 1` there are no calls at all. */
  lemma SweepOrder(w: int, h: int)
    requires w >= 1 && h >= 1
    ensures |Calls(w, h, w)| == w * (h - 1)
    ensures forall x, y :: 0 <= x < w && 1 <= y < h ==>
              0 <= CallIndex(h, x, y) < |Calls(w, h, w)| &&
              Calls(w, h, w)[CallIndex(h, x, y)] == y * w + x
    ensures h >= 2 ==> forall k :: 0 <= k < |Calls(w, h, w)| ==>
              Calls(w, h, w)[k] == (k % (h - 1) + 1) * w + k / (h - 1)
  {
    forall x, y | 0 <= x < w && 1 <= y < h
      ensures 0 <= CallIndex(h, x, y) < |Calls(w, h, w)|
      ensures Calls(w, h, w)[CallIndex(h, x, y)] == y * w + x
    {
      CallsAtPrefix(w, h, w, x, y);
    }
    if h >= 2 {
      forall k | 0 <= k < |Calls(w, h, w)|
        ensures Calls(w, h, w)[k] == (k % (h - 1) + 1) * w + k / (h - 1)
      {
        var x, y := k / (h - 1), k % (h - 1) + 1;
        assert k == x * (h - 1) + (y - 1);
        MulLess(x, w, h - 1);
        CallsAtPrefix(w, h, w, x, y);
      }
    }
  }

  /** Spread applied to each source index in turn, with its own samples. */
  function Apply(g: Grid, w: int, h: int, froms: seq<int>, samples: seq<Sample>): (r: Grid)
    requires IsGrid(g, w, h) && |froms| == |samples| && ValidSamples(samples)
    requires forall i :: 0 <= i < |froms| ==> froms[i] < w * h
    ensures IsGrid(r, w, h)
    decreases |froms|
  {
    if froms == [] then g
    else
      var n := |froms| - 1;
      Spread(Apply(g, w, h, froms[..n], samples[..n]), w, h, froms[n], samples[n])
  }

  /** Applying one more call extends the fold by one Spread. */
  lemma ApplyStep(g: Grid, w: int, h: int, froms: seq<int>, samples: seq<Sample>, k: nat)
    requires IsGrid(g, w, h) && |froms| == |samples| && ValidSamples(samples) && k < |froms|
    requires forall i :: 0 <= i < |froms| ==> froms[i] < w * h
    ensures Apply(g, w, h, froms[..k + 1], samples[..k + 1]) ==
            Spread(Apply(g, w, h, froms[..k], samples[..k]), w, h, froms[k], samples[k])
  {
    assert froms[..k + 1][..k] == froms[..k];
    assert samples[..k + 1][..k] == samples[..k];
  }

  /** The grid after the first k calls of one doFire. */
  function SweepPrefix(g: Grid, w: int, h: int, samples: seq<Sample>, k: int): (r: Grid)
    requires IsGrid(g, w, h) && |samples| == w * (h - 1) && ValidSamples(samples)
    requires 0 <= k <= |samples|
    ensures IsGrid(r, w, h)
  {
    CallsInGrid(w, h, w);
    Apply(g, w, h, Calls(w, h, w)[..k], samples[..k])
  }

  /** One doFire: spreadFire for every cell of the rows above the bottom, in
      sweep order, the k-th call using the k-th sample. */
  function Sweep(g: Grid, w: int, h: int, samples: seq<Sample>): (r: Grid)
    requires IsGrid(g, w, h) && |samples| == w * (h - 1) && ValidSamples(samples)
    ensures IsGrid(r, w, h)
  {
    CallsInGrid(w, h, w);
    Apply(g, w, h, Calls(w, h, w), samples)
  }

  /** Before the first call a sweep has changed nothing. */
  lemma SweepPrefixEmpty(g: Grid, w: int, h: int, samples: seq<Sample>)
    requires IsGrid(g, w, h) && |samples| == w * (h - 1) && ValidSamples(samples)
    ensures SweepPrefix(g, w, h, samples, 0) == g
  {
    assert Calls(w, h, w)[..0] == [] && samples[..0] == [];
  }

  /** When column x is done, the call count is that of x+1 full columns. */
  lemma NextColumn(w: int, h: int, x: int, start: int, k: int)
    requires 0 <= x < w && h >= 1 && start == x * (h - 1) && k == start + (h - 1)
    ensures k == (x + 1) * (h - 1) && k <= w * (h - 1)
  {
    MulLeq(x + 1, w, h - 1);
  }

  lemma SweepPrefixComplete(g: Grid, w: int, h: int, samples: seq<Sample>)
    requires IsGrid(g, w, h) && |samples| == w * (h - 1) && ValidSamples(samples)
    ensures SweepPrefix(g, w, h, samples, |samples|) == Sweep(g, w, h, samples)
  {
    assert Calls(w, h, w)[..|samples|] == Calls(w, h, w);
    assert samples[..|samples|] == samples;
  }

  /** The k-th call of a sweep, k = x*(h-1) + (y-1), is spreadFire of cell
      (x, y), whose flat index lies inside the grid. */
  lemma SweepStep(g: Grid, w: int, h: int, samples: seq<Sample>, x: int, y: int, start: int, k: int)
    requires IsGrid(g, w, h) && |samples| == w * (h - 1) && ValidSamples(samples)
    requires 0 <= x < w && 1 <= y < h && start == x * (h - 1) && k == start + (y - 1)
    ensures 0 <= k < |samples| && 0 <= y * w + x < w * h
    ensures SweepPrefix(g, w, h, samples, k + 1) ==
            Spread(SweepPrefix(g, w, h, samples, k), w, h, y * w + x, samples[k])
  {
    var calls := Calls(w, h, w);
    CallsInGrid(w, h, w);
    CallsAtPrefix(w, h, w, x, y);
    assert CallIndex(h, x, y) == k && calls[k] == y * w + x;
    CellIndexInGrid(w, h, x, y);
    ApplyStep(g, w, h, calls, samples, k);
  }

  lemma {:induction false} ApplyPreservesInvariant(g: Grid, w: int, h: int, froms: seq<int>, samples: seq<Sample>)
    requires IsGrid(g, w, h) && |froms| == |samples| && ValidSamples(samples)
    requires forall i :: 0 <= i < |froms| ==> froms[i] < w * h
    requires FireInvariant(g, w, h)
    ensures FireInvariant(Apply(g, w, h, froms, samples), w, h)
    decreases |froms|
  {
    if froms != [] {
      var n := |froms| - 1;
      ApplyPreservesInvariant(g, w, h, froms[..n], samples[..n]);
      SpreadPreservesInvariant(Apply(g, w, h, froms[..n], samples[..n]), w, h, froms[n], samples[n]);
    }
  }

  lemma {:induction false} ApplyBottomRow(g: Grid, w: int, h: int, froms: seq<int>, samples: seq<Sample>)
    requires IsGrid(g, w, h) && |froms| == |samples| && ValidSamples(samples)
    requires forall i :: 0 <= i < |froms| ==> froms[i] < w * h
    ensures forall x :: 1 <= x < w ==> BottomRow(Apply(g, w, h, froms, samples))[x] == BottomRow(g)[x]
    ensures w >= 2 ==>
              var v := BottomRow(Apply(g, w, h, froms, samples))[0];
              v == BottomRow(g)[0] || v == NewValue(BottomRow(g)[w - 1], 0) || v == NewValue(BottomRow(g)[w - 1], 1)
    decreases |froms|
  {
    if froms != [] {
      var n := |froms| - 1;
      ApplyBottomRow(g, w, h, froms[..n], samples[..n]);
      SpreadBottomRow(Apply(g, w, h, froms[..n], samples[..n]), w, h, froms[n], samples[n]);
    }
  }

  /** doFire keeps every reachable-frame property. */
  lemma SweepPreservesInvariant(g: Grid, w: int, h: int, samples: seq<Sample>)
    requires IsGrid(g, w, h) && |samples| == w * (h - 1) && ValidSamples(samples)
    requires FireInvariant(g, w, h)
    ensures FireInvariant(Sweep(g, w, h, samples), w, h)
  {
    CallsInGrid(w, h, w);
    ApplyPreservesInvariant(g, w, h, Calls(w, h, w), samples);
  }

  /** doFire never touches bottom-row columns 1 to w-1, and on a grid at least
      two wide it leaves in the first bottom cell either its old value or the
      decayed heat of the last bottom cell. */
  lemma SweepBottomRow(g: Grid, w: int, h: int, samples: seq<Sample>)
    requires IsGrid(g, w, h) && |samples| == w * (h - 1) && ValidSamples(samples)
    ensures forall x :: 1 <= x < w ==> BottomRow(Sweep(g, w, h, samples))[x] == BottomRow(g)[x]
    ensures w >= 2 ==>
              var v := BottomRow(Sweep(g, w, h, samples))[0];
              v == BottomRow(g)[0] || v == NewValue(BottomRow(g)[w - 1], 0) || v == NewValue(BottomRow(g)[w - 1], 1)
  {
    CallsInGrid(w, h, w);
    ApplyBottomRow(g, w, h, Calls(w, h, w), samples);
  }

  /** On a single-row grid doFire changes nothing. */
  lemma SweepOneRow(g: Grid, w: int, samples: seq<Sample>)
    requires IsGrid(g, w, 1) && |samples| == 0
    ensures Sweep(g, w, 1, samples) == g
  {
  }

  predicate ValidFrames(w: int, h: int, frames: seq<seq<Sample>>)
  {
    forall i :: 0 <= i < |frames| ==> |frames[i]| == w * (h - 1) && ValidSamples(frames[i])
  }

  /** Successive Update calls, one doFire per frame, in order. */
  function Frames(g: Grid, w: int, h: int, frames: seq<seq<Sample>>): (r: Grid)
    requires IsGrid(g, w, h) && ValidFrames(w, h, frames)
    ensures IsGrid(r, w, h)
    decreases |frames|
  {
    if frames == [] then g else Frames(Sweep(g, w, h, frames[0]), w, h, frames[1..])
  }

  lemma {:induction false} FramesPreserveInvariant(g: Grid, w: int, h: int, frames: seq<seq<Sample>>)
    requires IsGrid(g, w, h) && ValidFrames(w, h, frames)
    requires FireInvariant(g, w, h)
    ensures FireInvariant(Frames(g, w, h, frames), w, h)
    decreases |frames|
  {
    if frames != [] {
      SweepPreservesInvariant(g, w, h, frames[0]);
      FramesPreserveInvariant(Sweep(g, w, h, frames[0]), w, h, frames[1..]);
    }
  }

  lemma {:induction false} FramesKeepBottomRow(g: Grid, w: int, h: int, frames: seq<seq<Sample>>)
    requires IsGrid(g, w, h) && ValidFrames(w, h, frames)
    ensures forall x :: 1 <= x < w ==> BottomRow(Frames(g, w, h, frames))[x] == BottomRow(g)[x]
    decreases |frames|
  {
    if frames != [] {
      SweepBottomRow(g, w, h, frames[0]);
      FramesKeepBottomRow(Sweep(g, w, h, frames[0]), w, h, frames[1..]);
    }
  }

  /** After NewGame and any number of frames: every cell lies in [0, 36];
      bottom-row columns 1 to w-1 are still 36; and the first bottom cell,
      which the right-edge wrap of the last cell can overwrite, is 35 or 36
      when the grid is at least two wide. */
  lemma ReachableFrames(w: int, h: int, frames: seq<seq<Sample>>)
    requires w >= 1 && h >= 1 && ValidFrames(w, h, frames)
    ensures forall y, x :: 0 <= y < h && 0 <= x < w ==>
              0 <= Frames(InitialGrid(w, h), w, h, frames)[y][x] <= MaxIntensity
    ensures forall x :: 1 <= x < w ==> BottomRow(Frames(InitialGrid(w, h), w, h, frames))[x] == MaxIntensity
    ensures w >= 2 ==> MaxIntensity - 1 <= BottomRow(Frames(InitialGrid(w, h), w, h, frames))[0]
  {
    InitialGridIsValid(w, h);
    FramesPreserveInvariant(InitialGrid(w, h), w, h, frames);
  }

  /** The first bottom cell is overwritten: on a 4x3 grid the last cell spreads
      rightwards and wraps onto (0, 2) with a decay of one. */
  lemma BottomLeftCanCool()
    ensures Spread(InitialGrid(4, 3), 4, 3, 11, Sample(1, 1))[2][0] == MaxIntensity - 1
  {
    DestOfCell(4, 3, 3, 2, 1);
  }

  /** On a one-wide grid an offset of +1 is not rejected: it lands on the
      source cell itself, so one doFire cools the only bottom cell by the decay. */
  lemma WidthOneSweep(g: Grid)
    requires IsGrid(g, 1, 2)
    ensures ValidSamples([Sample(1, 1)])
    ensures Sweep(g, 1, 2, [Sample(1, 1)])[1][0] == NewValue(g[1][0], 1)
  {
    var s := Sample(1, 1);
    assert Column(1, 2, 0) == [1];
    assert Calls(1, 2, 1) == [1];
    assert [1][..0] == [] && [s][..0] == [];
    assert Sweep(g, 1, 2, [s]) == Spread(g, 1, 2, 1, s);
    DestOfCell(1, 2, 0, 1, 1);
    assert 1 * 1 + 0 == 1;
    assert Dest(1, 2, 1, 1) == Some(Cell(0, 1));
    assert Source(1, 2, 1) == Cell(0, 1);
    SpreadWrittenValue(g, 1, 2, 1, s);
    assert Spread(g, 1, 2, 1, s)[1][0] == NewValue(g[1][0], 1);
  }

  /** `n` frames of one call each, every call drawing offset +1 and decay 1. */
  function CoolingFrames(n: nat): (frames: seq<seq<Sample>>)
  {
    seq(n, _ => [Sample(1, 1)])
  }

  /** A run of such frames is one doFire followed by the rest of the run. */
  lemma CoolingFramesStep(g: Grid, n: nat)
    requires IsGrid(g, 1, 2) && n > 0
    ensures Frames(g, 1, 2, CoolingFrames(n)) ==
            Frames(Sweep(g, 1, 2, [Sample(1, 1)]), 1, 2, CoolingFrames(n - 1))
  {
    var frames := CoolingFrames(n);
    assert frames[0] == [Sample(1, 1)];
    assert frames[1..] == CoolingFrames(n - 1);
  }

  /** On a one-wide grid with offset +1 and decay 1 every frame, the only
      bottom cell loses one unit of heat per frame until it reaches zero. */
  lemma {:induction false} WidthOneBottomCellCools(g: Grid, n: nat)
    requires IsGrid(g, 1, 2) && 0 <= g[1][0]
    ensures Frames(g, 1, 2, CoolingFrames(n))[1][0] == NewValue(g[1][0], n)
    decreases n
  {
    if n > 0 {
      CoolingFramesStep(g, n);
      WidthOneSweep(g);
      var g1 := Sweep(g, 1, 2, [Sample(1, 1)]);
      WidthOneBottomCellCools(g1, n - 1);
    } else {
      assert CoolingFrames(n) == [];
    }
  }

  /** From NewGame on a one-wide grid, 36 such frames put the fire out at the bottom. */
  lemma WidthOneFireDiesOut()
    ensures Frames(InitialGrid(1, 2), 1, 2, CoolingFrames(MaxIntensity))[1][0] == 0
  {
    InitialGridIsValid(1, 2);
    WidthOneBottomCellCools(InitialGrid(1, 2), MaxIntensity);
  }
}
