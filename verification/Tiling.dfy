/** Tiled layouts as nested row-major grids. A layout is a list of grids from the outermost to the
    innermost; one theorem shows that every such layout is a bijection between the positions of the
    image and the range of addresses. */
module Tiling {
  import opened Bits

  /** A grid of w by h blocks. */
  datatype Grid = Grid(w: nat, h: nat)

  predicate Proper(grids: seq<Grid>) {
    forall g :: g in grids ==> g.w > 0 && g.h > 0
  }

  function Width(grids: seq<Grid>): (r: nat)
    ensures Proper(grids) ==> r > 0
  {
    if grids == [] then 1 else
      assert grids[0] in grids;
      Product(grids[0].w, Width(grids[1..]))
  }

  function Height(grids: seq<Grid>): (r: nat)
    ensures Proper(grids) ==> r > 0
  {
    if grids == [] then 1 else
      assert grids[0] in grids;
      Product(grids[0].h, Height(grids[1..]))
  }

  function Product(a: nat, b: nat): (r: nat)
    ensures a > 0 && b > 0 ==> r > 0
  {
    a * b
  }

  function Area(grids: seq<Grid>): (r: nat)
    ensures Proper(grids) ==> r > 0
  {
    Product(Width(grids), Height(grids))
  }

  /** Address of position (x, y), counted in units of the innermost grid. */
  function Address(grids: seq<Grid>, x: nat, y: nat): nat
    requires Proper(grids)
  {
    if grids == [] then 0
    else
      var inner := grids[1..];
      var block := Product(y / Height(inner), grids[0].w) + x / Width(inner);
      Product(block, Area(inner)) + Address(inner, x % Width(inner), y % Height(inner))
  }

  /** Position stored at an address. */
  function Position(grids: seq<Grid>, a: nat): (nat, nat)
    requires Proper(grids)
  {
    if grids == [] then (0, 0)
    else
      var inner := grids[1..];
      assert grids[0] in grids;
      var (block, rest) := Divide(a, Area(inner));
      var (row, column) := Divide(block, grids[0].w);
      var (x, y) := Position(inner, rest);
      (Product(column, Width(inner)) + x, Product(row, Height(inner)) + y)
  }

  function Divide(a: nat, n: nat): (nat, nat)
    requires n > 0
  {
    (a / n, a % n)
  }

  // ----- mixed radix arithmetic

  lemma Digits(q: nat, r: nat, n: nat)
    requires r < n
    ensures (Product(q, n) + r) / n == q && (Product(q, n) + r) % n == r
  {
    QuotientIs(q * n + r, n, q, r);
  }

  lemma DigitsBelow(q: nat, r: nat, n: nat, bound: nat)
    requires r < n && q < bound
    ensures Product(q, n) + r < Product(bound, n)
  {
    NextMultiple(q, bound, n);
  }

  lemma HighDigitBelow(a: nat, n: nat, bound: nat)
    requires n > 0 && a < Product(bound, n)
    ensures a / n < bound && a == Product(a / n, n) + a % n
  {
    if a / n >= bound {
      if a / n > bound { NextMultiple(bound, a / n, n); }
      assert false;
    }
  }

  lemma AreaSplits(g: Grid, iw: nat, ih: nat)
    ensures Product(Product(g.w, iw), Product(g.h, ih)) == Product(Product(g.h, g.w), Product(iw, ih))
  {
    assert (g.w * iw) * (g.h * ih) == (g.h * g.w) * (iw * ih);
  }

  // ----- the bijection

  lemma {:induction false} AddressInverse(grids: seq<Grid>, x: nat, y: nat)
    requires Proper(grids) && x < Width(grids) && y < Height(grids)
    ensures Address(grids, x, y) < Area(grids)
    ensures Position(grids, Address(grids, x, y)) == (x, y)
  {
    if grids != [] {
      var g, inner := grids[0], grids[1..];
      var iw, ih := Width(inner), Height(inner);
      HighDigitBelow(x, iw, g.w);
      HighDigitBelow(y, ih, g.h);
      AddressInverse(inner, x % iw, y % ih);
      var block := Product(y / ih, g.w) + x / iw;
      DigitsBelow(y / ih, x / iw, g.w, g.h);
      Digits(y / ih, x / iw, g.w);
      var low := Address(inner, x % iw, y % ih);
      DigitsBelow(block, low, Area(inner), Product(g.h, g.w));
      Digits(block, low, Area(inner));
      AreaSplits(g, iw, ih);
    }
  }

  lemma {:induction false} PositionInverse(grids: seq<Grid>, a: nat)
    requires Proper(grids) && a < Area(grids)
    ensures Position(grids, a).0 < Width(grids) && Position(grids, a).1 < Height(grids)
    ensures Address(grids, Position(grids, a).0, Position(grids, a).1) == a
  {
    if grids != [] {
      var g, inner := grids[0], grids[1..];
      var iw, ih := Width(inner), Height(inner);
      AreaSplits(g, iw, ih);
      HighDigitBelow(a, Area(inner), Product(g.h, g.w));
      var block := a / Area(inner);
      HighDigitBelow(block, g.w, g.h);
      PositionInverse(inner, a % Area(inner));
      var (x, y) := Position(inner, a % Area(inner));
      Digits(block % g.w, x, iw);
      DigitsBelow(block % g.w, x, iw, g.w);
      Digits(block / g.w, y, ih);
      DigitsBelow(block / g.w, y, ih, g.h);
    }
  }

  // ----- the order of the blocks

  lemma NextDigit(x: nat, n: nat)
    requires n > 0
    ensures (x + n) / n == x / n + 1 && (x + n) % n == x % n
  {
    assert (x / n + 1) * n == x / n * n + n;
    QuotientIs(x + n, n, x / n + 1, x % n);
  }

  lemma NextProduct(q: nat, d: nat, n: nat)
    ensures Product(q + d, n) == Product(q, n) + Product(d, n)
  {
    assert (q + d) * n == q * n + d * n;
  }

  /** Row-major order: one block further right is one block further in memory. */
  lemma RightIsNext(grids: seq<Grid>, x: nat, y: nat)
    requires Proper(grids) && grids != []
    ensures Address(grids, x + Width(grids[1..]), y) == Address(grids, x, y) + Area(grids[1..])
  {
    var inner := grids[1..];
    NextDigit(x, Width(inner));
    NextProduct(Product(y / Height(inner), grids[0].w) + x / Width(inner), 1, Area(inner));
  }

  /** One block further down is a whole row of blocks further in memory. */
  lemma DownIsNextRow(grids: seq<Grid>, x: nat, y: nat)
    requires Proper(grids) && grids != []
    ensures Address(grids, x, y + Height(grids[1..])) == Address(grids, x, y) + Product(grids[0].w, Area(grids[1..]))
  {
    var g, inner := grids[0], grids[1..];
    NextDigit(y, Height(inner));
    NextProduct(y / Height(inner), 1, g.w);
    NextProduct(Product(y / Height(inner), g.w) + x / Width(inner), g.w, Area(inner));
  }

  /** Every block is laid out by the remaining grids, and blocks are in row-major order. */
  lemma EveryBlock(grids: seq<Grid>, column: nat, row: nat, x: nat, y: nat)
    requires Proper(grids) && grids != [] && x < Width(grids[1..]) && y < Height(grids[1..])
    ensures var inner := grids[1..];
            Address(grids, Product(column, Width(inner)) + x, Product(row, Height(inner)) + y) ==
            Product(Product(row, grids[0].w) + column, Area(inner)) + Address(inner, x, y)
  {
    Digits(column, x, Width(grids[1..]));
    Digits(row, y, Height(grids[1..]));
  }

  /** A single grid is a raster. */
  lemma OneGrid(w: nat, h: nat, x: nat, y: nat)
    requires w > 0 && h > 0
    ensures Address([Grid(w, h)], x, y) == y * w + x
  {
    var g := [Grid(w, h)];
    assert g[1..] == [];
    assert Width(g[1..]) == 1 && Height(g[1..]) == 1 && Area(g[1..]) == 1;
    assert x / 1 == x && y / 1 == y;
  }

  // ----- layouts of drm_fourcc.h

  /** 64x64 super-tiles of 8x4 groups of 2x4 tiles of 4x4 pixels. */
  function VivanteSuperTiled(w: nat, h: nat): seq<Grid> {
    [Grid(w, h), Grid(8, 4), Grid(2, 4), Grid(4, 4)]
  }

  /** Tiles in row-major order, bytes row-major inside: `rows` rows of `stride` bytes, together 4 KB,
      or 2 KB on gen2. */
  function IntelX(w: nat, h: nat, stride: nat, rows: nat): seq<Grid> {
    [Grid(w, h), Grid(stride, rows)]
  }

  lemma VivanteSuperTiledSize(w: nat, h: nat)
    ensures Width(VivanteSuperTiled(w, h)) == 64 * w && Height(VivanteSuperTiled(w, h)) == 64 * h
    ensures Area(VivanteSuperTiled(w, h)) == 4096 * (w * h)
  {
    var g := VivanteSuperTiled(w, h);
    assert g[1..] == [Grid(8, 4), Grid(2, 4), Grid(4, 4)];
    assert g[1..][1..] == [Grid(2, 4), Grid(4, 4)];
    assert g[1..][1..][1..] == [Grid(4, 4)];
    assert Width([Grid(4, 4)]) == 4 && Height([Grid(4, 4)]) == 4;
    assert Width([Grid(2, 4), Grid(4, 4)]) == 8 && Height([Grid(2, 4), Grid(4, 4)]) == 16;
    assert Width(g[1..]) == 64 && Height(g[1..]) == 64;
    assert (64 * w) * (64 * h) == 4096 * (w * h);
  }

  /** Every pixel of an aligned super-tiled image has its own address, and every address in the
      image's range is that of one pixel. */
  lemma VivanteSuperTiledBijection(w: nat, h: nat, x: nat, y: nat, a: nat)
    requires w > 0 && h > 0
    ensures var g := VivanteSuperTiled(w, h);
            && (x < 64 * w && y < 64 * h ==> Address(g, x, y) < 4096 * (w * h) && Position(g, Address(g, x, y)) == (x, y))
            && (a < 4096 * (w * h) ==>
                  var (px, py) := Position(g, a);
                  px < 64 * w && py < 64 * h && Address(g, px, py) == a)
  {
    var g := VivanteSuperTiled(w, h);
    VivanteSuperTiledSize(w, h);
    if x < Width(g) && y < Height(g) { AddressInverse(g, x, y); }
    if a < Area(g) { PositionInverse(g, a); }
  }

  lemma InnerSizes()
    ensures var group := [Grid(2, 4), Grid(4, 4)]; Width(group) == 8 && Height(group) == 16 && Area(group) == 128
    ensures var tile := [Grid(4, 4)]; Width(tile) == 4 && Height(tile) == 4 && Area(tile) == 16
  {
    var group := [Grid(2, 4), Grid(4, 4)];
    assert group[1..] == [Grid(4, 4)] && group[1..][1..] == [];
    assert Width([Grid(4, 4)]) == 4 && Height([Grid(4, 4)]) == 4;
  }

  /** One grid more, in plain numbers. */
  lemma Level(grids: seq<Grid>, column: nat, row: nat, x: nat, y: nat, iw: nat, ih: nat, area: nat)
    requires Proper(grids) && grids != [] && x < iw && y < ih
    requires Width(grids[1..]) == iw && Height(grids[1..]) == ih && Area(grids[1..]) == area
    ensures Address(grids, column * iw + x, row * ih + y) == (row * grids[0].w + column) * area + Address(grids[1..], x, y)
  {
    EveryBlock(grids, column, row, x, y);
  }

  lemma GroupFormula(g: seq<Grid>, tx: nat, ty: nat, px: nat, py: nat)
    requires g == [Grid(2, 4), Grid(4, 4)] && px < 4 && py < 4
    ensures Address(g, tx * 4 + px, ty * 4 + py) == (ty * 2 + tx) * 16 + (py * 4 + px)
  {
    assert g[1..] == [Grid(4, 4)];
    InnerSizes();
    Level(g, tx, ty, px, py, 4, 4, 16);
    OneGrid(4, 4, px, py);
  }

  lemma SuperTileFormula(g: seq<Grid>, gx: nat, gy: nat, tx: nat, ty: nat, px: nat, py: nat)
    requires g == [Grid(8, 4), Grid(2, 4), Grid(4, 4)] && tx < 2 && ty < 4 && px < 4 && py < 4
    ensures Address(g, gx * 8 + (tx * 4 + px), gy * 16 + (ty * 4 + py)) ==
            (gy * 8 + gx) * 128 + ((ty * 2 + tx) * 16 + (py * 4 + px))
  {
    var inner := g[1..];
    assert inner == [Grid(2, 4), Grid(4, 4)];
    InnerSizes();
    GroupFormula(inner, tx, ty, px, py);
    Level(g, gx, gy, tx * 4 + px, ty * 4 + py, 8, 16, 128);
  }

  /** The address of every pixel in plain numbers: pixel (px, py) of tile (tx, ty) of group (gx, gy) of
      super-tile (sx, sy). Super-tiles of 4096 pixels in rows of w, in each 8x4 groups of 128, in each
      2x4 tiles of 16, in each 4x4 pixels, everything row-major. */
  lemma VivanteFormula(w: nat, h: nat, sx: nat, sy: nat, gx: nat, gy: nat, tx: nat, ty: nat, px: nat, py: nat)
    requires w > 0 && h > 0 && gx < 8 && gy < 4 && tx < 2 && ty < 4 && px < 4 && py < 4
    ensures Address(VivanteSuperTiled(w, h), sx * 64 + (gx * 8 + (tx * 4 + px)), sy * 64 + (gy * 16 + (ty * 4 + py))) ==
            (sy * w + sx) * 4096 + ((gy * 8 + gx) * 128 + ((ty * 2 + tx) * 16 + (py * 4 + px)))
  {
    SuperTileFormula([Grid(8, 4), Grid(2, 4), Grid(4, 4)], gx, gy, tx, ty, px, py);
    OuterFormula(w, h, sx, sy, gx * 8 + (tx * 4 + px), gy * 16 + (ty * 4 + py));
  }

  lemma OuterFormula(w: nat, h: nat, sx: nat, sy: nat, x: nat, y: nat)
    requires w > 0 && h > 0 && x < 64 && y < 64
    ensures Address(VivanteSuperTiled(w, h), sx * 64 + x, sy * 64 + y) ==
            (sy * w + sx) * 4096 + Address([Grid(8, 4), Grid(2, 4), Grid(4, 4)], x, y)
  {
    var g := VivanteSuperTiled(w, h);
    assert g[1..] == [Grid(8, 4), Grid(2, 4), Grid(4, 4)];
    SuperTileSize();
    Level(g, sx, sy, x, y, 64, 64, 4096);
  }

  lemma SuperTileSize()
    ensures var inner := [Grid(8, 4), Grid(2, 4), Grid(4, 4)]; Width(inner) == 64 && Height(inner) == 64 && Area(inner) == 4096
  {
    var inner := [Grid(8, 4), Grid(2, 4), Grid(4, 4)];
    assert inner[1..] == [Grid(2, 4), Grid(4, 4)];
    InnerSizes();
  }

  /** X-tiling in plain numbers. */
  lemma IntelXFormula(w: nat, h: nat, stride: nat, rows: nat, x: nat, y: nat)
    requires w > 0 && h > 0 && stride > 0 && rows > 0
    ensures Width(IntelX(w, h, stride, rows)) == w * stride && Height(IntelX(w, h, stride, rows)) == h * rows
    ensures Address(IntelX(w, h, stride, rows), x, y) ==
            (y / rows * w + x / stride) * (stride * rows) + y % rows * stride + x % stride
  {
    var g := IntelX(w, h, stride, rows);
    assert g[1..] == [Grid(stride, rows)] && g[1..][1..] == [];
    assert Width(g[1..]) == stride && Height(g[1..]) == rows;
    OneGrid(stride, rows, x % stride, y % rows);
  }
}
