/** The Broadcom VC4 "T" format: 4 KB tiles in serpentine rows, each tile four 1 KB subtiles in an
    order that depends on the row, each subtile a 4x4 grid of 64-byte utiles. Positions are byte
    columns x and rows y counted from the bottom left, where memory starts; a utile is uw bytes by
    uh rows with uw * uh == 64. */
module TFormat {
  import opened Bits
  import opened Tiling

  /** Order of a tile's subtiles in memory: (BL, TL, TR, BR) on even tile rows, (TR, BR, BL, TL) on
      odd ones; right and up are 0 or 1. */
  function Order(odd: bool, right: nat, up: nat): (o: nat)
    requires right < 2 && up < 2
    ensures o < 4
  {
    if !odd then (if right == 0 then up else 3 - up)
    else (if right == 1 then 1 - up else 2 + up)
  }

  function Unorder(odd: bool, o: nat): (p: (nat, nat))
    requires o < 4
    ensures p.0 < 2 && p.1 < 2 && Order(odd, p.0, p.1) == o
  {
    if !odd then (if o < 2 then (0, o) else (1, 3 - o))
    else (if o < 2 then (1, 1 - o) else (0, o - 2))
  }

  /** Tiles of odd rows run from right to left. */
  function Turn(odd: bool, column: nat, w: nat): (c: nat)
    requires column < w
    ensures c < w
  {
    if odd then w - 1 - column else column
  }

  /** Place in memory of the subtile in column sx and row sy of an image w tiles wide. */
  function SubtileIndex(w: nat, sx: nat, sy: nat): nat
    requires sx < 2 * w
  {
    var row := sy / 2;
    4 * (Product(row, w) + Turn(row % 2 == 1, sx / 2, w)) + Order(row % 2 == 1, sx % 2, sy % 2)
  }

  /** Where subtile o of a tile is in the image. */
  function InImage(w: nat, row: nat, column: nat, o: nat): (p: (nat, nat))
    requires column < w && o < 4
    ensures p.0 < 2 * w
  {
    var (right, up) := Unorder(row % 2 == 1, o);
    (2 * Turn(row % 2 == 1, column, w) + right, 2 * row + up)
  }

  function SubtileAt(w: nat, index: nat): (p: (nat, nat))
    requires w > 0
    ensures p.0 < 2 * w
  {
    var (row, column) := Divide(index / 4, w);
    InImage(w, row, column, index % 4)
  }

  lemma SubtileInverse(w: nat, h: nat, sx: nat, sy: nat)
    requires sx < 2 * w && sy < 2 * h
    ensures SubtileIndex(w, sx, sy) < 4 * Product(h, w)
    ensures SubtileAt(w, SubtileIndex(w, sx, sy)) == (sx, sy)
  {
    var row := sy / 2;
    var column := Turn(row % 2 == 1, sx / 2, w);
    Digits(row, column, w);
    DigitsBelow(row, column, w, h);
  }

  lemma SubtileAtInverse(w: nat, h: nat, index: nat)
    requires w > 0 && index < 4 * Product(h, w)
    ensures var (sx, sy) := SubtileAt(w, index); sx < 2 * w && sy < 2 * h && SubtileIndex(w, sx, sy) == index
  {
    HighDigitBelow(index / 4, w, h);
  }

  /** The documented order: even rows of tiles run left to right with subtiles (BL, TL, TR, BR), odd
      rows run right to left with subtiles (TR, BR, BL, TL). */
  lemma DocumentedOrder(w: nat, row: nat, column: nat, o: nat)
    requires column < w && o < 4
    ensures SubtileAt(w, 4 * (Product(row, w) + column) + o) ==
            if row % 2 == 0 then
              var (x, y) := (2 * column, 2 * row);
              if o == 0 then (x, y) else if o == 1 then (x, y + 1) else if o == 2 then (x + 1, y + 1) else (x + 1, y)
            else
              var (x, y) := (2 * (w - 1 - column), 2 * row);
              if o == 0 then (x + 1, y + 1) else if o == 1 then (x + 1, y) else if o == 2 then (x, y) else (x, y + 1)
  {
    Digits(row, column, w);
    InTile(w, Product(row, w) + column, row, column, o);
  }

  lemma InTile(w: nat, tile: nat, row: nat, column: nat, o: nat)
    requires column < w && tile / w == row && tile % w == column && o < 4
    ensures SubtileAt(w, 4 * tile + o) == InImage(w, row, column, o)
  {
    assert (4 * tile + o) / 4 == tile && (4 * tile + o) % 4 == o;
  }

  predicate EdgeAdjacent(a: (nat, nat), b: (nat, nat)) {
    || (a.0 == b.0 && (a.1 == b.1 + 1 || b.1 == a.1 + 1))
    || (a.1 == b.1 && (a.0 == b.0 + 1 || b.0 == a.0 + 1))
  }

  /** Consecutive subtiles of one row of tiles share an edge, in even rows and in odd ones. */
  lemma ConsecutiveSubtilesTouch(w: nat, index: nat)
    requires w > 0 && index / 4 / w == (index + 1) / 4 / w
    ensures EdgeAdjacent(SubtileAt(w, index), SubtileAt(w, index + 1))
  {
    var t := index / 4;
    if index % 4 == 3 {
      assert (index + 1) / 4 == t + 1 && (index + 1) % 4 == 0;
      SameRow(t, w);
    } else {
      assert (index + 1) / 4 == t && (index + 1) % 4 == index % 4 + 1;
    }
  }

  lemma SameRow(t: nat, w: nat)
    requires w > 0 && t / w == (t + 1) / w
    ensures (t + 1) % w == t % w + 1
  {
    assert t == t / w * w + t % w && t + 1 == (t + 1) / w * w + (t + 1) % w;
  }

  // ----- whole addresses

  function Subtile(uw: nat, uh: nat): seq<Grid> {
    [Grid(4, 4), Grid(uw, uh)]
  }

  lemma SubtileSize(uw: nat, uh: nat)
    requires uw * uh == 64
    ensures uw > 0 && uh > 0 && Proper(Subtile(uw, uh))
    ensures Width(Subtile(uw, uh)) == 4 * uw && Height(Subtile(uw, uh)) == 4 * uh && Area(Subtile(uw, uh)) == 1024
  {
    var g := Subtile(uw, uh);
    assert uw > 0 && uh > 0;
    assert g[1..] == [Grid(uw, uh)] && g[1..][1..] == [];
    assert Width(g[1..]) == uw && Height(g[1..]) == uh;
    assert (4 * uw) * (4 * uh) == 16 * (uw * uh);
  }

  /** Inside a subtile, utiles of 64 bytes in raster order, each in raster order. */
  lemma SubtileFormula(uw: nat, uh: nat, ux: nat, uy: nat, px: nat, py: nat)
    requires uw * uh == 64 && uw > 0 && uh > 0 && ux < 4 && uy < 4 && px < uw && py < uh
    ensures Address(Subtile(uw, uh), ux * uw + px, uy * uh + py) == 256 * uy + 64 * ux + uw * py + px
  {
    var g := Subtile(uw, uh);
    assert g[1..] == [Grid(uw, uh)] && g[1..][1..] == [];
    assert Width(g[1..]) == uw && Height(g[1..]) == uh && Area(g[1..]) == 64;
    EveryBlock(g, ux, uy, px, py);
    OneGrid(uw, uh, px, py);
  }

  function TAddress(uw: nat, uh: nat, w: nat, x: nat, y: nat): nat
    requires uw > 0 && uh > 0 && x / (4 * uw) < 2 * w
  {
    var (sx, px) := Divide(x, 4 * uw);
    var (sy, py) := Divide(y, 4 * uh);
    1024 * SubtileIndex(w, sx, sy) + Address(Subtile(uw, uh), px, py)
  }

  function TPosition(uw: nat, uh: nat, w: nat, a: nat): (nat, nat)
    requires uw > 0 && uh > 0 && w > 0
  {
    var (sx, sy) := SubtileAt(w, a / 1024);
    var (x, y) := Position(Subtile(uw, uh), a % 1024);
    (Product(sx, 4 * uw) + x, Product(sy, 4 * uh) + y)
  }

  /** The byte at (px, py) of the subtile in column sx and row sy. */
  lemma InSubtile(uw: nat, uh: nat, w: nat, h: nat, sx: nat, sy: nat, px: nat, py: nat)
    requires uw * uh == 64 && uw > 0 && uh > 0 && sx < 2 * w && sy < 2 * h && px < 4 * uw && py < 4 * uh
    ensures var a := 1024 * SubtileIndex(w, sx, sy) + Address(Subtile(uw, uh), px, py);
            a < 4096 * Product(h, w) && TPosition(uw, uh, w, a) == (Product(sx, 4 * uw) + px, Product(sy, 4 * uh) + py)
  {
    SubtileSize(uw, uh);
    SubtileInverse(w, h, sx, sy);
    AddressInverse(Subtile(uw, uh), px, py);
    Located(uw, uh, w, h, (sx, sy), (px, py), SubtileIndex(w, sx, sy), Address(Subtile(uw, uh), px, py));
  }

  lemma Located(uw: nat, uh: nat, w: nat, h: nat, s: (nat, nat), p: (nat, nat), index: nat, low: nat)
    requires uw > 0 && uh > 0 && w > 0 && index < 4 * Product(h, w) && low < 1024
    requires SubtileAt(w, index) == s && Position(Subtile(uw, uh), low) == p
    ensures 1024 * index + low < 4096 * Product(h, w)
    ensures TPosition(uw, uh, w, 1024 * index + low) == (Product(s.0, 4 * uw) + p.0, Product(s.1, 4 * uh) + p.1)
  {
    assert (1024 * index + low) / 1024 == index && (1024 * index + low) % 1024 == low;
  }

  /** Every address in plain numbers: byte (px, py) of utile (ux, uy) of the subtile in column sx and
      row sy. One byte further in a row is one further in memory, the next row of a utile uw bytes, the
      next utile 64 bytes, the next row of utiles 256 bytes. */
  lemma TAddressFormula(uw: nat, uh: nat, w: nat, sx: nat, sy: nat, ux: nat, uy: nat, px: nat, py: nat)
    requires uw * uh == 64 && uw > 0 && uh > 0 && sx < 2 * w && ux < 4 && uy < 4 && px < uw && py < uh
    ensures var x, y := sx * (4 * uw) + ux * uw + px, sy * (4 * uh) + uy * uh + py;
            && x / (4 * uw) == sx
            && TAddress(uw, uh, w, x, y) == 1024 * SubtileIndex(w, sx, sy) + 256 * uy + 64 * ux + uw * py + px
  {
    InBlock(ux, px, uw);
    InBlock(uy, py, uh);
    QuotientIs(sx * (4 * uw) + ux * uw + px, 4 * uw, sx, ux * uw + px);
    QuotientIs(sy * (4 * uh) + uy * uh + py, 4 * uh, sy, uy * uh + py);
    SubtileFormula(uw, uh, ux, uy, px, py);
  }

  lemma InBlock(u: nat, b: nat, n: nat)
    requires u < 4 && b < n
    ensures u * n + b < 4 * n
  {
    NextMultiple(u, 4, n);
  }

  /** The subtiles in memory, from the bottom left: tile rows one after the other, even rows from the
      left as (BL, TL, TR, BR), odd rows from the right as (TR, BR, BL, TL). */
  lemma SubtilePlace(w: nat, row: nat, column: nat, right: nat, up: nat)
    requires column < w && right < 2 && up < 2
    ensures SubtileIndex(w, 2 * column + right, 2 * row + up) ==
            if row % 2 == 0 then 4 * (row * w + column) + (if right == 0 then up else 3 - up)
            else 4 * (row * w + (w - 1 - column)) + (if right == 1 then 1 - up else 2 + up)
  {
    assert (2 * row + up) / 2 == row && (2 * row + up) % 2 == up;
    assert (2 * column + right) / 2 == column && (2 * column + right) % 2 == right;
  }

  /** Every byte of an image of w by h tiles has its own address below 4096 * w * h ... */
  lemma TAddressInverse(uw: nat, uh: nat, w: nat, h: nat, x: nat, y: nat)
    requires uw * uh == 64 && uw > 0 && uh > 0 && w > 0
    requires x < Product(2 * w, 4 * uw) && y < Product(2 * h, 4 * uh)
    ensures x / (4 * uw) < 2 * w
    ensures TAddress(uw, uh, w, x, y) < 4096 * Product(h, w)
    ensures TPosition(uw, uh, w, TAddress(uw, uh, w, x, y)) == (x, y)
  {
    HighDigitBelow(x, 4 * uw, 2 * w);
    HighDigitBelow(y, 4 * uh, 2 * h);
    InSubtile(uw, uh, w, h, x / (4 * uw), y / (4 * uh), x % (4 * uw), y % (4 * uh));
  }

  /** ... and every address below that is the address of one byte of the image. */
  lemma TPositionInverse(uw: nat, uh: nat, w: nat, h: nat, a: nat)
    requires uw * uh == 64 && uw > 0 && uh > 0 && w > 0 && a < 4096 * Product(h, w)
    ensures var (x, y) := TPosition(uw, uh, w, a);
            && x < Product(2 * w, 4 * uw) && y < Product(2 * h, 4 * uh)
            && x / (4 * uw) < 2 * w && TAddress(uw, uh, w, x, y) == a
  {
    SubtileSize(uw, uh);
    SubtileAtInverse(w, h, a / 1024);
    PositionInverse(Subtile(uw, uh), a % 1024);
    var (sx, sy) := SubtileAt(w, a / 1024);
    var (x, y) := Position(Subtile(uw, uh), a % 1024);
    Digits(sx, x, 4 * uw);
    DigitsBelow(sx, x, 4 * uw, 2 * w);
    Digits(sy, y, 4 * uh);
    DigitsBelow(sy, y, 4 * uh, 2 * h);
  }
}
