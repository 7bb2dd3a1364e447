/**
 * Where the matrix video puts its tiles. Every input is scaled straight into the shared output picture:
 * for each plane the tile gets a start address and a line size, and the scaler writes one line after the other.
 */
module MatrixTiles {
  import opened Arithmetic

  /**
   * One plane: the grid, the height that the code takes the plane to have in a tile, the rows that the scaler
   * writes for a tile, and the line sizes and the height of the plane in a tile and in the output.
   */
  datatype Plane = Plane(
    tilesX: nat, tilesY: nat, planeHeight: nat, rows: nat, interLine: nat, outLine: nat, outHeight: nat)
  {
    ghost predicate Valid() {
      tilesX >= 1 && tilesY >= 1 && planeHeight >= 1 && rows >= 1 && interLine >= 1 && outLine >= 1
    }

    function Size(): nat {
      outLine * outHeight
    }

    /** The bytes the scaler writes for one row of tiles. */
    function Band(): nat {
      rows * (tilesX * interLine)
    }

    /** How far apart the rows of tiles begin. */
    function Pitch(): nat {
      planeHeight * outLine
    }

    /** Where the last row of tiles ends, or rather would end if the plane were long enough. */
    function End(): int {
      (tilesY - 1) * Pitch() + Band()
    }

    /** How far the bytes written reach from the start of the plane without a gap. */
    function Reach(): int {
      if tilesY == 1 || Band() >= Pitch() then End() else Band()
    }

    ghost predicate Fits() {
      (tilesY == 1 || Band() == Pitch()) && End() == Size()
    }

    /** The scaler writes as many rows as the code assumes, and a single row of tiles has all those of the plane. */
    ghost predicate Regular() {
      rows == planeHeight && (tilesY == 1 ==> rows == outHeight)
    }
  }

  /** A byte of a tile: tile i, a row of it and a column, counted in bytes. */
  datatype Spot = Spot(tile: int, row: int, col: int)

  ghost predicate IsSpot(g: Plane, s: Spot) {
    0 <= s.tile < g.tilesX * g.tilesY && 0 <= s.row < g.rows && 0 <= s.col < g.interLine
  }

  /** Where in the output plane the scaler puts a byte. */
  function Address(g: Plane, s: Spot): int
    requires g.tilesX >= 1
  {
    (s.tile / g.tilesX) * g.Pitch()
    + ((s.row * g.tilesX + s.tile % g.tilesX) * g.interLine + s.col)
  }

  // ---------- the pointers ----------

  /** -((-n) >> k): the shift of a negative number rounds down. */
  function CeilShift(n: int, k: nat): int {
    -((-n) / Pow2(k))
  }

  /** The height of a tile in a plane: every plane but the first is taken for a chroma plane. */
  function PlaneHeight(plane: nat, interHeight: nat, log2ChromaH: nat): nat {
    CeilShiftNat(interHeight, log2ChromaH);
    if plane == 0 then interHeight else CeilShift(interHeight, log2ChromaH)
  }

  /** The grid's tiles are tilesX to a row and interHeight high. */
  predicate HasTiles(l: Grid, tilesX: nat, interHeight: nat) {
    l.tilesX == tilesX >= 1 && l.tilesY >= 1 && l.TileHeight() == interHeight
  }

  /**
   * Sets a tile's pointers and line sizes, one plane after the other. From there the scaler, which goes to a row and
   * a column of it, finds every byte of the tile at its address in the picture's plane. A plane the format does not
   * have is left alone.
   */
  method PlaceTile(i: nat, tilesX: nat, interHeight: nat, log2ChromaH: nat,
                   outData: seq<int>, outLinesize: seq<nat>, data: array<int>, linesize: array<nat>)
    requires tilesX >= 1 && data != linesize as object
    requires data.Length == linesize.Length == |outData| == |outLinesize|
    modifies data, linesize
    ensures forall p :: 0 <= p < data.Length && old(linesize[p]) == 0 ==> data[p] == old(data[p]) && linesize[p] == 0
    ensures forall p :: 0 <= p < data.Length && old(linesize[p]) != 0 ==>
      && linesize[p] == old(linesize[p]) * tilesX
      && data[p] == outData[p] + i / tilesX * (if p == 0 then interHeight else CeilShift(interHeight, log2ChromaH))
                                   * outLinesize[p] + i % tilesX * old(linesize[p])
    ensures forall p, l: Grid, f: Sampling, s: Spot ::
      && 0 <= p < data.Length && old(linesize[p]) != 0 && s.tile == i
      && HasTiles(l, tilesX, interHeight) && f.takenH == (if p == 0 then 0 else log2ChromaH)
      && PictureOf(l, f).interLine == old(linesize[p]) && PictureOf(l, f).outLine == outLinesize[p]
      ==> data[p] + s.row * linesize[p] + s.col == outData[p] + Address(PictureOf(l, f), s)
  {
    var x, y := i % tilesX, i / tilesX;
    ghost var lines := linesize[..];
    for plane := 0 to data.Length
      invariant forall p :: plane <= p < data.Length ==> data[p] == old(data[p]) && linesize[p] == lines[p]
      invariant forall p :: 0 <= p < plane && lines[p] == 0 ==> data[p] == old(data[p]) && linesize[p] == 0
      invariant forall p :: 0 <= p < plane && lines[p] != 0 ==>
        Placed(data[p] - outData[p], linesize[p], x, y, PlaneHeight(p, interHeight, log2ChromaH), lines[p],
               outLinesize[p], tilesX)
    {
      if linesize[plane] != 0 {
        var planeHeight := PlaneHeight(plane, interHeight, log2ChromaH);
        var address := outData[plane];
        address := address + y * planeHeight * outLinesize[plane];
        address := address + x * linesize[plane];
        data[plane] := address;
        linesize[plane] := linesize[plane] * tilesX;
      }
    }
    forall p, l: Grid, f: Sampling, s: Spot |
      && 0 <= p < data.Length && lines[p] != 0 && s.tile == i
      && HasTiles(l, tilesX, interHeight) && f.takenH == (if p == 0 then 0 else log2ChromaH)
      && PictureOf(l, f).interLine == lines[p] && PictureOf(l, f).outLine == outLinesize[p]
      ensures data[p] + s.row * linesize[p] + s.col == outData[p] + Address(PictureOf(l, f), s)
    {
      NoShift(interHeight);
      WrittenAt(PictureOf(l, f), s);
    }
  }

  lemma NoShift(n: nat)
    ensures CeilShift(n, 0) == n
  {
    assert Pow2(0) == 1;
  }

  ghost predicate Placed(start: int, line: int, x: int, y: int, planeHeight: int, interLine: int, outLine: int,
                         tilesX: int)
  {
    start == y * planeHeight * outLine + x * interLine && line == interLine * tilesX
  }

  lemma WrittenAt(g: Plane, s: Spot)
    requires g.tilesX >= 1
    ensures var x, y := s.tile % g.tilesX, s.tile / g.tilesX;
      (y * g.planeHeight * g.outLine + x * g.interLine) + s.row * (g.interLine * g.tilesX) + s.col == Address(g, s)
  {
    var x, y := s.tile % g.tilesX, s.tile / g.tilesX;
    assert y * g.planeHeight * g.outLine == y * g.Pitch();
    assert s.row * (g.interLine * g.tilesX) == (s.row * g.tilesX) * g.interLine;
    assert (s.row * g.tilesX + x) * g.interLine == (s.row * g.tilesX) * g.interLine + x * g.interLine;
  }

  // ---------- arithmetic ----------

  lemma DivMod(q: int, r: int, d: int)
    requires 0 <= r < d
    ensures (q * d + r) / d == q && (q * d + r) % d == r
  {
    var n := q * d + r;
    var e := n / d - q;
    assert n == n / d * d + n % d;
    assert e * d == r - n % d;
    if e >= 1 {
      TimesMonotone(1, e, d);
    } else if e <= -1 {
      TimesMonotone(e, -1, d);
    }
  }

  /** A two-digit number is below the product of its bases. */
  lemma TwoDigits(hi: int, lo: int, n: int, d: int)
    requires 0 <= hi < n && 0 <= lo < d
    ensures 0 <= hi * d + lo < n * d
  {
    TimesMonotone(0, hi, d);
    TimesMonotone(hi, n - 1, d);
    assert (n - 1) * d == n * d - d;
  }

  /** And every number below the product has two such digits. */
  lemma HasTwoDigits(a: int, n: int, d: int)
    requires d >= 1 && 0 <= a < n * d
    ensures 0 <= a / d < n && 0 <= a % d < d && a == a / d * d + a % d
  {
    var q := a / d;
    assert a == q * d + a % d;
    TimesMonotone(n, if q >= n then q else n, d);
    TimesMonotone(if q <= -1 then q else -1, -1, d);
  }

  // ---------- one band: the tiles of one row of the grid ----------

  /** The byte of tile row y that lies b bytes into its band. */
  function SpotInBand(g: Plane, y: int, b: int): Spot
    requires g.tilesX >= 1 && g.interLine >= 1
  {
    Spot(y * g.tilesX + b / g.interLine % g.tilesX, b / g.interLine / g.tilesX, b % g.interLine)
  }

  lemma BandByte(g: Plane, y: int, b: int)
    requires g.Valid() && 0 <= y < g.tilesY && 0 <= b < g.Band()
    ensures var s := SpotInBand(g, y, b);
      IsSpot(g, s) && s.tile / g.tilesX == y && Address(g, s) == y * g.Pitch() + b
  {
    var s, line := SpotInBand(g, y, b), b / g.interLine;
    assert g.Band() == (g.rows * g.tilesX) * g.interLine;
    HasTwoDigits(b, g.rows * g.tilesX, g.interLine);
    HasTwoDigits(line, g.rows, g.tilesX);
    DivMod(y, line % g.tilesX, g.tilesX);
    TwoDigits(y, line % g.tilesX, g.tilesY, g.tilesX);
    assert g.tilesY * g.tilesX == g.tilesX * g.tilesY;
  }

  /** Inside its band every byte has its own place. */
  lemma ByteInBand(g: Plane, s: Spot)
    requires g.Valid() && IsSpot(g, s)
    ensures var y, b := s.tile / g.tilesX, Address(g, s) - s.tile / g.tilesX * g.Pitch();
      0 <= y < g.tilesY && 0 <= b < g.Band() && s == SpotInBand(g, y, b)
  {
    var x := s.tile % g.tilesX;
    var line := s.row * g.tilesX + x;
    assert g.tilesX * g.tilesY == g.tilesY * g.tilesX;
    HasTwoDigits(s.tile, g.tilesY, g.tilesX);
    TwoDigits(s.row, x, g.rows, g.tilesX);
    TwoDigits(line, s.col, g.rows * g.tilesX, g.interLine);
    assert g.Band() == (g.rows * g.tilesX) * g.interLine;
    DivMod(line, s.col, g.interLine);
    DivMod(s.row, x, g.tilesX);
  }

  // ---------- the whole plane ----------

  ghost predicate Inside(g: Plane)
    requires g.tilesX >= 1
  {
    forall s :: IsSpot(g, s) ==> 0 <= Address(g, s) < g.Size()
  }

  ghost predicate Apart(g: Plane)
    requires g.tilesX >= 1
  {
    forall s, t :: IsSpot(g, s) && IsSpot(g, t) && Address(g, s) == Address(g, t) ==> s == t
  }

  ghost predicate Covered(g: Plane, a: int)
    requires g.tilesX >= 1
  {
    exists s :: IsSpot(g, s) && Address(g, s) == a
  }

  ghost predicate Covers(g: Plane)
    requires g.tilesX >= 1
  {
    forall a :: 0 <= a < g.Size() ==> Covered(g, a)
  }

  /** The tiles fill the plane: no byte of theirs lies outside, none is written twice, none is left out. */
  ghost predicate Fills(g: Plane)
    requires g.tilesX >= 1
  {
    Inside(g) && Apart(g) && Covers(g)
  }

  lemma NotEmpty(g: Plane)
    requires g.Valid()
    ensures g.Band() >= 1 && g.Pitch() >= 1
  {
    TimesMonotone(1, g.tilesX, g.interLine);
    TimesMonotone(1, g.rows, g.tilesX * g.interLine);
    TimesMonotone(1, g.planeHeight, g.outLine);
  }

  /** Exactly when no byte is written twice: there is one row of tiles, or each ends before the next begins. */
  lemma ApartExactlyWhen(g: Plane)
    requires g.Valid()
    ensures Apart(g) <==> g.tilesY == 1 || g.Band() <= g.Pitch()
  {
    NotEmpty(g);
    if g.tilesY == 1 || g.Band() <= g.Pitch() {
      forall s, t | IsSpot(g, s) && IsSpot(g, t) && Address(g, s) == Address(g, t) ensures s == t {
        ByteInBand(g, s);
        ByteInBand(g, t);
        if g.tilesY > 1 {
          DivMod(s.tile / g.tilesX, Address(g, s) - s.tile / g.tilesX * g.Pitch(), g.Pitch());
          DivMod(t.tile / g.tilesX, Address(g, t) - t.tile / g.tilesX * g.Pitch(), g.Pitch());
        }
      }
    } else {
      BandByte(g, 0, g.Pitch());
      BandByte(g, 1, 0);
      var s, t := SpotInBand(g, 0, g.Pitch()), SpotInBand(g, 1, 0);
      assert IsSpot(g, s) && IsSpot(g, t) && Address(g, s) == Address(g, t);
      assert s.tile / g.tilesX != t.tile / g.tilesX;
    }
  }

  /** Every address lies below the end, and the one just before it is written. */
  lemma AddressesEnd(g: Plane) returns (last: Spot)
    requires g.Valid()
    ensures forall s :: IsSpot(g, s) ==> 0 <= Address(g, s) < g.End()
    ensures IsSpot(g, last) && Address(g, last) == g.End() - 1
  {
    NotEmpty(g);
    forall s | IsSpot(g, s) ensures 0 <= Address(g, s) < g.End() {
      ByteInBand(g, s);
      TimesMonotone(0, s.tile / g.tilesX, g.Pitch());
      TimesMonotone(s.tile / g.tilesX, g.tilesY - 1, g.Pitch());
    }
    BandByte(g, g.tilesY - 1, g.Band() - 1);
    last := SpotInBand(g, g.tilesY - 1, g.Band() - 1);
  }

  /** Exactly when nothing is written outside the plane: the last row of tiles ends within it. */
  lemma InsideExactlyWhen(g: Plane)
    requires g.Valid()
    ensures Inside(g) <==> g.End() <= g.Size()
  {
    var last := AddressesEnd(g);
  }

  /** Everything up to the reach is written, and nothing right after it. */
  lemma WrittenUpToReach(g: Plane, a: int)
    requires g.Valid() && 0 <= a < g.Reach()
    ensures Covered(g, a)
  {
    NotEmpty(g);
    var before := (g.tilesY - 1) * g.Pitch();
    TimesMonotone(0, g.tilesY - 1, g.Pitch());
    if a < g.Band() {
      BandByte(g, 0, a);
      assert Address(g, SpotInBand(g, 0, a)) == a;
    } else if a < before {
      HasTwoDigits(a, g.tilesY - 1, g.Pitch());
      BandByte(g, a / g.Pitch(), a % g.Pitch());
      assert Address(g, SpotInBand(g, a / g.Pitch(), a % g.Pitch())) == a;
    } else {
      BandByte(g, g.tilesY - 1, a - before);
      assert Address(g, SpotInBand(g, g.tilesY - 1, a - before)) == a;
    }
  }

  lemma ReachNotWritten(g: Plane)
    requires g.Valid()
    ensures g.Reach() >= 0 && !Covered(g, g.Reach())
  {
    NotEmpty(g);
    var last := AddressesEnd(g);
    if g.tilesY > 1 && g.Band() < g.Pitch() {
      forall s | IsSpot(g, s) ensures Address(g, s) != g.Band() {
        ByteInBand(g, s);
        if s.tile / g.tilesX >= 1 {
          TimesMonotone(1, s.tile / g.tilesX, g.Pitch());
        }
      }
    }
  }

  /** Exactly when no byte is left out: the bytes written reach to the end of the plane without a gap. */
  lemma CoversExactlyWhen(g: Plane)
    requires g.Valid()
    ensures Covers(g) <==> g.Size() <= g.Reach()
  {
    if g.Size() <= g.Reach() {
      forall a | 0 <= a < g.Size() ensures Covered(g, a) {
        WrittenUpToReach(g, a);
      }
    } else {
      ReachNotWritten(g);
    }
  }

  lemma PlaneVerdict(g: Plane)
    requires g.Valid()
    ensures Apart(g) <==> g.tilesY == 1 || g.Band() <= g.Pitch()
    ensures Inside(g) <==> g.End() <= g.Size()
    ensures Covers(g) <==> g.Size() <= g.Reach()
  {
    ApartExactlyWhen(g);
    InsideExactlyWhen(g);
    CoversExactlyWhen(g);
  }

  /** Exactly when the tiles fill a plane: a row of them ends where the next begins, the last where the plane ends. */
  lemma FillsIffFits(g: Plane)
    requires g.Valid()
    ensures Fills(g) <==> g.Fits()
  {
    PlaneVerdict(g);
    NotEmpty(g);
    if g.tilesY > 1 {
      TimesMonotone(1, g.tilesY - 1, g.Pitch());
    }
  }

  /** In a regular plane that means that the lines add up to its line, and the heights to its height. */
  lemma RegularFits(g: Plane)
    requires g.Valid() && g.Regular()
    ensures g.Band() <= g.Pitch() <==> g.tilesX * g.interLine <= g.outLine
    ensures g.Fits() <==> g.tilesX * g.interLine == g.outLine && g.tilesY * g.planeHeight == g.outHeight
  {
    var line := g.tilesX * g.interLine;
    SameFactor(g.rows, line, g.outLine);
    EndMeetsSize(g.tilesY, g.planeHeight, line, g.outLine, g.outHeight);
  }

  lemma EndMeetsSize(n: int, h: int, line: int, outLine: int, outHeight: int)
    requires n >= 1 && h >= 1 && outLine >= 1 && (n == 1 ==> h == outHeight)
    ensures (n == 1 || line == outLine) && (n - 1) * (h * outLine) + h * line == outLine * outHeight
      <==> line == outLine && n * h == outHeight
  {
    if line == outLine {
      assert (n - 1) * (h * outLine) + h * outLine == outLine * (n * h);
      SameFactor(outLine, n * h, outHeight);
    } else if n == 1 {
      assert (n - 1) * (h * outLine) == 0;
      SameFactor(h, line, outLine);
    }
  }

  lemma SameFactor(c: int, x: int, y: int)
    requires c >= 1
    ensures c * x == c * y <==> x == y
    ensures c * x <= c * y <==> x <= y
  {
    if x < y {
      TimesMonotone(x + 1, y, c);
    } else if x > y {
      TimesMonotone(y + 1, x, c);
    }
  }

  // ---------- pictures ----------

  /** A picture cut into a grid of tiles. */
  datatype Grid = Grid(width: nat, height: nat, tilesX: nat, tilesY: nat) {
    ghost predicate Valid() {
      1 <= tilesX <= width && 1 <= tilesY <= height
    }

    function TileWidth(): nat
      requires tilesX >= 1
    {
      width / tilesX
    }

    function TileHeight(): nat
      requires tilesY >= 1
    {
      height / tilesY
    }
  }

  /**
   * A plane of a pixel format: bytes per sample, the shifts it is subsampled by, and the vertical shift that the
   * code takes it to be subsampled by.
   */
  datatype Sampling = Sampling(bytes: nat, shiftW: nat, shiftH: nat, takenH: nat)

  /** The plane of the picture, with unpadded lines. */
  function PictureOf(l: Grid, f: Sampling): Plane
    requires l.tilesX >= 1 && l.tilesY >= 1
  {
    CeilShiftNat(l.TileWidth(), f.shiftW);
    CeilShiftNat(l.width, f.shiftW);
    CeilShiftNat(l.TileHeight(), f.shiftH);
    CeilShiftNat(l.TileHeight(), f.takenH);
    CeilShiftNat(l.height, f.shiftH);
    TimesMonotone(0, CeilShift(l.TileWidth(), f.shiftW), f.bytes);
    TimesMonotone(0, CeilShift(l.width, f.shiftW), f.bytes);
    Plane(l.tilesX, l.tilesY, CeilShift(l.TileHeight(), f.takenH), CeilShift(l.TileHeight(), f.shiftH),
          CeilShift(l.TileWidth(), f.shiftW) * f.bytes, CeilShift(l.width, f.shiftW) * f.bytes,
          CeilShift(l.height, f.shiftH))
  }

  /** What rounding each part up adds, less what cutting into whole parts loses, before subsampling. */
  function Slack(n: nat, parts: nat, shift: nat): int
    requires parts >= 1
  {
    parts * (-(n / parts) % Pow2(shift)) - n % parts
  }

  ghost predicate DividesUp(n: nat, parts: nat, shift: nat)
    requires parts >= 1
  {
    0 <= Slack(n, parts, shift) < Pow2(shift)
  }

  lemma CeilShiftNat(n: nat, k: nat)
    ensures CeilShift(n, k) >= 0 && (n >= 1 ==> CeilShift(n, k) >= 1)
  {
    var p, c := Pow2(k), CeilShift(n, k);
    CeilShiftIs(n, k);
    if c <= -1 {
      TimesMonotone(c, -1, p);
    }
  }

  lemma CeilShiftIs(n: int, k: nat)
    ensures CeilShift(n, k) * Pow2(k) == n + (-n) % Pow2(k)
  {
    var p, m := Pow2(k), -n;
    assert m == m / p * p + m % p;
    assert (-(m / p)) * p == -(m / p * p);
  }

  /** Exactly when equal parts, each rounded up, add up to the rounded whole, and when they do not exceed it. */
  lemma PartsAddUp(n: nat, parts: nat, shift: nat)
    requires parts >= 1
    ensures parts * CeilShift(n / parts, shift) == CeilShift(n, shift) <==> DividesUp(n, parts, shift)
    ensures parts * CeilShift(n / parts, shift) <= CeilShift(n, shift) <==> Slack(n, parts, shift) < Pow2(shift)
  {
    CeilShiftIs(n / parts, shift);
    CeilShiftIs(n, shift);
    Quotient(n, parts);
    RoundedParts(n, parts, n / parts, n % parts, CeilShift(n / parts, shift), CeilShift(n, shift), Pow2(shift));
  }

  lemma Quotient(n: int, d: int)
    requires d >= 1
    ensures n == n / d * d + n % d
  {
  }

  lemma RoundedParts(n: int, parts: int, w: int, e: int, c: int, whole: int, p: int)
    requires p >= 1 && n == w * parts + e && c * p == w + (-w) % p && whole * p == n + (-n) % p
    ensures parts * c == whole <==> 0 <= parts * ((-w) % p) - e < p
    ensures parts * c <= whole <==> parts * ((-w) % p) - e < p
  {
    var diff, slack, r, rem := parts * c - whole, parts * ((-w) % p) - e, (-w) % p, (-n) % p;
    Scale(parts, c, p, w, r);
    assert diff * p == (parts * c) * p - whole * p;
    ZeroIffBelow(diff, slack, rem, p);
  }

  lemma Scale(parts: int, c: int, p: int, w: int, r: int)
    requires c * p == w + r
    ensures (parts * c) * p == w * parts + parts * r
  {
    assert (parts * c) * p == parts * (w + r);
  }

  lemma ZeroIffBelow(diff: int, slack: int, rem: int, p: int)
    requires diff * p == slack - rem && 0 <= rem < p
    ensures diff == 0 <==> 0 <= slack < p
    ensures diff <= 0 <==> slack < p
  {
    if diff >= 1 {
      TimesMonotone(1, diff, p);
    } else if diff <= -1 {
      TimesMonotone(diff, -1, p);
    }
  }

  lemma ScaledParts(parts: nat, c: nat, whole: nat, bytes: nat)
    requires bytes >= 1
    ensures parts * (c * bytes) == whole * bytes <==> parts * c == whole
    ensures parts * (c * bytes) <= whole * bytes <==> parts * c <= whole
  {
    assert parts * (c * bytes) == bytes * (parts * c);
    SameFactor(bytes, parts * c, whole);
  }

  lemma PictureLines(l: Grid, f: Sampling)
    requires l.Valid() && f.bytes >= 1
    ensures var g := PictureOf(l, f);
      && (g.tilesX * g.interLine == g.outLine <==> DividesUp(l.width, l.tilesX, f.shiftW))
      && (g.tilesX * g.interLine <= g.outLine <==> Slack(l.width, l.tilesX, f.shiftW) < Pow2(f.shiftW))
  {
    PartsAddUp(l.width, l.tilesX, f.shiftW);
    CeilShiftNat(l.TileWidth(), f.shiftW);
    CeilShiftNat(l.width, f.shiftW);
    ScaledParts(l.tilesX, CeilShift(l.TileWidth(), f.shiftW), CeilShift(l.width, f.shiftW), f.bytes);
  }

  /**
   * For every picture, grid and subsampling: the tiles fill the plane, byte for byte, exactly when both
   * directions divide up.
   */
  lemma TilesFillPicture(l: Grid, f: Sampling)
    requires l.Valid() && f.bytes >= 1 && f.takenH == f.shiftH
    ensures Fills(PictureOf(l, f))
      <==> DividesUp(l.width, l.tilesX, f.shiftW) && DividesUp(l.height, l.tilesY, f.shiftH)
  {
    var g := PictureOf(l, f);
    PictureValid(l, f);
    PictureLines(l, f);
    FillsIffFits(g);
    RegularFits(g);
    PartsAddUp(l.height, l.tilesY, f.shiftH);
  }

  /** Tiles overlap exactly when there are several rows of them and the lines grow too long. */
  lemma TilesApartInPicture(l: Grid, f: Sampling)
    requires l.Valid() && f.bytes >= 1 && f.takenH == f.shiftH
    ensures Apart(PictureOf(l, f)) <==> l.tilesY == 1 || Slack(l.width, l.tilesX, f.shiftW) < Pow2(f.shiftW)
  {
    var g := PictureOf(l, f);
    PictureValid(l, f);
    PictureLines(l, f);
    ApartExactlyWhen(g);
    RegularFits(g);
  }

  /** Nothing is written outside when the end lies within the plane; so when neither direction grows too long. */
  lemma TilesInsidePicture(l: Grid, f: Sampling)
    requires l.Valid() && f.bytes >= 1 && f.takenH == f.shiftH
    ensures Inside(PictureOf(l, f)) <==> PictureOf(l, f).End() <= PictureOf(l, f).Size()
    ensures Slack(l.width, l.tilesX, f.shiftW) < Pow2(f.shiftW) && Slack(l.height, l.tilesY, f.shiftH) < Pow2(f.shiftH)
      ==> Inside(PictureOf(l, f))
  {
    var g := PictureOf(l, f);
    PictureValid(l, f);
    PictureLines(l, f);
    InsideExactlyWhen(g);
    RegularFits(g);
    PartsAddUp(l.height, l.tilesY, f.shiftH);
    if g.Band() <= g.Pitch() && g.tilesY * g.planeHeight <= g.outHeight {
      EndWithin(g);
    }
  }

  lemma EndWithin(g: Plane)
    requires g.Valid() && g.Band() <= g.Pitch() && g.tilesY * g.planeHeight <= g.outHeight
    ensures g.End() <= g.Size()
  {
    assert (g.tilesY - 1) * g.Pitch() + g.Pitch() == (g.tilesY * g.planeHeight) * g.outLine;
    TimesMonotone(g.tilesY * g.planeHeight, g.outHeight, g.outLine);
  }

  lemma FullResolutionInside(n: nat, parts: nat)
    requires parts >= 1
    ensures Slack(n, parts, 0) < Pow2(0)
  {
    assert parts * 0 == 0;
  }

  // Small pictures whose chroma plane fails.

  const CHROMA: Sampling := Sampling(1, 1, 1, 1)

  /** The tiles of this one do not overlap: they write past the plane. */
  lemma WidthSticksOut()
    ensures var g := PictureOf(Grid(6, 4, 2, 1), CHROMA); Apart(g) && Covers(g) && !Inside(g)
  {
    assert Pow2(1) == 2;
    assert PictureOf(Grid(6, 4, 2, 1), CHROMA) == Plane(2, 1, 2, 2, 2, 3, 2);
    PlaneVerdict(Plane(2, 1, 2, 2, 2, 3, 2));
  }

  lemma HeightSticksOut()
    ensures var g := PictureOf(Grid(8, 6, 1, 2), CHROMA); Apart(g) && Covers(g) && !Inside(g)
  {
    assert Pow2(1) == 2;
    assert PictureOf(Grid(8, 6, 1, 2), CHROMA) == Plane(1, 2, 2, 2, 4, 4, 3);
    PlaneVerdict(Plane(1, 2, 2, 2, 4, 4, 3));
  }

  lemma TilesOverlap()
    ensures var g := PictureOf(Grid(6, 8, 2, 2), CHROMA); !Apart(g) && Covers(g) && !Inside(g)
  {
    assert Pow2(1) == 2;
    assert PictureOf(Grid(6, 8, 2, 2), CHROMA) == Plane(2, 2, 2, 2, 2, 3, 4);
    PlaneVerdict(Plane(2, 2, 2, 2, 2, 3, 4));
  }

  lemma TilesLeaveGap()
    ensures var g := PictureOf(Grid(10, 8, 4, 2), CHROMA); Apart(g) && !Covers(g) && Inside(g)
  {
    assert Pow2(1) == 2;
    assert PictureOf(Grid(10, 8, 4, 2), CHROMA) == Plane(4, 2, 2, 2, 1, 5, 4);
    PlaneVerdict(Plane(4, 2, 2, 2, 1, 5, 4));
  }

  // ---------- an alpha plane: full resolution, but taken for a chroma plane ----------

  function Alpha(log2ChromaH: nat): Sampling {
    Sampling(1, 0, 0, log2ChromaH)
  }

  lemma AlphaPlane(l: Grid, k: nat)
    requires l.Valid()
    ensures PictureOf(l, Alpha(k)) == Plane(l.tilesX, l.tilesY, CeilShift(l.TileHeight(), k), l.TileHeight(),
                                            l.TileWidth(), l.width, l.height)
    ensures PictureOf(l, Alpha(k)).Valid()
    ensures l.tilesX * l.TileWidth() <= l.width && l.tilesY * l.TileHeight() <= l.height
  {
    assert Pow2(0) == 1;
    PictureValid(l, Alpha(k));
    WholeParts(l.width, l.tilesX);
    WholeParts(l.height, l.tilesY);
  }

  /** Rounding halves up never makes more, and only of nothing or one as much. */
  lemma CeilShiftAtMost(n: int, k: nat)
    requires n >= 0
    ensures CeilShift(n, k) <= n
    ensures CeilShift(n, k) == n <==> k == 0 || n <= 1
  {
    CeilShiftIs(n, k);
    CeilShiftNat(n, k);
    RoundedPart(n, CeilShift(n, k), Pow2(k), (-n) % Pow2(k));
  }

  lemma RoundedPart(n: int, c: int, p: int, r: int)
    requires n >= 0 && p >= 1 && 0 <= r < p && c * p == n + r && c >= 0 && (n >= 1 ==> c >= 1)
    ensures c <= n
    ensures c == n <==> p == 1 || n <= 1
  {
    assert c * p == c * (p - 1) + c;
    if n == 0 && c >= 1 {
      TimesMonotone(1, c, p);
    }
    if c >= 2 {
      TimesMonotone(2, c, p - 1);
    }
    if c >= 1 {
      TimesMonotone(1, c, p - 1);
    }
  }

  /** Exactly when the tiles of an alpha plane fill it. */
  lemma AlphaFillsExactlyWhen(l: Grid, k: nat)
    requires l.Valid()
    ensures Fills(PictureOf(l, Alpha(k))) <==>
      && l.width % l.tilesX == 0 && l.height % l.tilesY == 0
      && (l.tilesY == 1 || k == 0 || l.TileHeight() == 1)
  {
    var g := PictureOf(l, Alpha(k));
    AlphaPlane(l, k);
    FillsIffFits(g);
    CeilShiftAtMost(l.TileHeight(), k);
    PartNonZero(l.height, l.tilesY);
    WholeParts(l.width, l.tilesX);
    WholeParts(l.height, l.tilesY);
    AlphaFits(g);
  }

  lemma WholeParts(n: nat, parts: nat)
    requires parts >= 1
    ensures parts * (n / parts) <= n
    ensures parts * (n / parts) == n <==> n % parts == 0
  {
    Quotient(n, parts);
  }

  lemma AlphaFits(g: Plane)
    requires g.Valid() && g.planeHeight <= g.rows
    requires g.tilesX * g.interLine <= g.outLine && g.tilesY * g.rows <= g.outHeight
    ensures g.Fits() <==>
      && g.tilesX * g.interLine == g.outLine && g.tilesY * g.rows == g.outHeight
      && (g.tilesY == 1 || g.planeHeight == g.rows)
  {
    var line := g.tilesX * g.interLine;
    TimesMonotone(1, g.tilesX, g.interLine);
    if g.tilesY == 1 {
      assert (g.tilesY - 1) * g.Pitch() == 0;
      assert g.outLine * g.outHeight == g.outHeight * g.outLine;
      EqualProducts(g.rows, line, g.outHeight, g.outLine);
    } else {
      FullPitch(g.tilesY, g.planeHeight, g.rows, line, g.outLine, g.outHeight);
    }
  }

  lemma EqualProducts(a: int, b: int, c: int, d: int)
    requires 1 <= a <= c && 1 <= b <= d
    ensures a * b == c * d <==> a == c && b == d
  {
    TimesMonotone(a, c, b);
    SameFactor(c, b, d);
    if a < c {
      TimesMonotone(a + 1, c, b);
    }
  }

  lemma FullPitch(n: int, h: int, rows: int, line: int, outLine: int, outHeight: int)
    requires n >= 2 && 1 <= h <= rows && 1 <= line <= outLine && n * rows <= outHeight
    ensures rows * line == h * outLine && (n - 1) * (h * outLine) + rows * line == outLine * outHeight
      <==> line == outLine && n * rows == outHeight && h == rows
  {
    if rows * line == h * outLine {
      assert (n - 1) * (h * outLine) + h * outLine == outLine * (n * h);
      SameFactor(outLine, n * h, outHeight);
      SameFactor(n, h, rows);
    }
    if h == rows {
      SameFactor(rows, line, outLine);
    }
  }

  /** Exactly when they do not overlap; where the grid divides the width that takes one row of tiles, or of samples. */
  lemma AlphaApartExactlyWhen(l: Grid, k: nat)
    requires l.Valid()
    ensures Apart(PictureOf(l, Alpha(k))) <==>
      l.tilesY == 1 || l.TileHeight() * (l.tilesX * l.TileWidth()) <= CeilShift(l.TileHeight(), k) * l.width
    ensures l.width % l.tilesX == 0 ==>
      (Apart(PictureOf(l, Alpha(k))) <==> l.tilesY == 1 || k == 0 || l.TileHeight() == 1)
  {
    var g := PictureOf(l, Alpha(k));
    AlphaPlane(l, k);
    ApartExactlyWhen(g);
    CeilShiftAtMost(l.TileHeight(), k);
    PartNonZero(l.height, l.tilesY);
    WholeParts(l.width, l.tilesX);
    SameFactor(l.width, l.TileHeight(), CeilShift(l.TileHeight(), k));
  }

  /** But they never leave the plane. */
  lemma AlphaInside(l: Grid, k: nat)
    requires l.Valid()
    ensures Inside(PictureOf(l, Alpha(k)))
  {
    var g := PictureOf(l, Alpha(k));
    AlphaPlane(l, k);
    InsideExactlyWhen(g);
    CeilShiftAtMost(l.TileHeight(), k);
    LowPitchEnds(g);
  }

  lemma LowPitchEnds(g: Plane)
    requires g.Valid() && g.planeHeight <= g.rows
    requires g.tilesX * g.interLine <= g.outLine && g.tilesY * g.rows <= g.outHeight
    ensures g.End() <= g.Size()
  {
    var full := g.rows * g.outLine;
    TimesMonotone(g.planeHeight, g.rows, g.outLine);
    TimesMonotone(g.Pitch(), full, g.tilesY - 1);
    TimesMonotone(g.tilesX * g.interLine, g.outLine, g.rows);
    assert (g.tilesY - 1) * full + full == (g.tilesY * g.rows) * g.outLine;
    TimesMonotone(g.tilesY * g.rows, g.outHeight, g.outLine);
  }

  /** 8 x 8 pixels in two tiles, one above the other, of a format with 4:2:0 chroma and an alpha plane. */
  lemma AlphaTilesOverlap()
    ensures PlaneHeight(3, 4, 1) == 2
    ensures PictureOf(Grid(8, 8, 1, 2), Alpha(1)) == Plane(1, 2, 2, 4, 8, 8, 8)
    ensures !Apart(PictureOf(Grid(8, 8, 1, 2), Alpha(1)))
  {
    HalfOfFour();
    AlphaPlane(Grid(8, 8, 1, 2), 1);
    ApartExactlyWhen(Plane(1, 2, 2, 4, 8, 8, 8));
  }

  lemma HalfOfFour()
    ensures CeilShift(4, 1) == 2
  {
    assert Pow2(1) == 2;
  }

  lemma PictureValid(l: Grid, f: Sampling)
    requires l.Valid() && f.bytes >= 1
    ensures PictureOf(l, f).Valid()
    ensures f.takenH == f.shiftH ==> PictureOf(l, f).Regular()
  {
    PartNonZero(l.width, l.tilesX);
    PartNonZero(l.height, l.tilesY);
    CeilShiftNat(l.TileWidth(), f.shiftW);
    CeilShiftNat(l.width, f.shiftW);
    CeilShiftNat(l.TileHeight(), f.shiftH);
    CeilShiftNat(l.TileHeight(), f.takenH);
    TimesMonotone(1, CeilShift(l.TileWidth(), f.shiftW), f.bytes);
    TimesMonotone(1, CeilShift(l.width, f.shiftW), f.bytes);
  }

  lemma PartNonZero(n: nat, parts: nat)
    requires 1 <= parts <= n
    ensures 1 <= n / parts <= n
    ensures parts == 1 ==> n / parts == n
  {
    var q := n / parts;
    assert n == q * parts + n % parts;
    if q <= 0 {
      TimesMonotone(q, 0, parts);
    }
    TimesMonotone(1, parts, if q >= 0 then q else 0);
  }

  /** In a plane that is not subsampled that means that the grid divides the picture. */
  lemma FullResolution(width: nat, parts: nat)
    requires parts >= 1
    ensures DividesUp(width, parts, 0) <==> width % parts == 0
  {
    assert Pow2(0) == 1;
    assert -(width / parts) % 1 == 0;
    assert parts * 0 == 0;
  }

  /** In a subsampled one it is enough that the parts are whole samples. */
  lemma EvenParts(width: nat, parts: nat, shift: nat)
    requires parts >= 1 && width % parts == 0 && (width / parts) % Pow2(shift) == 0
    ensures DividesUp(width, parts, shift)
  {
    var w, p := width / parts, Pow2(shift);
    assert w == w / p * p;
    assert -w == (-(w / p)) * p + 0;
    DivMod(-(w / p), 0, p);
    assert parts * 0 == 0;
  }
}
