/**
 * The image writer: the grid as the lines of a plain (P3) netpbm file. The
 * header is `P3`, `x_res y_res` and `255`; then one `v v v` line per pixel,
 * file row by file row, with the grid's second index flipped so that y = 0
 * is written last.
 */
module Ppm {
  import opened Raster

  predicate IsDigit(c: char) {
    '0' <= c <= '9'
  }

  predicate AllDigits(s: string) {
    forall i :: 0 <= i < |s| ==> IsDigit(s[i])
  }

  function DigitChar(d: nat): (c: char)
    requires d < 10
    ensures IsDigit(c) && c as int - '0' as int == d
  {
    ('0' as int + d) as char
  }

  /** Decimal text of a counter, as the stream insertion writes it. */
  function NatToString(n: nat): (s: string)
    ensures |s| >= 1 && AllDigits(s)
  {
    if n < 10 then [DigitChar(n)] else NatToString(n / 10) + [DigitChar(n % 10)]
  }

  /** The text is in canonical form: a positive value has no leading zero. */
  lemma {:induction false} NatToStringNoLeadingZero(n: nat)
    requires n > 0
    ensures NatToString(n)[0] != '0'
  {
    if n >= 10 {
      NatToStringNoLeadingZero(n / 10);
      assert NatToString(n)[0] == NatToString(n / 10)[0];
    }
  }

  /** Reads decimal text back. */
  function ParseNat(s: string): nat
    requires AllDigits(s)
  {
    if s == [] then 0 else ParseNat(s[..|s| - 1]) * 10 + (s[|s| - 1] as int - '0' as int)
  }

  /** The decimal text of a value reads back as that value. */
  lemma {:induction false} ParseNatToString(n: nat)
    ensures ParseNat(NatToString(n)) == n
  {
    if n >= 10 {
      var s := NatToString(n);
      assert s[..|s| - 1] == NatToString(n / 10);
      ParseNatToString(n / 10);
    }
  }

  /** Distinct values are written as distinct text. */
  lemma NatToStringInjective(a: nat, b: nat)
    requires NatToString(a) == NatToString(b)
    ensures a == b
  {
    ParseNatToString(a);
    ParseNatToString(b);
  }

  /** One grey pixel: the value three times, for red, green and blue. */
  function GreyLine(v: nat): string {
    NatToString(v) + " " + NatToString(v) + " " + NatToString(v)
  }

  /** The three header lines. */
  function Header(xRes: nat, yRes: nat): seq<string> {
    ["P3", NatToString(xRes) + " " + NatToString(yRes), "255"]
  }

  /** File row i: the pixels of grid column yRes - 1 - i, for x = 0 .. xRes - 1. */
  function RowLines(g: Grid, xRes: nat, yRes: nat, i: nat): (r: seq<string>)
    requires IsGrid(g, xRes, yRes) && Bytes(g) && i < yRes
    ensures |r| == xRes
    ensures forall j :: 0 <= j < xRes ==> r[j] == GreyLine(g[j][yRes - 1 - i])
  {
    seq(xRes, j requires 0 <= j < xRes => GreyLine(g[j][yRes - 1 - i]))
  }

  /** The first n file rows. */
  function Rows(g: Grid, xRes: nat, yRes: nat, n: nat): (r: seq<string>)
    requires IsGrid(g, xRes, yRes) && Bytes(g) && n <= yRes
    ensures |r| == n * xRes
  {
    if n == 0 then [] else Rows(g, xRes, yRes, n - 1) + RowLines(g, xRes, yRes, n - 1)
  }

  /** Writing file row i after the first i rows gives the first i + 1 rows. */
  lemma AppendRow(h: seq<string>, g: Grid, xRes: nat, yRes: nat, i: nat)
    requires IsGrid(g, xRes, yRes) && Bytes(g) && i < yRes
    ensures h + Rows(g, xRes, yRes, i) + RowLines(g, xRes, yRes, i) == h + Rows(g, xRes, yRes, i + 1)
  {
  }

  /** The whole file, line by line. */
  function PpmLines(g: Grid, xRes: nat, yRes: nat): seq<string>
    requires IsGrid(g, xRes, yRes) && Bytes(g)
  {
    Header(xRes, yRes) + Rows(g, xRes, yRes, yRes)
  }

  /** Line i * xRes + j of the first n rows is the pixel of cell (j, yRes - 1 - i). */
  lemma {:induction false} RowsAt(g: Grid, xRes: nat, yRes: nat, n: nat, i: nat, j: nat)
    requires IsGrid(g, xRes, yRes) && Bytes(g) && n <= yRes
    requires i < n && j < xRes
    ensures i * xRes + j < |Rows(g, xRes, yRes, n)|
    ensures Rows(g, xRes, yRes, n)[i * xRes + j] == GreyLine(g[j][yRes - 1 - i])
  {
    var prev := Rows(g, xRes, yRes, n - 1);
    assert |prev| == (n - 1) * xRes;
    if i == n - 1 {
      assert Rows(g, xRes, yRes, n)[i * xRes + j] == RowLines(g, xRes, yRes, n - 1)[j];
    } else {
      RowsAt(g, xRes, yRes, n - 1, i, j);
      assert i * xRes + j < |prev|;
    }
  }

  /** Past the header, the file is the pixel rows. */
  lemma PixelLine(g: Grid, xRes: nat, yRes: nat, k: nat)
    requires IsGrid(g, xRes, yRes) && Bytes(g)
    requires k < |Rows(g, xRes, yRes, yRes)|
    ensures |PpmLines(g, xRes, yRes)| == 3 + |Rows(g, xRes, yRes, yRes)|
    ensures PpmLines(g, xRes, yRes)[3 + k] == Rows(g, xRes, yRes, yRes)[k]
  {
  }

  /** The position of file row i, column j among the pixel lines. */
  function PixelIndex(i: nat, j: nat, xRes: nat): nat {
    i * xRes + j
  }

  /** The line number, in the file, of file row i, column j: past the three header lines. */
  function LineIndex(i: nat, j: nat, xRes: nat): nat {
    3 + PixelIndex(i, j, xRes)
  }

  /**
   * The file layout: the three header lines, then exactly xRes * yRes pixel
   * lines; file row i, column j shows grid cell (j, yRes - 1 - i).
   */
  lemma PpmLayout(g: Grid, xRes: nat, yRes: nat)
    requires IsGrid(g, xRes, yRes) && Bytes(g)
    ensures |PpmLines(g, xRes, yRes)| == 3 + xRes * yRes
    ensures PpmLines(g, xRes, yRes)[..3] == ["P3", NatToString(xRes) + " " + NatToString(yRes), "255"]
    ensures forall i, j :: 0 <= i < yRes && 0 <= j < xRes ==>
      LineIndex(i, j, xRes) < |PpmLines(g, xRes, yRes)| &&
      PpmLines(g, xRes, yRes)[LineIndex(i, j, xRes)] == GreyLine(g[j][yRes - 1 - i])
  {
    var lines := PpmLines(g, xRes, yRes);
    var rows := Rows(g, xRes, yRes, yRes);
    assert |rows| == yRes * xRes == xRes * yRes;
    assert lines == Header(xRes, yRes) + rows;
    forall i, j | 0 <= i < yRes && 0 <= j < xRes
      ensures LineIndex(i, j, xRes) < |lines|
      ensures lines[LineIndex(i, j, xRes)] == GreyLine(g[j][yRes - 1 - i])
    {
      RowsAt(g, xRes, yRes, yRes, i, j);
      PixelLine(g, xRes, yRes, PixelIndex(i, j, xRes));
    }
  }

  /** Every grid cell (x, y) is written exactly where the flip puts it: file row yRes - 1 - y, column x. */
  lemma PpmCoversGrid(g: Grid, xRes: nat, yRes: nat, x: nat, y: nat)
    requires IsGrid(g, xRes, yRes) && Bytes(g)
    requires x < xRes && y < yRes
    ensures LineIndex(yRes - 1 - y, x, xRes) < |PpmLines(g, xRes, yRes)|
    ensures PpmLines(g, xRes, yRes)[LineIndex(yRes - 1 - y, x, xRes)] == GreyLine(g[x][y])
  {
    var i := yRes - 1 - y;
    RowsAt(g, xRes, yRes, yRes, i, x);
    PixelLine(g, xRes, yRes, PixelIndex(i, x, xRes));
  }

  /** The counters of a two-dimensional array, as a grid. */
  ghost function GridOf(img: array2<int>): (g: Grid)
    reads img
    ensures IsGrid(g, img.Length0, img.Length1)
    ensures forall i, j :: 0 <= i < img.Length0 && 0 <= j < img.Length1 ==> g[i][j] == img[i, j]
  {
    seq(img.Length0, i requires 0 <= i < img.Length0 reads img =>
      seq(img.Length1, j requires 0 <= j < img.Length1 reads img => img[i, j]))
  }

  /** An array that holds the counters of grid g, read as a grid, is g. */
  lemma GridOfEquals(img: array2<int>, g: Grid)
    requires IsGrid(g, img.Length0, img.Length1)
    requires forall i, j :: 0 <= i < img.Length0 && 0 <= j < img.Length1 ==> img[i, j] == g[i][j]
    ensures GridOf(img) == g
  {
    forall i | 0 <= i < img.Length0
      ensures GridOf(img)[i] == g[i]
    {
      assert forall j :: 0 <= j < img.Length1 ==> GridOf(img)[i][j] == g[i][j];
    }
  }

  /**
   * The writer's nested loop, reading cell (j, yRes - 1 - i) for file row i
   * and column j, after the header.
   */
  method WritePpm(img: array2<int>, xRes: nat, yRes: nat) returns (lines: seq<string>)
    requires img.Length0 == xRes && img.Length1 == yRes
    requires forall i, j :: 0 <= i < xRes && 0 <= j < yRes ==> 0 <= img[i, j] <= 255
    ensures Bytes(GridOf(img))
    ensures lines == PpmLines(GridOf(img), xRes, yRes)
  {
    ghost var g := GridOf(img);
    lines := ["P3", NatToString(xRes) + " " + NatToString(yRes), "255"];
    for i := 0 to yRes
      invariant lines == Header(xRes, yRes) + Rows(g, xRes, yRes, i)
    {
      ghost var row := RowLines(g, xRes, yRes, i);
      for j := 0 to xRes
        invariant lines == Header(xRes, yRes) + Rows(g, xRes, yRes, i) + row[..j]
      {
        var v := img[j, yRes - 1 - i];
        lines := lines + [GreyLine(v)];
        assert row[..j + 1] == row[..j] + [row[j]];
      }
      assert row[..xRes] == row;
      AppendRow(Header(xRes, yRes), g, xRes, yRes, i);
    }
  }

  // The writer as the source has it: the outer loop runs i over x_res, the
  // inner j over y_res, and the pixel read is img_vec[j][y_res - i].

  /** The cell the source's writer reads at outer step i, inner step j. */
  function AsWrittenRead(i: int, j: int, yRes: int): Cell
  {
    Cell(j, yRes - i)
  }

  /** Every read of the source's loops lies inside the xRes by yRes grid. */
  ghost predicate AsWrittenInRange(xRes: nat, yRes: nat) {
    forall i, j :: 0 <= i < xRes && 0 <= j < yRes ==> InGrid(AsWrittenRead(i, j, yRes), xRes, yRes)
  }

  /**
   * On any non-empty grid the very first read, at i = 0, is of second index
   * y_res, one past the end; and no read of a square grid is of index 0.
   */
  lemma AsWrittenReadsPastEnd(xRes: nat, yRes: nat)
    requires xRes > 0 && yRes > 0
    ensures AsWrittenRead(0, 0, yRes) == Cell(0, yRes)
    ensures !InGrid(AsWrittenRead(0, 0, yRes), xRes, yRes)
    ensures !AsWrittenInRange(xRes, yRes)
    ensures xRes == yRes ==>
      forall i, j :: 0 <= i < xRes && 0 <= j < yRes ==> AsWrittenRead(i, j, yRes).y != 0
  {
  }

  /**
   * With the flip corrected to y_res - 1 - i but the source's loop bounds
   * kept (i over x_res, j over y_res), every read is inside the grid exactly
   * when the grid is square.
   */
  ghost predicate SwappedBoundsInRange(xRes: nat, yRes: nat) {
    forall i, j :: 0 <= i < xRes && 0 <= j < yRes ==> InGrid(FlippedRead(i, j, yRes), xRes, yRes)
  }

  /** The read with the flip corrected: cell (j, yRes - 1 - i). */
  function FlippedRead(i: int, j: int, yRes: int): Cell {
    Cell(j, yRes - 1 - i)
  }

  lemma SwappedBoundsInRangeIffSquare(xRes: nat, yRes: nat)
    requires xRes > 0 && yRes > 0
    ensures SwappedBoundsInRange(xRes, yRes) <==> xRes == yRes
  {
    if xRes < yRes {
      assert !InGrid(FlippedRead(0, xRes, yRes), xRes, yRes);
    } else if yRes < xRes {
      assert !InGrid(FlippedRead(yRes, 0, yRes), xRes, yRes);
    }
  }
}
