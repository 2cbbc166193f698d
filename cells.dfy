/**
  The cell grid of the double-buffering renderer: styles, cells and the
  virtual buffer a frame is composed in.

  A cell is either the content of one character (the character, its display
  width and its style) or the placeholder that fills the second column of a
  wide character.
 */
module Cells {
  import opened Optional

  type Byte = x: int | 0 <= x < 256

  /** crossterm's `Color`. */
  datatype Color =
    | Reset
    | Black | DarkGrey | Red | DarkRed | Green | DarkGreen | Yellow | DarkYellow
    | Blue | DarkBlue | Magenta | DarkMagenta | Cyan | DarkCyan | White | Grey
    | Rgb(r: Byte, g: Byte, b: Byte)
    | AnsiValue(v: Byte)

  /** crossterm's text attributes; a style carries a set of them. */
  datatype Attribute =
    | Bold | Dim | Italic | Underlined | SlowBlink | RapidBlink | Reverse | Hidden | CrossedOut

  /** crossterm's `ContentStyle`: `None` colours mean "the terminal's default". */
  datatype ContentStyle = ContentStyle(fg: Option<Color>, bg: Option<Color>, attributes: set<Attribute>)

  /** `ContentStyle::default()`. */
  const DefaultStyle := ContentStyle(None, None, {})

  datatype CellContent = CellContent(c: char, width: nat, style: ContentStyle)

  datatype Cell = Content(content: CellContent) | WideExtension

  /**
    The number of terminal columns a character occupies. Characters of the
    East Asian wide and fullwidth blocks take two columns, all others one.
   */
  function CharWidth(c: char): (w: nat)
    ensures 1 <= w <= 2
  {
    var u := c as int;
    if    (0x1100 <= u <= 0x115F) || (0x2E80 <= u <= 0x303E) || (0x3041 <= u <= 0x33FF)
       || (0x3400 <= u <= 0x4DBF) || (0x4E00 <= u <= 0x9FFF) || (0xA000 <= u <= 0xA4CF)
       || (0xAC00 <= u <= 0xD7A3) || (0xF900 <= u <= 0xFAFF) || (0xFE30 <= u <= 0xFE4F)
       || (0xFF00 <= u <= 0xFF60) || (0xFFE0 <= u <= 0xFFE6) || (0x1F300 <= u <= 0x1F64F)
       || (0x1F900 <= u <= 0x1F9FF) || (0x20000 <= u <= 0x3FFFD)
    then 2
    else 1
  }

  /** `CellContent::new`: the character with its display width. */
  function MakeContent(c: char, style: ContentStyle): CellContent
  {
    CellContent(c, CharWidth(c), style)
  }

  /** `Cell::new(' ', ContentStyle::default())`: the blank cell. */
  const Blank := Content(CellContent(' ', 1, DefaultStyle))

  /** `Vec::resize`: truncate to `n` elements, or pad with `fill` up to `n`. */
  function Resized<T>(v: seq<T>, n: nat, fill: T): (r: seq<T>)
    ensures |r| == n
    ensures forall i :: 0 <= i < n ==> r[i] == if i < |v| then v[i] else fill
  {
    if n <= |v| then v[..n] else v + seq(n - |v|, _ => fill)
  }

  /**
    The grid after `VirtualBuffer::resize`: the list of rows is resized to
    `h` (new rows start empty), then every row is resized to `w` cells,
    padding with blanks.
   */
  function ResizedGrid(cells: seq<seq<Cell>>, w: nat, h: nat): seq<seq<Cell>> {
    seq(h, y requires 0 <= y < h => Resized(if y < |cells| then cells[y] else [], w, Blank))
  }

  /** A resized grid has the new dimensions; a cell inside both geometries keeps its value, every other cell is blank. */
  lemma ResizedGridCells(cells: seq<seq<Cell>>, w: nat, h: nat)
    ensures |ResizedGrid(cells, w, h)| == h
    ensures forall y :: 0 <= y < h ==> |ResizedGrid(cells, w, h)[y]| == w
    ensures forall y, x :: 0 <= y < h && 0 <= x < w ==>
      ResizedGrid(cells, w, h)[y][x] == if y < |cells| && x < |cells[y]| then cells[y][x] else Blank
  {
    forall y | 0 <= y < h
      ensures |ResizedGrid(cells, w, h)[y]| == w
    {
      assert ResizedGrid(cells, w, h)[y] == Resized(if y < |cells| then cells[y] else [], w, Blank);
    }
    forall y, x | 0 <= y < h && 0 <= x < w
      ensures ResizedGrid(cells, w, h)[y][x] == if y < |cells| && x < |cells[y]| then cells[y][x] else Blank
    {
      var row := if y < |cells| then cells[y] else [];
      assert ResizedGrid(cells, w, h)[y] == Resized(row, w, Blank);
    }
  }

  /** Resizing a grid to the dimensions it already has changes nothing. */
  lemma ResizedGridOfSameShape(cells: seq<seq<Cell>>, w: nat, h: nat)
    requires |cells| == h && forall y :: 0 <= y < h ==> |cells[y]| == w
    ensures ResizedGrid(cells, w, h) == cells
  {
    ResizedGridCells(cells, w, h);
    forall y | 0 <= y < h
      ensures ResizedGrid(cells, w, h)[y] == cells[y]
    {
    }
  }

  /** The row after writing the content `cc` at column `x`. */
  function WriteGlyph(row: seq<Cell>, x: nat, cc: CellContent): (r: seq<Cell>)
    requires 1 <= cc.width && x + cc.width <= |row|
    ensures |r| == |row|
  {
    row[..x] + [Content(cc)] + seq(cc.width - 1, _ => WideExtension) + row[x + cc.width..]
  }

  /**
    Writing puts the content at `x`, placeholders in the `width - 1` columns
    after it, and leaves every other column as it was.
   */
  lemma WriteGlyphCells(row: seq<Cell>, x: nat, cc: CellContent)
    requires 1 <= cc.width && x + cc.width <= |row|
    ensures forall j :: 0 <= j < |row| ==>
      WriteGlyph(row, x, cc)[j] == if j == x then Content(cc) else if x < j < x + cc.width then WideExtension else row[j]
  {
  }

  // ---------------------------------------------------------------------
  // Well-formed rows: every placeholder belongs to the wide character before it
  // ---------------------------------------------------------------------

  /**
    Every content cell has its character's own width and fits in the row, a
    wide content cell is followed by its placeholder, and every placeholder
    follows a wide content cell.
   */
  predicate WellFormedRow(row: seq<Cell>) {
    forall j :: 0 <= j < |row| ==> GlyphStartOk(row, j) && PlaceholderOk(row, j)
  }

  /** A content cell records its character's width, fits in the row, and a wide one is followed by a placeholder. */
  predicate GlyphStartOk(row: seq<Cell>, j: nat)
    requires j < |row|
  {
    row[j].Content? ==>
      && row[j].content.width == CharWidth(row[j].content.c)
      && j + row[j].content.width <= |row|
      && (row[j].content.width == 2 ==> row[j + 1] == WideExtension)
  }

  /** A placeholder directly follows a wide content cell. */
  predicate PlaceholderOk(row: seq<Cell>, j: nat)
    requires j < |row|
  {
    row[j] == WideExtension ==> 0 < j && row[j - 1].Content? && row[j - 1].content.width == 2
  }

  /**
    Writing a character keeps a row well-formed when the columns it takes do
    not cut a wide character in two: it does not start on a placeholder, and
    the column just after it is not a placeholder either.
   */
  lemma WriteGlyphKeepsWellFormed(row: seq<Cell>, x: nat, c: char, style: ContentStyle)
    requires WellFormedRow(row)
    requires x + CharWidth(c) <= |row|
    requires row[x] != WideExtension
    requires x + CharWidth(c) < |row| ==> row[x + CharWidth(c)] != WideExtension
    ensures WellFormedRow(WriteGlyph(row, x, MakeContent(c, style)))
  {
    var cc := MakeContent(c, style);
    var r := WriteGlyph(row, x, cc);
    WriteGlyphCells(row, x, cc);
    forall j | 0 <= j < |r|
      ensures GlyphStartOk(r, j) && PlaceholderOk(r, j)
    {
      if !(x <= j < x + cc.width) {
        assert GlyphStartOk(row, j) && PlaceholderOk(row, j);
      }
    }
  }

  /**
    Writing a narrow character over the first column of a wide one leaves
    the wide character's placeholder behind, orphaned.
   */
  lemma NarrowOverWideOrphansPlaceholder()
    ensures var row := [Content(MakeContent('中', DefaultStyle)), WideExtension];
      && WellFormedRow(row)
      && !WellFormedRow(WriteGlyph(row, 0, MakeContent('a', DefaultStyle)))
  {
    var row := [Content(MakeContent('中', DefaultStyle)), WideExtension];
    var r := WriteGlyph(row, 0, MakeContent('a', DefaultStyle));
    WriteGlyphCells(row, 0, MakeContent('a', DefaultStyle));
    assert GlyphStartOk(row, 0) && PlaceholderOk(row, 0);
    assert GlyphStartOk(row, 1) && PlaceholderOk(row, 1);
    assert !PlaceholderOk(r, 1);
  }

  // ---------------------------------------------------------------------
  // Drawing a string into one row
  // ---------------------------------------------------------------------

  /**
    The columns a string takes when drawn from column `x` into a row of
    `width` columns: characters are placed one after the other until the
    first one that does not fit.
   */
  function DrawnWidth(x: nat, s: string, width: nat): nat
    decreases |s|
  {
    if s == [] || x + CharWidth(s[0]) > width then 0
    else CharWidth(s[0]) + DrawnWidth(x + CharWidth(s[0]), s[1..], width)
  }

  /** The row after drawing `s` from column `x`, up to the first character that does not fit. */
  function DrawRow(row: seq<Cell>, x: nat, s: string, style: ContentStyle): (r: seq<Cell>)
    ensures |r| == |row|
    decreases |s|
  {
    if s == [] || x + CharWidth(s[0]) > |row| then row
    else DrawRow(WriteGlyph(row, x, MakeContent(s[0], style)), x + CharWidth(s[0]), s[1..], style)
  }

  /** The total width of a string's characters. */
  function WidthSum(s: string): nat
    decreases |s|
  {
    if s == [] then 0 else WidthSum(s[..|s| - 1]) + CharWidth(s[|s| - 1])
  }

  /** How many leading characters of `s` fit from column `x` in a row of `width` columns. */
  function FittingCount(x: nat, s: string, width: nat): (n: nat)
    ensures n <= |s|
    decreases |s|
  {
    if s == [] || x + CharWidth(s[0]) > width then 0
    else 1 + FittingCount(x + CharWidth(s[0]), s[1..], width)
  }

  lemma {:induction false} WidthSumCons(c: char, s: string)
    ensures WidthSum([c] + s) == CharWidth(c) + WidthSum(s)
    decreases |s|
  {
    if s != [] {
      var t := [c] + s;
      assert t[..|t| - 1] == [c] + s[..|s| - 1];
      WidthSumCons(c, s[..|s| - 1]);
    }
  }

  /**
    Drawing places the leading characters that fit, one after the other, and
    takes exactly their widths, which never reach past the right edge.
   */
  lemma {:induction false} DrawnWidthIsFittingPrefix(x: nat, s: string, width: nat)
    ensures var n := FittingCount(x, s, width);
      && DrawnWidth(x, s, width) == WidthSum(s[..n])
      && (n > 0 ==> x + WidthSum(s[..n]) <= width)
    decreases |s|
  {
    if s != [] && x + CharWidth(s[0]) <= width {
      var w := CharWidth(s[0]);
      DrawnWidthIsFittingPrefix(x + w, s[1..], width);
      var m := FittingCount(x + w, s[1..], width);
      assert FittingCount(x, s, width) == m + 1;
      assert WidthSum(s[..m + 1]) == w + WidthSum(s[1..][..m]) by {
        assert s[..m + 1] == [s[0]] + s[1..][..m];
        WidthSumCons(s[0], s[1..][..m]);
      }
    } else if s != [] {
      assert s[..0] == [];
    }
  }

  /** Drawing stops only at a character that would cross the right edge: the fitting prefix is the longest. */
  lemma {:induction false} FittingPrefixIsLongest(x: nat, s: string, width: nat)
    ensures var n := FittingCount(x, s, width);
      n < |s| ==> x + WidthSum(s[..n + 1]) > width
    decreases |s|
  {
    if s != [] && x + CharWidth(s[0]) <= width {
      var w := CharWidth(s[0]);
      FittingPrefixIsLongest(x + w, s[1..], width);
      var m := FittingCount(x + w, s[1..], width);
      assert FittingCount(x, s, width) == m + 1;
      if m + 1 < |s| {
        assert WidthSum(s[..m + 2]) == w + WidthSum(s[1..][..m + 1]) by {
          assert s[..m + 2] == [s[0]] + s[1..][..m + 1];
          WidthSumCons(s[0], s[1..][..m + 1]);
        }
      }
    } else if s != [] {
      assert s[..1] == [s[0]];
      assert WidthSum(s[..1]) == WidthSum([]) + CharWidth(s[0]);
    }
  }

  /**
    Drawing changes only the columns from `x` up to `x` plus the width it
    returns, and that range ends inside the row.
   */
  lemma {:induction false} DrawRowFrame(row: seq<Cell>, x: nat, s: string, style: ContentStyle)
    ensures DrawnWidth(x, s, |row|) > 0 ==> x + DrawnWidth(x, s, |row|) <= |row|
    ensures forall j :: 0 <= j < |row| && (j < x || j >= x + DrawnWidth(x, s, |row|)) ==>
      DrawRow(row, x, s, style)[j] == row[j]
    decreases |s|
  {
    if s != [] && x + CharWidth(s[0]) <= |row| {
      var w := CharWidth(s[0]);
      var row' := WriteGlyph(row, x, MakeContent(s[0], style));
      WriteGlyphCells(row, x, MakeContent(s[0], style));
      var d := DrawnWidth(x + w, s[1..], |row|);
      DrawRowFrame(row', x + w, s[1..], style);
      assert DrawRow(row, x, s, style) == DrawRow(row', x + w, s[1..], style);
      assert DrawnWidth(x, s, |row|) == w + d;
      forall j | 0 <= j < |row| && (j < x || j >= x + w + d)
        ensures DrawRow(row, x, s, style)[j] == row[j]
      {
        assert row'[j] == row[j];
      }
    }
  }

  // ---------------------------------------------------------------------
  // The virtual buffer
  // ---------------------------------------------------------------------

  class VirtualBuffer {
    var cells: seq<seq<Cell>>
    var cursor: Option<(nat, nat)>
    var width: nat
    var height: nat

    /** The grid has `height` rows of `width` cells each. */
    predicate Valid()
      reads this
    {
      |cells| == height && forall y :: 0 <= y < |cells| ==> |cells[y]| == width
    }

    /** `VirtualBuffer::new`: records the dimensions over a single blank cell. */
    constructor (w: nat, h: nat)
      ensures width == w && height == h && cursor == None
      ensures cells == [[Blank]]
      ensures Valid() <==> w == 1 && h == 1
    {
      width, height := w, h;
      cells := [[Blank]];
      cursor := None;
      new;
      assert |cells| == 1 && |cells[0]| == 1;
    }

    /**
      A no-op when the dimensions are unchanged; otherwise the grid gets exactly
      `h` rows of `w` cells, cells inside both the old and the new geometry keep
      their values and the others are blank.
     */
    method Resize(w: nat, h: nat)
      modifies this
      ensures cursor == old(cursor) && width == w && height == h
      ensures old(width) == w && old(height) == h ==> cells == old(cells)
      ensures old(Valid()) ==> Valid() && cells == ResizedGrid(old(cells), w, h)
      ensures (old(width) != w || old(height) != h) ==>
        && |cells| == h
        && (forall y :: 0 <= y < h ==> |cells[y]| == w)
        && (forall y, x :: 0 <= y < h && 0 <= x < w ==>
              cells[y][x] == if y < |old(cells)| && x < |old(cells)[y]| then old(cells)[y][x] else Blank)
    {
      if width == w && height == h {
        if Valid() {
          ResizedGridOfSameShape(cells, w, h);
        }
        return;
      }
      var rows := Resized(cells, h, []);
      cells := rows;
      for i := 0 to h
        invariant |cells| == h && cursor == old(cursor) && width == old(width) && height == old(height)
        invariant forall y :: 0 <= y < i ==> cells[y] == Resized(rows[y], w, Blank)
        invariant forall y :: i <= y < h ==> cells[y] == rows[y]
      {
        cells := cells[i := Resized(cells[i], w, Blank)];
      }
      ResizedGridCells(old(cells), w, h);
      width, height := w, h;
    }

    /** Every cell becomes blank with the default style, and the cursor is cleared. */
    method Clear()
      requires Valid()
      modifies this
      ensures Valid() && width == old(width) && height == old(height)
      ensures cursor == None
      ensures forall y, x :: 0 <= y < height && 0 <= x < width ==> cells[y][x] == Blank
    {
      cursor := None;
      for y := 0 to height
        invariant Valid() && width == old(width) && height == old(height) && cursor == None
        invariant forall i, x :: 0 <= i < y && 0 <= x < width ==> cells[i][x] == Blank
      {
        for x := 0 to width
          invariant Valid() && width == old(width) && height == old(height) && cursor == None
          invariant forall i, j :: 0 <= i < y && 0 <= j < width ==> cells[i][j] == Blank
          invariant forall j :: 0 <= j < x ==> cells[y][j] == Blank
        {
          cells := cells[y := cells[y][x := Blank]];
        }
      }
    }

    /**
      Writes character `c` at column `x` of row `y` when all its columns fit
      and the row exists, and returns its width; otherwise changes nothing.
     */
    method Putchar(x: nat, y: nat, c: char, style: ContentStyle) returns (r: Option<nat>)
      requires Valid()
      modifies this
      ensures Valid() && width == old(width) && height == old(height) && cursor == old(cursor)
      ensures r == if x + CharWidth(c) > width || y >= height then None else Some(CharWidth(c))
      ensures r.None? ==> cells == old(cells)
      ensures r.Some? ==> cells == old(cells)[y := WriteGlyph(old(cells)[y], x, MakeContent(c, style))]
    {
      var cc := MakeContent(c, style);
      if cc.width + x > width {
        return None;
      }
      if y >= |cells| {
        return None;
      }
      var w := cc.width;
      cells := cells[y := cells[y][x := Content(cc)]];
      for j := x + 1 to x + w
        invariant width == old(width) && height == old(height) && cursor == old(cursor)
        invariant |cells| == |old(cells)| && |cells[y]| == width && |old(cells)[y]| == width
        invariant forall i :: 0 <= i < |cells| && i != y ==> cells[i] == old(cells)[i]
        invariant forall k :: 0 <= k < width ==>
          cells[y][k] == if k == x then Content(cc) else if x < k < j then WideExtension else old(cells)[y][k]
      {
        cells := cells[y := cells[y][j := WideExtension]];
      }
      assert cells[y] == WriteGlyph(old(cells)[y], x, cc);
      r := Some(w);
    }
  }
}
