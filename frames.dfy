/**
  The diff-and-flush algorithm of the renderer, stated over an abstract
  stream of terminal commands, with a small model of what a terminal does
  with those commands.

  A frame repaints every row of `next` that differs from the same row of
  `prev` (every row when a full refresh is pending): it moves to the start
  of the row and prints each content cell, switching the active style
  first when the cell's style differs, and only for the components that
  differ. The active style starts at the default and is carried from row
  to row. Finally the cursor is placed and shown, or hidden.
 */
module Frames {
  import opened Optional
  import opened Cells

  /** The terminal commands the renderer queues. */
  datatype Command =
    | MoveTo(col: nat, row: nat)
    | SetBg(color: Color)
    | SetFg(color: Color)
    | SetAttrs(attributes: set<Attribute>)
    | Print(c: char)
    | Show
    | Hide

  /** The commands switching the active style `cur` to `want`: one per component that differs. */
  function StyleChange(cur: ContentStyle, want: ContentStyle): seq<Command> {
    (if cur.bg != want.bg then [SetBg(want.bg.GetOr(Reset))] else [])
    + (if cur.fg != want.fg then [SetFg(want.fg.GetOr(Reset))] else [])
    + (if cur.attributes != want.attributes then [SetAttrs(want.attributes)] else [])
  }

  /** The commands for one cell under the active style `cur`; a placeholder prints nothing. */
  function CellCommands(cell: Cell, cur: ContentStyle): seq<Command> {
    match cell
    case Content(cc) => (if cur != cc.style then StyleChange(cur, cc.style) else []) + [Print(cc.c)]
    case WideExtension => []
  }

  /** The active style after a cell: a content cell's own style. */
  function StyleAfterCell(cell: Cell, cur: ContentStyle): ContentStyle {
    match cell
    case Content(cc) => cc.style
    case WideExtension => cur
  }

  /** The commands that repaint a row, from the active style `cur`. */
  function RowCommands(row: seq<Cell>, cur: ContentStyle): seq<Command>
    decreases |row|
  {
    if row == [] then []
    else
      var init := row[..|row| - 1];
      RowCommands(init, cur) + CellCommands(row[|row| - 1], RowStyle(init, cur))
  }

  /** The active style after repainting a row from `cur`. */
  function RowStyle(row: seq<Cell>, cur: ContentStyle): ContentStyle
    decreases |row|
  {
    if row == [] then cur else StyleAfterCell(row[|row| - 1], RowStyle(row[..|row| - 1], cur))
  }

  /** Row `y` is repainted: a full refresh is pending or it differs from the last frame. */
  predicate Repaints(next: seq<seq<Cell>>, prev: seq<seq<Cell>>, full: bool, y: nat)
    requires y < |next| <= |prev|
  {
    full || next[y] != prev[y]
  }

  /** The commands for the first `n` rows of a frame whose region starts at row `top`. */
  function FrameBody(next: seq<seq<Cell>>, prev: seq<seq<Cell>>, full: bool, top: nat, n: nat): seq<Command>
    requires n <= |next| <= |prev|
    decreases n
  {
    if n == 0 then []
    else
      FrameBody(next, prev, full, top, n - 1)
      + if Repaints(next, prev, full, n - 1)
        then [MoveTo(0, top + n - 1)] + RowCommands(next[n - 1], FrameStyle(next, prev, full, n - 1))
        else []
  }

  /** The active style after the first `n` rows; it starts as the default style. */
  function FrameStyle(next: seq<seq<Cell>>, prev: seq<seq<Cell>>, full: bool, n: nat): ContentStyle
    requires n <= |next| <= |prev|
    decreases n
  {
    if n == 0 then DefaultStyle
    else if Repaints(next, prev, full, n - 1) then RowStyle(next[n - 1], FrameStyle(next, prev, full, n - 1))
    else FrameStyle(next, prev, full, n - 1)
  }

  /** Placing the cursor (relative to the region's top row) and showing it, or hiding it. */
  function CursorCommands(cursor: Option<(nat, nat)>, top: nat): seq<Command> {
    match cursor
    case Some(p) => [MoveTo(p.0, p.1 + top), Show]
    case None => [Hide]
  }

  /** Everything one flush emits. */
  function FrameCommands(next: seq<seq<Cell>>, prev: seq<seq<Cell>>, full: bool, top: nat,
                         cursor: Option<(nat, nat)>): seq<Command>
    requires |next| <= |prev|
  {
    FrameBody(next, prev, full, top, |next|) + CursorCommands(cursor, top)
  }

  // ---------------------------------------------------------------------
  // Diff minimality
  // ---------------------------------------------------------------------

  /** No style command is emitted between equal styles, and some is between different ones. */
  lemma StyleChangeEmptyIffEqual(cur: ContentStyle, want: ContentStyle)
    ensures StyleChange(cur, want) == [] <==> cur == want
  {
    if cur != want {
      assert cur.bg != want.bg || cur.fg != want.fg || cur.attributes != want.attributes;
    }
  }

  /** The cursor-position commands of a command stream. */
  function Moves(cmds: seq<Command>): seq<Command>
    decreases |cmds|
  {
    if cmds == [] then []
    else Moves(cmds[..|cmds| - 1]) + (if cmds[|cmds| - 1].MoveTo? then [cmds[|cmds| - 1]] else [])
  }

  /** The characters printed by a command stream. */
  function Printed(cmds: seq<Command>): seq<char>
    decreases |cmds|
  {
    if cmds == [] then []
    else Printed(cmds[..|cmds| - 1]) + (if cmds[|cmds| - 1].Print? then [cmds[|cmds| - 1].c] else [])
  }

  lemma {:induction false} MovesAppend(a: seq<Command>, b: seq<Command>)
    ensures Moves(a + b) == Moves(a) + Moves(b)
    ensures Printed(a + b) == Printed(a) + Printed(b)
    decreases |b|
  {
    if b == [] {
      assert a + b == a;
    } else {
      var b' := b[..|b| - 1];
      assert (a + b)[..|a + b| - 1] == a + b';
      assert (a + b)[|a + b| - 1] == b[|b| - 1];
      MovesAppend(a, b');
    }
  }

  lemma StyleChangeHasNoMovesOrPrints(cur: ContentStyle, want: ContentStyle)
    ensures Moves(StyleChange(cur, want)) == [] && Printed(StyleChange(cur, want)) == []
  {
    var a := if cur.bg != want.bg then [SetBg(want.bg.GetOr(Reset))] else [];
    var b := if cur.fg != want.fg then [SetFg(want.fg.GetOr(Reset))] else [];
    var c := if cur.attributes != want.attributes then [SetAttrs(want.attributes)] else [];
    assert Moves(a) == [] && Printed(a) == [];
    assert Moves(b) == [] && Printed(b) == [];
    assert Moves(c) == [] && Printed(c) == [];
    MovesAppend(a, b);
    MovesAppend(a + b, c);
  }

  /** The characters of a row's content cells, left to right. */
  function ContentChars(row: seq<Cell>): seq<char>
    decreases |row|
  {
    if row == [] then []
    else ContentChars(row[..|row| - 1]) + (if row[|row| - 1].Content? then [row[|row| - 1].content.c] else [])
  }

  /** Repainting a row moves the cursor nowhere and prints one character per content cell. */
  lemma {:induction false} RowCommandsPrintContent(row: seq<Cell>, cur: ContentStyle)
    ensures Moves(RowCommands(row, cur)) == []
    ensures Printed(RowCommands(row, cur)) == ContentChars(row)
    decreases |row|
  {
    if row != [] {
      var init := row[..|row| - 1];
      RowCommandsPrintContent(init, cur);
      var cell := row[|row| - 1];
      var st := RowStyle(init, cur);
      MovesAppend(RowCommands(init, cur), CellCommands(cell, st));
      if cell.Content? {
        var sc := if st != cell.content.style then StyleChange(st, cell.content.style) else [];
        StyleChangeHasNoMovesOrPrints(st, cell.content.style);
        assert Moves([Print(cell.content.c)]) == [] by {
          assert [Print(cell.content.c)][..0] == [];
        }
        assert Printed([Print(cell.content.c)]) == [cell.content.c] by {
          assert [Print(cell.content.c)][..0] == [];
        }
        MovesAppend(sc, [Print(cell.content.c)]);
      }
    }
  }

  /** The moves a frame makes: one to the start of each repainted row, top to bottom. */
  function RepaintMoves(next: seq<seq<Cell>>, prev: seq<seq<Cell>>, full: bool, top: nat, n: nat): seq<Command>
    requires n <= |next| <= |prev|
    decreases n
  {
    if n == 0 then []
    else RepaintMoves(next, prev, full, top, n - 1)
         + if Repaints(next, prev, full, n - 1) then [MoveTo(0, top + n - 1)] else []
  }

  /** The characters a frame prints: the content of each repainted row, top to bottom. */
  function RepaintText(next: seq<seq<Cell>>, prev: seq<seq<Cell>>, full: bool, n: nat): seq<char>
    requires n <= |next| <= |prev|
    decreases n
  {
    if n == 0 then []
    else RepaintText(next, prev, full, n - 1)
         + if Repaints(next, prev, full, n - 1) then ContentChars(next[n - 1]) else []
  }

  /**
    A frame moves exactly once per repainted row, to that row's start, and
    prints exactly the content characters of the repainted rows; rows equal
    to the last frame's contribute nothing unless a full refresh is pending.
   */
  lemma {:induction false} FrameBodyRepaintsChangedRows(next: seq<seq<Cell>>, prev: seq<seq<Cell>>, full: bool, top: nat, n: nat)
    requires n <= |next| <= |prev|
    ensures Moves(FrameBody(next, prev, full, top, n)) == RepaintMoves(next, prev, full, top, n)
    ensures Printed(FrameBody(next, prev, full, top, n)) == RepaintText(next, prev, full, n)
    decreases n
  {
    if n > 0 {
      FrameBodyRepaintsChangedRows(next, prev, full, top, n - 1);
      var prefix := FrameBody(next, prev, full, top, n - 1);
      if Repaints(next, prev, full, n - 1) {
        var seg := [MoveTo(0, top + n - 1)] + RowCommands(next[n - 1], FrameStyle(next, prev, full, n - 1));
        assert FrameBody(next, prev, full, top, n) == prefix + seg;
        RowSegmentCounts(top + n - 1, next[n - 1], FrameStyle(next, prev, full, n - 1));
        MovesAppend(prefix, seg);
      } else {
        assert FrameBody(next, prev, full, top, n) == prefix + [] == prefix;
        assert RepaintMoves(next, prev, full, top, n) == RepaintMoves(next, prev, full, top, n - 1) + []
            == RepaintMoves(next, prev, full, top, n - 1);
        assert RepaintText(next, prev, full, n) == RepaintText(next, prev, full, n - 1) + []
            == RepaintText(next, prev, full, n - 1);
      }
    }
  }

  /** Repainting one row: a single move to its start, then its content characters. */
  lemma RowSegmentCounts(y: nat, row: seq<Cell>, st: ContentStyle)
    ensures Moves([MoveTo(0, y)] + RowCommands(row, st)) == [MoveTo(0, y)]
    ensures Printed([MoveTo(0, y)] + RowCommands(row, st)) == ContentChars(row)
  {
    RowCommandsPrintContent(row, st);
    assert [MoveTo(0, y)][..0] == [];
    MovesAppend([MoveTo(0, y)], RowCommands(row, st));
  }

  /** When nothing changed and no full refresh is pending, a flush only places or hides the cursor. */
  lemma {:induction false} UnchangedFrameOnlyPlacesCursor(next: seq<seq<Cell>>, prev: seq<seq<Cell>>, top: nat,
                                                          cursor: Option<(nat, nat)>, n: nat)
    requires n <= |next| <= |prev|
    requires forall y :: 0 <= y < |next| ==> next[y] == prev[y]
    ensures FrameBody(next, prev, false, top, n) == []
    decreases n
  {
    if n > 0 {
      UnchangedFrameOnlyPlacesCursor(next, prev, top, cursor, n - 1);
    }
  }

  /** With a full refresh pending every row is repainted: one move per row, in order. */
  lemma {:induction false} FullRefreshRepaintsEveryRow(next: seq<seq<Cell>>, prev: seq<seq<Cell>>, top: nat, n: nat)
    requires n <= |next| <= |prev|
    ensures |RepaintMoves(next, prev, true, top, n)| == n
    ensures forall y :: 0 <= y < n ==> RepaintMoves(next, prev, true, top, n)[y] == MoveTo(0, top + y)
    decreases n
  {
    if n > 0 {
      FullRefreshRepaintsEveryRow(next, prev, top, n - 1);
    }
  }

  // ---------------------------------------------------------------------
  // What a terminal does with the commands
  // ---------------------------------------------------------------------

  /** The colours and attributes a terminal prints with. */
  datatype Rendition = Rendition(bg: Color, fg: Color, attributes: set<Attribute>)

  /** The rendition a style asks for: an absent colour is the terminal's default (`Reset`). */
  function RenditionOf(s: ContentStyle): Rendition {
    Rendition(s.bg.GetOr(Reset), s.fg.GetOr(Reset), s.attributes)
  }

  /** One printed character: where it went and how it looked. */
  datatype Glyph = Glyph(col: nat, row: nat, c: char, rendition: Rendition)

  /**
    A terminal: its cursor position, its current rendition, whether its
    cursor is visible, and the characters printed so far.
    Setting attributes is taken to replace the current attribute set.
   */
  datatype Terminal = Terminal(col: nat, row: nat, rendition: Rendition, cursorShown: bool, printed: seq<Glyph>)

  function Step(t: Terminal, cmd: Command): Terminal {
    match cmd
    case MoveTo(c, r) => t.(col := c, row := r)
    case SetBg(color) => t.(rendition := t.rendition.(bg := color))
    case SetFg(color) => t.(rendition := t.rendition.(fg := color))
    case SetAttrs(a) => t.(rendition := t.rendition.(attributes := a))
    case Print(ch) => t.(printed := t.printed + [Glyph(t.col, t.row, ch, t.rendition)], col := t.col + CharWidth(ch))
    case Show => t.(cursorShown := true)
    case Hide => t.(cursorShown := false)
  }

  /** The terminal after executing `cmds` in order. */
  function Run(t: Terminal, cmds: seq<Command>): Terminal
    decreases |cmds|
  {
    if cmds == [] then t else Step(Run(t, cmds[..|cmds| - 1]), cmds[|cmds| - 1])
  }

  lemma {:induction false} RunAppend(t: Terminal, a: seq<Command>, b: seq<Command>)
    ensures Run(t, a + b) == Run(Run(t, a), b)
    decreases |b|
  {
    if b == [] {
      assert a + b == a;
    } else {
      var b' := b[..|b| - 1];
      assert (a + b)[..|a + b| - 1] == a + b';
      assert (a + b)[|a + b| - 1] == b[|b| - 1];
      RunAppend(t, a, b');
    }
  }

  /** The style commands switch the terminal's rendition from `cur`'s to `want`'s and do nothing else. */
  lemma StyleChangeSwitchesRendition(t: Terminal, cur: ContentStyle, want: ContentStyle)
    requires t.rendition == RenditionOf(cur)
    ensures Run(t, StyleChange(cur, want)) == t.(rendition := RenditionOf(want))
  {
    var a := if cur.bg != want.bg then [SetBg(want.bg.GetOr(Reset))] else [];
    var b := if cur.fg != want.fg then [SetFg(want.fg.GetOr(Reset))] else [];
    var c := if cur.attributes != want.attributes then [SetAttrs(want.attributes)] else [];
    RunAppend(t, a, b);
    RunAppend(t, a + b, c);
    assert [SetBg(want.bg.GetOr(Reset))][..0] == [];
    assert [SetFg(want.fg.GetOr(Reset))][..0] == [];
    assert [SetAttrs(want.attributes)][..0] == [];
  }

  /** The columns the terminal advances over when printing a cell: a placeholder prints nothing. */
  function PrintWidth(cell: Cell): nat {
    if cell.Content? then CharWidth(cell.content.c) else 0
  }

  /** What printing a cell at column `col` of row `r` leaves: one glyph in its own style, or nothing. */
  function GlyphsAt(cell: Cell, col: nat, r: nat): seq<Glyph> {
    if cell.Content? then [Glyph(col, r, cell.content.c, RenditionOf(cell.content.style))] else []
  }

  /** The columns the terminal advances over when printing a row's content characters. */
  function PrintedWidth(row: seq<Cell>): nat
    decreases |row|
  {
    if row == [] then 0 else PrintedWidth(row[..|row| - 1]) + PrintWidth(row[|row| - 1])
  }

  /** The glyphs a row's repaint leaves on a terminal that starts at column `col0` of row `r`. */
  function PrintedGlyphs(row: seq<Cell>, col0: nat, r: nat): seq<Glyph>
    decreases |row|
  {
    if row == [] then []
    else
      var init := row[..|row| - 1];
      PrintedGlyphs(init, col0, r) + GlyphsAt(row[|row| - 1], col0 + PrintedWidth(init), r)
  }

  /** Proof helper: running `a` then `b`, when `c` is their concatenation. */
  lemma RunSnoc(t: Terminal, a: seq<Command>, b: seq<Command>, c: seq<Command>, mid: Terminal, fin: Terminal)
    requires c == a + b && Run(t, a) == mid && Run(mid, b) == fin
    ensures Run(t, c) == fin
  {
    RunAppend(t, a, b);
  }

  /** Proof helper: regrouping a concatenation. */
  lemma ConcatAssociative<T>(a: seq<T>, b: seq<T>, c: seq<T>)
    ensures a + (b + c) == (a + b) + c
  {
  }

  /** Proof helper: the printed width and glyphs of a row unfold at its last cell. */
  lemma PrintedSnoc(row: seq<Cell>, col0: nat, r: nat)
    requires row != []
    ensures PrintedWidth(row) == PrintedWidth(row[..|row| - 1]) + PrintWidth(row[|row| - 1])
    ensures PrintedGlyphs(row, col0, r) ==
      PrintedGlyphs(row[..|row| - 1], col0, r) + GlyphsAt(row[|row| - 1], col0 + PrintedWidth(row[..|row| - 1]), r)
  {
  }

  /**
    Repainting a row from style `cur` on a terminal whose rendition is
    `cur`'s prints each content character, in order, with the rendition of
    its own style, and leaves the terminal in the rendition of the last
    style used.
   */
  lemma {:induction false} RowRepaintEffect(t: Terminal, row: seq<Cell>, cur: ContentStyle)
    requires t.rendition == RenditionOf(cur)
    ensures Run(t, RowCommands(row, cur)) ==
      t.(col := t.col + PrintedWidth(row),
         rendition := RenditionOf(RowStyle(row, cur)),
         printed := t.printed + PrintedGlyphs(row, t.col, t.row))
    decreases |row|
  {
    if row != [] {
      var init := row[..|row| - 1];
      var last := row[|row| - 1];
      var st := RowStyle(init, cur);
      var gs := GlyphsAt(last, t.col + PrintedWidth(init), t.row);
      var mid := t.(col := t.col + PrintedWidth(init),
                    rendition := RenditionOf(st),
                    printed := t.printed + PrintedGlyphs(init, t.col, t.row));
      var fin := mid.(col := mid.col + PrintWidth(last), rendition := RenditionOf(StyleAfterCell(last, st)),
                      printed := mid.printed + gs);
      assert Run(t, RowCommands(row, cur)) == fin by {
        RowRepaintEffect(t, init, cur);
        CellRepaintEffect(mid, last, st);
        RunSnoc(t, RowCommands(init, cur), CellCommands(last, st), RowCommands(row, cur), mid, fin);
      }
      PrintedSnoc(row, t.col, t.row);
      ConcatAssociative(t.printed, PrintedGlyphs(init, t.col, t.row), gs);
      assert RowStyle(row, cur) == StyleAfterCell(last, st);
    } else {
      assert t.printed + [] == t.printed;
    }
  }

  /** Repainting one cell: a content cell is printed where the terminal stands, in its own style. */
  lemma CellRepaintEffect(t: Terminal, cell: Cell, cur: ContentStyle)
    requires t.rendition == RenditionOf(cur)
    ensures Run(t, CellCommands(cell, cur)) ==
      t.(col := t.col + PrintWidth(cell), rendition := RenditionOf(StyleAfterCell(cell, cur)),
         printed := t.printed + GlyphsAt(cell, t.col, t.row))
  {
    match cell
    case Content(cc) =>
      var sc := if cur != cc.style then StyleChange(cur, cc.style) else [];
      RunAppend(t, sc, [Print(cc.c)]);
      if cur != cc.style {
        StyleChangeSwitchesRendition(t, cur, cc.style);
      }
      assert Run(t, sc) == t.(rendition := RenditionOf(cc.style));
      assert [Print(cc.c)][..0] == [];
    case WideExtension =>
      assert t.printed + [] == t.printed;
  }

  /** Where a well-formed row's content cells sit: each at its own column. */
  function CellGlyphs(row: seq<Cell>, r: nat): seq<Glyph>
    decreases |row|
  {
    if row == [] then [] else CellGlyphs(row[..|row| - 1], r) + GlyphsAt(row[|row| - 1], |row| - 1, r)
  }

  /** In a well-formed row the content before a glyph boundary takes exactly as many columns as cells. */
  lemma {:induction false} PrintedWidthAtBoundary(row: seq<Cell>, x: nat)
    requires WellFormedRow(row)
    requires x <= |row| && (x == |row| || row[x].Content?)
    ensures PrintedWidth(row[..x]) == x
    decreases x
  {
    if x > 0 {
      var p := row[..x];
      assert p[..x - 1] == row[..x - 1];
      if row[x - 1].Content? {
        PrintedWidthAtBoundary(row, x - 1);
        assert GlyphStartOk(row, x - 1);
        if x < |row| {
          assert GlyphStartOk(row, x) && PlaceholderOk(row, x);
        }
      } else {
        assert PlaceholderOk(row, x - 1);
        assert GlyphStartOk(row, x - 2);
        PrintedWidthAtBoundary(row, x - 2);
        assert row[..x - 1][..x - 2] == row[..x - 2];
      }
    }
  }

  /** Printing a well-formed row from column 0 puts every character in its own cell's column. */
  lemma {:induction false} WellFormedRowPrintsInPlace(row: seq<Cell>, r: nat, n: nat)
    requires WellFormedRow(row) && n <= |row|
    ensures PrintedGlyphs(row[..n], 0, r) == CellGlyphs(row[..n], r)
    decreases n
  {
    if n > 0 {
      var p := row[..n];
      assert p[..n - 1] == row[..n - 1];
      WellFormedRowPrintsInPlace(row, r, n - 1);
      if row[n - 1].Content? {
        PrintedWidthAtBoundary(row, n - 1);
      }
    }
  }

  /** The glyphs a frame should leave: the content of each repainted row, in its own cells. */
  function ExpectedGlyphs(next: seq<seq<Cell>>, prev: seq<seq<Cell>>, full: bool, top: nat, n: nat): seq<Glyph>
    requires n <= |next| <= |prev|
    decreases n
  {
    if n == 0 then []
    else ExpectedGlyphs(next, prev, full, top, n - 1)
         + if Repaints(next, prev, full, n - 1) then CellGlyphs(next[n - 1], top + n - 1) else []
  }

  lemma {:induction false} FrameBodyEffect(t: Terminal, next: seq<seq<Cell>>, prev: seq<seq<Cell>>, full: bool,
                                           top: nat, n: nat)
    requires n <= |next| <= |prev|
    requires t.rendition == RenditionOf(DefaultStyle)
    requires forall y :: 0 <= y < |next| ==> WellFormedRow(next[y])
    ensures Run(t, FrameBody(next, prev, full, top, n)).rendition == RenditionOf(FrameStyle(next, prev, full, n))
    ensures Run(t, FrameBody(next, prev, full, top, n)).cursorShown == t.cursorShown
    ensures Run(t, FrameBody(next, prev, full, top, n)).printed == t.printed + ExpectedGlyphs(next, prev, full, top, n)
    decreases n
  {
    if n > 0 {
      FrameBodyEffect(t, next, prev, full, top, n - 1);
      var prefix := FrameBody(next, prev, full, top, n - 1);
      var mid := Run(t, prefix);
      if Repaints(next, prev, full, n - 1) {
        var row := next[n - 1];
        var st := FrameStyle(next, prev, full, n - 1);
        var seg := [MoveTo(0, top + n - 1)] + RowCommands(row, st);
        assert FrameBody(next, prev, full, top, n) == prefix + seg;
        assert ExpectedGlyphs(next, prev, full, top, n) ==
          ExpectedGlyphs(next, prev, full, top, n - 1) + CellGlyphs(row, top + n - 1);
        assert FrameStyle(next, prev, full, n) == RowStyle(row, st);
        RunAppend(t, prefix, seg);
        RowSegmentEffect(mid, top + n - 1, row, st);
        ConcatAssociative(t.printed, ExpectedGlyphs(next, prev, full, top, n - 1), CellGlyphs(row, top + n - 1));
      } else {
        assert FrameBody(next, prev, full, top, n) == prefix + [] == prefix;
        assert ExpectedGlyphs(next, prev, full, top, n) == ExpectedGlyphs(next, prev, full, top, n - 1) + []
            == ExpectedGlyphs(next, prev, full, top, n - 1);
      }
    }
  }

  /** Repainting a well-formed row `y` prints its content cells in their own cells of that terminal row. */
  lemma RowSegmentEffect(t: Terminal, y: nat, row: seq<Cell>, st: ContentStyle)
    requires t.rendition == RenditionOf(st)
    requires WellFormedRow(row)
    ensures var after := Run(t, [MoveTo(0, y)] + RowCommands(row, st));
      && after.rendition == RenditionOf(RowStyle(row, st))
      && after.cursorShown == t.cursorShown
      && after.printed == t.printed + CellGlyphs(row, y)
  {
    var moved := t.(col := 0, row := y);
    RunAppend(t, [MoveTo(0, y)], RowCommands(row, st));
    assert [MoveTo(0, y)][..0] == [];
    assert Run(t, [MoveTo(0, y)]) == moved;
    RowRepaintEffect(moved, row, st);
    WellFormedRowPrintsInPlace(row, y, |row|);
    assert row[..|row|] == row;
  }

  /**
    On a terminal whose rendition is the default, a flush of well-formed rows
    prints exactly the content cells of the repainted rows, each at its own
    column of row `top + y` and in its own style, and then shows the cursor
    at its place in the region, or hides it.
   */
  lemma FrameDrawsRepaintedRows(t: Terminal, next: seq<seq<Cell>>, prev: seq<seq<Cell>>, full: bool, top: nat,
                                cursor: Option<(nat, nat)>)
    requires |next| <= |prev|
    requires t.rendition == RenditionOf(DefaultStyle)
    requires forall y :: 0 <= y < |next| ==> WellFormedRow(next[y])
    ensures var after := Run(t, FrameCommands(next, prev, full, top, cursor));
      && after.printed == t.printed + ExpectedGlyphs(next, prev, full, top, |next|)
      && after.cursorShown == cursor.Some?
      && (cursor.Some? ==> after.col == cursor.value.0 && after.row == cursor.value.1 + top)
      && after.rendition == RenditionOf(FrameStyle(next, prev, full, |next|))
  {
    var body := FrameBody(next, prev, full, top, |next|);
    FrameBodyEffect(t, next, prev, full, top, |next|);
    RunAppend(t, body, CursorCommands(cursor, top));
    var mid := Run(t, body);
    match cursor
    case Some(p) =>
      RunAppend(mid, [MoveTo(p.0, p.1 + top)], [Show]);
      assert [MoveTo(p.0, p.1 + top)][..0] == [];
      assert [Show][..0] == [];
      assert [MoveTo(p.0, p.1 + top), Show] == [MoveTo(p.0, p.1 + top)] + [Show];
    case None =>
      assert [Hide][..0] == [];
  }

  // ---------------------------------------------------------------------
  // The style a frame leaves behind
  // ---------------------------------------------------------------------

  /**
    A flush as written starts its diff from the default style, whatever
    style the terminal was left in: after a frame that ends in a red
    foreground, the next frame prints its default-style 'b' red.
   */
  lemma StaleStyleLeaksIntoNextFrame()
    ensures var red := ContentStyle(Some(Red), None, {});
      var first := [[Content(CellContent('a', 1, red))]];
      var second := [[Content(CellContent('b', 1, DefaultStyle))]];
      var t0 := Terminal(0, 0, RenditionOf(DefaultStyle), false, []);
      var t1 := Run(t0, FrameCommands(first, second, true, 0, None));
      var t2 := Run(t1, FrameCommands(second, first, false, 0, None));
      && ExpectedGlyphs(second, first, false, 0, 1) == [Glyph(0, 0, 'b', RenditionOf(DefaultStyle))]
      && t2.printed == t1.printed + [Glyph(0, 0, 'b', RenditionOf(red))]
      && t2.printed != t1.printed + ExpectedGlyphs(second, first, false, 0, 1)
  {
    var red := ContentStyle(Some(Red), None, {});
    var first := [[Content(CellContent('a', 1, red))]];
    var second := [[Content(CellContent('b', 1, DefaultStyle))]];
    var t0 := Terminal(0, 0, RenditionOf(DefaultStyle), false, []);
    assert WellFormedRow(first[0]) by {
      assert GlyphStartOk(first[0], 0) && PlaceholderOk(first[0], 0);
    }
    FrameDrawsRepaintedRows(t0, first, second, true, 0, None);
    var t1 := Run(t0, FrameCommands(first, second, true, 0, None));
    assert RowStyle(first[0], DefaultStyle) == red by {
      assert first[0][..0] == [];
    }
    assert t1.rendition == RenditionOf(red);
    assert RowCommands(second[0], DefaultStyle) == [Print('b')] by {
      assert second[0][..0] == [];
    }
    assert FrameBody(second, first, false, 0, 1) == [MoveTo(0, 0), Print('b')];
    var cmds := [MoveTo(0, 0), Print('b'), Hide];
    assert FrameCommands(second, first, false, 0, None) == cmds;
    assert cmds[..2] == [MoveTo(0, 0), Print('b')] && cmds[..2][..1] == [MoveTo(0, 0)];
    assert [MoveTo(0, 0)][..0] == [];
    var m := Run(t1, [MoveTo(0, 0)]);
    assert m == t1.(col := 0, row := 0);
    var p := Run(t1, cmds[..2]);
    assert p == Step(m, Print('b'));
    assert Run(t1, cmds) == Step(p, Hide);
    assert CellGlyphs(second[0], 0) == [Glyph(0, 0, 'b', RenditionOf(DefaultStyle))] by {
      assert second[0][..0] == [];
    }
    var k := |t1.printed|;
    assert (t1.printed + [Glyph(0, 0, 'b', RenditionOf(red))])[k].rendition.fg == Red;
    assert (t1.printed + [Glyph(0, 0, 'b', RenditionOf(DefaultStyle))])[k].rendition.fg == Reset;
  }

  /**
    The flush as evidently intended: it first switches the terminal from
    `last`, the style the previous flush left it in, to the default style
    the diff starts from.
   */
  function TrackedFrameCommands(next: seq<seq<Cell>>, prev: seq<seq<Cell>>, full: bool, top: nat,
                                cursor: Option<(nat, nat)>, last: ContentStyle): seq<Command>
    requires |next| <= |prev|
  {
    StyleChange(last, DefaultStyle) + FrameCommands(next, prev, full, top, cursor)
  }

  /**
    From a terminal in the style the previous flush left it in, the
    corrected flush draws the repainted rows in their own styles, places or
    hides the cursor, and leaves the terminal in the style it hands on to
    the next flush; so every frame of a sequence is drawn correctly.
   */
  lemma TrackedFramesDraw(t: Terminal, next: seq<seq<Cell>>, prev: seq<seq<Cell>>, full: bool, top: nat,
                          cursor: Option<(nat, nat)>, last: ContentStyle)
    requires |next| <= |prev|
    requires t.rendition == RenditionOf(last)
    requires forall y :: 0 <= y < |next| ==> WellFormedRow(next[y])
    ensures var after := Run(t, TrackedFrameCommands(next, prev, full, top, cursor, last));
      && after.printed == t.printed + ExpectedGlyphs(next, prev, full, top, |next|)
      && after.cursorShown == cursor.Some?
      && (cursor.Some? ==> after.col == cursor.value.0 && after.row == cursor.value.1 + top)
      && after.rendition == RenditionOf(FrameStyle(next, prev, full, |next|))
  {
    var reset := StyleChange(last, DefaultStyle);
    RunAppend(t, reset, FrameCommands(next, prev, full, top, cursor));
    StyleChangeSwitchesRendition(t, last, DefaultStyle);
    FrameDrawsRepaintedRows(Run(t, reset), next, prev, full, top, cursor);
  }
}
