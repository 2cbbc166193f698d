/**
  The double-buffering renderer: a terminal size, a screen mode, the buffer
  being composed (`next`), the buffer last flushed (`prev`) and a pending
  full refresh. Drawing writes into `next`; `End` turns the difference
  between `next` and `prev` into terminal commands and swaps the buffers.

  Terminal I/O is not part of the model: `End` returns the commands it
  would queue instead of writing them.
 */
module Rendering {
  import opened Optional
  import opened Cells
  import opened Frames
  import Keys

  /** The screen mode: the whole (alternate) screen, or a region of `lines` rows anchored at a cursor position. */
  datatype Config = FullScreen | BottomScreen(lines: nat, anchor: Option<(nat, nat)>)

  /** The terminal events the renderer is handed. */
  datatype Event = Key(key: Keys.KeyEvent) | Mouse(column: nat, row: nat) | Resize(columns: nat, rows: nat)

  /** The number of rows the renderer draws on a terminal of `termHeight` rows. */
  function RegionHeight(config: Config, termHeight: nat): (h: nat)
    ensures h <= termHeight
    ensures config.BottomScreen? ==> h <= config.lines
  {
    match config
    case FullScreen => termHeight
    case BottomScreen(lines, _) => if lines < termHeight then lines else termHeight
  }

  /**
    The terminal row the region starts at: the top of the screen, or the
    anchor's row pulled up just enough for the region to fit.
   */
  function TopRow(config: Config, termHeight: nat): nat {
    match config
    case FullScreen => 0
    case BottomScreen(lines, anchor) =>
      var l := RegionHeight(config, termHeight);
      var p := anchor.GetOr((0, 0));
      if termHeight - l < p.1 then termHeight - l else p.1
  }

  /** The region always fits on the terminal; a full-screen region covers it exactly. */
  lemma RegionFits(config: Config, termHeight: nat)
    ensures TopRow(config, termHeight) + RegionHeight(config, termHeight) <= termHeight
    ensures config.FullScreen? ==> TopRow(config, termHeight) == 0 && RegionHeight(config, termHeight) == termHeight
    ensures config.BottomScreen? ==>
      TopRow(config, termHeight) == config.anchor.GetOr((0, 0)).1
      || TopRow(config, termHeight) + RegionHeight(config, termHeight) == termHeight
  {
  }

  /** The anchor row was pulled up to make the region fit. */
  predicate Clamped(lines: nat, termHeight: nat, p: (nat, nat)) {
    TopRow(BottomScreen(lines, Some(p)), termHeight) != p.1
  }

  /** Whether the anchor shift of a resize stays within unsigned arithmetic. */
  predicate ShiftDefined(config: Config, prevHeight: nat, newHeight: nat) {
    config.BottomScreen? && config.anchor.Some? && Clamped(config.lines, prevHeight, config.anchor.value)
    ==> config.anchor.value.1 + newHeight >= prevHeight
  }

  /**
    The screen mode after the terminal height changes from `prevHeight` to
    `newHeight`: an anchor that had been pulled up moves by the change in
    height; any other mode is kept.
   */
  function ShiftAnchor(config: Config, prevHeight: nat, newHeight: nat): Config
    requires ShiftDefined(config, prevHeight, newHeight)
  {
    match config
    case FullScreen => config
    case BottomScreen(lines, anchor) =>
      match anchor
      case None => config
      case Some(p) =>
        if Clamped(lines, prevHeight, p) then BottomScreen(lines, Some((p.0, p.1 + newHeight - prevHeight)))
        else config
  }

  /**
    A region pushed against the bottom of the terminal stays against the
    bottom when the terminal is resized, as long as it fits before and after;
    an anchor that was not pulled up does not move.
   */
  lemma ShiftAnchorKeepsBottomRegion(lines: nat, p: (nat, nat), prevHeight: nat, newHeight: nat)
    requires ShiftDefined(BottomScreen(lines, Some(p)), prevHeight, newHeight)
    ensures !Clamped(lines, prevHeight, p) ==>
      ShiftAnchor(BottomScreen(lines, Some(p)), prevHeight, newHeight) == BottomScreen(lines, Some(p))
    ensures Clamped(lines, prevHeight, p) && lines <= prevHeight && lines <= newHeight ==>
      var c := ShiftAnchor(BottomScreen(lines, Some(p)), prevHeight, newHeight);
      && TopRow(BottomScreen(lines, Some(p)), prevHeight) + lines == prevHeight
      && TopRow(c, newHeight) + RegionHeight(c, newHeight) == newHeight
  {
  }

  // ---------------------------------------------------------------------
  // Text runs: what `draw_str`, `draw_ansi` and `draw_ansis` draw
  // ---------------------------------------------------------------------

  /** A string drawn in one style. */
  datatype TextRun = TextRun(text: string, style: ContentStyle)

  /** The columns a sequence of runs takes from column `x`: each starts where the previous one stopped. */
  function RunsWidth(x: nat, runs: seq<TextRun>, width: nat): nat
    decreases |runs|
  {
    if runs == [] then 0
    else
      var w := RunsWidth(x, runs[..|runs| - 1], width);
      w + DrawnWidth(x + w, runs[|runs| - 1].text, width)
  }

  /** The row after drawing a sequence of runs from column `x`. */
  function RunsRow(row: seq<Cell>, x: nat, runs: seq<TextRun>): (r: seq<Cell>)
    ensures |r| == |row|
    decreases |runs|
  {
    if runs == [] then row
    else
      var init := runs[..|runs| - 1];
      var last := runs[|runs| - 1];
      DrawRow(RunsRow(row, x, init), x + RunsWidth(x, init, |row|), last.text, last.style)
  }

  /**
    The buffer rows `after` are `before` with the runs drawn from column `x`
    of row `y`, taking `w` columns; nothing changes when `y` is below the last row.
   */
  ghost predicate RunsDrawn(before: seq<seq<Cell>>, after: seq<seq<Cell>>, y: nat, x: nat, runs: seq<TextRun>,
                            width: nat, w: int)
  {
    if y < |before| then w == RunsWidth(x, runs, width) && after == before[y := RunsRow(before[y], x, runs)]
    else w == 0 && after == before
  }

  /** Drawing run `i` where the earlier runs ended extends what has been drawn by that run. */
  lemma RunsDrawnStep(before: seq<seq<Cell>>, mid: seq<seq<Cell>>, after: seq<seq<Cell>>, y: nat, x: nat,
                      runs: seq<TextRun>, i: nat, width: nat, w: nat, d: nat)
    requires y < |before| ==> |before[y]| == width
    requires i < |runs| && RunsDrawn(before, mid, y, x, runs[..i], width, w)
    requires y < |mid| ==>
      && d == DrawnWidth(x + w, runs[i].text, width)
      && after == mid[y := DrawRow(mid[y], x + w, runs[i].text, runs[i].style)]
    requires y >= |mid| ==> d == 0 && after == mid
    ensures RunsDrawn(before, after, y, x, runs[..i + 1], width, w + d)
  {
    assert runs[..i + 1][..i] == runs[..i];
  }

  /**
    Drawing runs from column `x` changes only the columns from `x` up to `x`
    plus the width it returns, and never reaches past the right edge.
   */
  lemma {:induction false} RunsStayInRange(row: seq<Cell>, x: nat, runs: seq<TextRun>)
    ensures RunsWidth(x, runs, |row|) > 0 ==> x + RunsWidth(x, runs, |row|) <= |row|
    ensures forall j :: 0 <= j < |row| && (j < x || j >= x + RunsWidth(x, runs, |row|)) ==>
      RunsRow(row, x, runs)[j] == row[j]
    decreases |runs|
  {
    if runs != [] {
      var init := runs[..|runs| - 1];
      var last := runs[|runs| - 1];
      var w := RunsWidth(x, init, |row|);
      var mid := RunsRow(row, x, init);
      RunsStayInRange(row, x, init);
      DrawRowFrame(mid, x + w, last.text, last.style);
    }
  }

  /** ansi_term's colours. */
  datatype Colour = Black | Red | Green | Yellow | Blue | Purple | Cyan | White | Fixed(v: Byte) | RGB(r: Byte, g: Byte, b: Byte)

  /** An ansi_term style: colours and text effects (bold, underline, ...). */
  datatype AnsiStyle = AnsiStyle(foreground: Option<Colour>, background: Option<Colour>, effects: set<Attribute>)

  /** A string with an ansi_term style. */
  datatype AnsiString = AnsiString(text: string, style: AnsiStyle)

  /** The crossterm colour an ansi_term colour is drawn with. */
  function ConvertColour(c: Colour): Color {
    match c
    case Black => Color.Black
    case Red => Color.Red
    case Green => Color.Green
    case Yellow => Color.Yellow
    case Blue => Color.Blue
    case Purple => Magenta
    case Cyan => Color.Cyan
    case White => Color.White
    case Fixed(v) => AnsiValue(v)
    case RGB(r, g, b) => Rgb(r, g, b)
  }

  function MapColour(c: Option<Colour>): Option<Color> {
    match c
    case None => None
    case Some(v) => Some(ConvertColour(v))
  }

  /** The style an ansi_term string is drawn with: its colours converted, its text effects dropped. */
  function StyleOfAnsi(s: AnsiStyle): ContentStyle {
    ContentStyle(MapColour(s.foreground), MapColour(s.background), {})
  }

  /** Distinct ansi_term colours are drawn with distinct colours. */
  lemma ConvertColourInjective(a: Colour, b: Colour)
    ensures ConvertColour(a) == ConvertColour(b) <==> a == b
  {
  }

  /** Two ansi_term strings are drawn in the same style exactly when their colours agree: effects play no part. */
  lemma StyleOfAnsiIgnoresEffects(a: AnsiStyle, b: AnsiStyle)
    ensures StyleOfAnsi(a) == StyleOfAnsi(b) <==> a.foreground == b.foreground && a.background == b.background
  {
    if MapColour(a.foreground) == MapColour(b.foreground) && a.foreground.Some? && b.foreground.Some? {
      ConvertColourInjective(a.foreground.value, b.foreground.value);
    }
    if MapColour(a.background) == MapColour(b.background) && a.background.Some? && b.background.Some? {
      ConvertColourInjective(a.background.value, b.background.value);
    }
  }

  function AnsiRuns(parts: seq<AnsiString>): seq<TextRun> {
    seq(|parts|, i requires 0 <= i < |parts| => TextRun(parts[i].text, StyleOfAnsi(parts[i].style)))
  }

  /** The columns runs take depend only on their texts, never on their styles. */
  lemma {:induction false} RunsWidthIgnoresStyle(x: nat, a: seq<TextRun>, b: seq<TextRun>, width: nat)
    requires |a| == |b| && forall i :: 0 <= i < |a| ==> a[i].text == b[i].text
    ensures RunsWidth(x, a, width) == RunsWidth(x, b, width)
    decreases |a|
  {
    if a != [] {
      RunsWidthIgnoresStyle(x, a[..|a| - 1], b[..|b| - 1], width);
    }
  }

  /** `draw_ansis` takes as many columns as drawing the same texts unstyled would. */
  lemma AnsiRunsWidth(x: nat, parts: seq<AnsiString>, width: nat)
    ensures RunsWidth(x, AnsiRuns(parts), width)
         == RunsWidth(x, seq(|parts|, i requires 0 <= i < |parts| => TextRun(parts[i].text, DefaultStyle)), width)
  {
    RunsWidthIgnoresStyle(x, AnsiRuns(parts),
                          seq(|parts|, i requires 0 <= i < |parts| => TextRun(parts[i].text, DefaultStyle)), width);
  }

  /** The things that can be drawn: a styled string, a plain string, an ansi_term string or a sequence of them. */
  datatype Drawable = Styled(text: string, style: ContentStyle) | Plain(text: string) | Ansi(part: AnsiString)
                    | Ansis(parts: seq<AnsiString>)

  /** What a drawable draws. */
  function RunsOf(d: Drawable): seq<TextRun> {
    match d
    case Styled(t, s) => [TextRun(t, s)]
    case Plain(t) => [TextRun(t, DefaultStyle)]
    case Ansi(a) => [TextRun(a.text, StyleOfAnsi(a.style))]
    case Ansis(parts) => AnsiRuns(parts)
  }

  // ---------------------------------------------------------------------
  // Painting a frame
  // ---------------------------------------------------------------------

  /** Queues the commands for one row, tracking the active style as the terminal will. */
  method PaintRow(row: seq<Cell>, cur: ContentStyle) returns (cmds: seq<Command>, style: ContentStyle)
    ensures cmds == RowCommands(row, cur) && style == RowStyle(row, cur)
  {
    cmds, style := [], cur;
    for x := 0 to |row|
      invariant cmds == RowCommands(row[..x], cur) && style == RowStyle(row[..x], cur)
    {
      assert row[..x + 1][..x] == row[..x];
      match row[x]
      case Content(cc) =>
        var change := [];
        if style != cc.style {
          if style.bg != cc.style.bg {
            change := change + [SetBg(cc.style.bg.GetOr(Reset))];
          }
          if style.fg != cc.style.fg {
            change := change + [SetFg(cc.style.fg.GetOr(Reset))];
          }
          if style.attributes != cc.style.attributes {
            change := change + [SetAttrs(cc.style.attributes)];
          }
          assert change == StyleChange(style, cc.style);
        }
        assert CellCommands(row[x], style) == change + [Print(cc.c)];
        cmds := cmds + (change + [Print(cc.c)]);
        style := cc.style;
      case WideExtension =>
        assert CellCommands(row[x], style) == [];
        assert cmds + [] == cmds;
    }
    assert row[..|row|] == row;
  }

  /**
    Queues the commands for every row of `next` that differs from the same
    row of `prev`, or for every row when `full` is set, with the active
    style starting at the default and carried across rows.
   */
  method PaintRows(next: seq<seq<Cell>>, prev: seq<seq<Cell>>, full: bool, top: nat) returns (cmds: seq<Command>)
    requires |next| <= |prev|
    ensures cmds == FrameBody(next, prev, full, top, |next|)
  {
    var style := DefaultStyle;
    cmds := [];
    for y := 0 to |next|
      invariant cmds == FrameBody(next, prev, full, top, y) && style == FrameStyle(next, prev, full, y)
    {
      if next[y] == prev[y] && !full {
        assert cmds + [] == cmds;
        continue;
      }
      var rowCmds, rowStyle := PaintRow(next[y], style);
      cmds := cmds + ([MoveTo(0, top + y)] + rowCmds);
      style := rowStyle;
    }
  }

  // ---------------------------------------------------------------------
  // The renderer
  // ---------------------------------------------------------------------

  class Renderer {
    var termSize: (nat, nat)
    var config: Config
    var next: VirtualBuffer
    var prev: VirtualBuffer
    var fullRefresh: bool

    /** Two distinct, well-formed buffers of the same dimensions. */
    predicate Valid()
      reads this, next, prev
    {
      && next != prev
      && next.Valid() && prev.Valid()
      && next.width == prev.width && next.height == prev.height
    }

    /** `Renderer::default()`: a 1x1 full-screen renderer with a full refresh pending. */
    constructor ()
      ensures Valid() && fresh(next) && fresh(prev)
      ensures termSize == (1, 1) && config == FullScreen && fullRefresh
      ensures next.cells == [[Blank]] && prev.cells == [[Blank]] && next.cursor == None && prev.cursor == None
    {
      termSize := (1, 1);
      config := FullScreen;
      next := new VirtualBuffer(1, 1);
      prev := new VirtualBuffer(1, 1);
      fullRefresh := true;
    }

    /** Switches to a bottom region of `lines` rows, not yet anchored. */
    method SetBottomScreen(lines: nat)
      modifies this
      ensures config == BottomScreen(lines, None)
      ensures termSize == old(termSize) && next == old(next) && prev == old(prev) && fullRefresh == old(fullRefresh)
    {
      config := BottomScreen(lines, None);
    }

    function Width(): nat
      reads this
    {
      termSize.0
    }

    function Height(): nat
      reads this
    {
      RegionHeight(config, termSize.1)
    }

    /**
      Records the new terminal size, moves a pulled-up anchor by the change in
      height, resizes both buffers to the region and asks for a full refresh.
     */
    method OnResize(x: nat, y: nat)
      requires Valid()
      requires ShiftDefined(config, termSize.1, y)
      modifies this, next, prev
      ensures Valid() && next == old(next) && prev == old(prev)
      ensures termSize == (x, y)
      ensures config == ShiftAnchor(old(config), old(termSize).1, y)
      ensures fullRefresh
      ensures next.width == x && next.height == Height()
      ensures next.cursor == old(next.cursor) && prev.cursor == old(prev.cursor)
      ensures next.cells == ResizedGrid(old(next.cells), x, Height())
      ensures prev.cells == ResizedGrid(old(prev.cells), x, Height())
    {
      var prevHeight := termSize.1;
      termSize := (x, y);
      config := ShiftAnchor(config, prevHeight, y);
      var h := RegionHeight(config, y);
      next.Resize(x, h);
      prev.Resize(x, h);
      fullRefresh := true;
    }

    /** Only a resize event changes the renderer. */
    method HandleEvent(ev: Event)
      requires Valid()
      requires ev.Resize? ==> ShiftDefined(config, termSize.1, ev.rows)
      modifies this, next, prev
      ensures Valid() && next == old(next) && prev == old(prev)
      ensures !ev.Resize? ==>
        && termSize == old(termSize) && config == old(config) && fullRefresh == old(fullRefresh)
        && unchanged(next) && unchanged(prev)
      ensures ev.Resize? ==>
        && termSize == (ev.columns, ev.rows) && config == ShiftAnchor(old(config), old(termSize).1, ev.rows)
        && fullRefresh && next.width == ev.columns && next.height == Height()
        && next.cursor == old(next.cursor) && prev.cursor == old(prev.cursor)
        && next.cells == ResizedGrid(old(next.cells), ev.columns, Height())
        && prev.cells == ResizedGrid(old(prev.cells), ev.columns, Height())
    {
      match ev
      case Resize(x, y) => OnResize(x, y);
      case _ =>
    }

    /**
      Draws `s` from column `x` of row `y` of `next`, up to the first
      character that does not fit, and returns the columns it took.
     */
    method DrawStr(x: nat, y: nat, s: string, style: ContentStyle) returns (w: nat)
      requires Valid()
      modifies next
      ensures Valid()
      ensures next.width == old(next.width) && next.height == old(next.height) && next.cursor == old(next.cursor)
      ensures y < next.height ==>
        && w == DrawnWidth(x, s, next.width)
        && next.cells == old(next.cells)[y := DrawRow(old(next.cells)[y], x, s, style)]
      ensures y >= next.height ==> w == 0 && next.cells == old(next.cells)
    {
      var cx := x;
      var i := 0;
      while i < |s|
        invariant 0 <= i <= |s| && x <= cx
        invariant Valid()
        invariant next.width == old(next.width) && next.height == old(next.height) && next.cursor == old(next.cursor)
        invariant y < next.height ==>
          && DrawnWidth(x, s, next.width) == (cx - x) + DrawnWidth(cx, s[i..], next.width)
          && DrawRow(old(next.cells)[y], x, s, style) == DrawRow(next.cells[y], cx, s[i..], style)
          && next.cells == old(next.cells)[y := next.cells[y]]
        invariant y >= next.height ==> cx == x && next.cells == old(next.cells)
      {
        var r := next.Putchar(cx, y, s[i], style);
        if r.None? {
          assert s[i..][0] == s[i];
          break;
        }
        assert s[i..][0] == s[i] && s[i..][1..] == s[i + 1..];
        cx := cx + r.value;
        i := i + 1;
      }
      w := cx - x;
    }

    /** Draws an ansi_term string: its text in its converted colours. */
    method DrawAnsi(x: nat, y: nat, s: AnsiString) returns (w: nat)
      requires Valid()
      modifies next
      ensures Valid()
      ensures next.width == old(next.width) && next.height == old(next.height) && next.cursor == old(next.cursor)
      ensures y < next.height ==>
        && w == DrawnWidth(x, s.text, next.width)
        && next.cells == old(next.cells)[y := DrawRow(old(next.cells)[y], x, s.text, StyleOfAnsi(s.style))]
      ensures y >= next.height ==> w == 0 && next.cells == old(next.cells)
    {
      w := DrawStr(x, y, s.text, StyleOfAnsi(s.style));
    }

    /** Draws ansi_term strings one after the other and returns the columns they took together. */
    method DrawAnsis(x: nat, y: nat, parts: seq<AnsiString>) returns (w: nat)
      requires Valid()
      modifies next
      ensures Valid()
      ensures next.width == old(next.width) && next.height == old(next.height) && next.cursor == old(next.cursor)
      ensures y < next.height ==>
        && w == RunsWidth(x, AnsiRuns(parts), next.width)
        && next.cells == old(next.cells)[y := RunsRow(old(next.cells)[y], x, AnsiRuns(parts))]
      ensures y >= next.height ==> w == 0 && next.cells == old(next.cells)
    {
      var runs := AnsiRuns(parts);
      var cx: nat := x;
      assert runs[..0] == [];
      for i := 0 to |parts|
        invariant Valid()
        invariant next.width == old(next.width) && next.height == old(next.height) && next.cursor == old(next.cursor)
        invariant x <= cx && RunsDrawn(old(next.cells), next.cells, y, x, runs[..i], next.width, cx - x)
      {
        ghost var mid := next.cells;
        assert runs[i] == TextRun(parts[i].text, StyleOfAnsi(parts[i].style));
        var d := DrawAnsi(cx, y, parts[i]);
        RunsDrawnStep(old(next.cells), mid, next.cells, y, x, runs, i, next.width, cx - x, d);
        cx := cx + d;
      }
      assert runs[..|parts|] == runs;
      w := cx - x;
    }

    /** Draws any drawable from column `x` of row `y`. */
    method Draw(x: nat, y: nat, d: Drawable) returns (w: nat)
      requires Valid()
      modifies next
      ensures Valid()
      ensures next.width == old(next.width) && next.height == old(next.height) && next.cursor == old(next.cursor)
      ensures y < next.height ==>
        && w == RunsWidth(x, RunsOf(d), next.width)
        && next.cells == old(next.cells)[y := RunsRow(old(next.cells)[y], x, RunsOf(d))]
      ensures y >= next.height ==> w == 0 && next.cells == old(next.cells)
    {
      match d
      case Styled(t, s) => w := DrawStr(x, y, t, s);
      case Plain(t) => w := DrawStr(x, y, t, DefaultStyle);
      case Ansi(a) => w := DrawAnsi(x, y, a);
      case Ansis(parts) => w := DrawAnsis(x, y, parts);
    }

    /** Sets where the cursor goes at the end of the frame, or that it is hidden. */
    method SetCursor(info: Option<(nat, nat)>)
      modifies next
      ensures next.cursor == info
      ensures next.cells == old(next.cells) && next.width == old(next.width) && next.height == old(next.height)
    {
      next.cursor := info;
    }

    /** Starts a frame: `next` becomes blank with no cursor; `prev` is left alone. */
    method Begin()
      requires Valid()
      modifies next
      ensures Valid()
      ensures next.width == old(next.width) && next.height == old(next.height) && next.cursor == None
      ensures forall y, x :: 0 <= y < next.height && 0 <= x < next.width ==> next.cells[y][x] == Blank
    {
      next.Clear();
    }

    /**
      Flushes a frame: returns the commands that repaint the rows of `next`
      that changed (all rows when a full refresh is pending) at the region's
      top row and then place or hide the cursor; clears the pending refresh
      and swaps the buffers.
     */
    method End() returns (cmds: seq<Command>)
      requires Valid()
      modifies this
      ensures Valid()
      ensures cmds == FrameCommands(old(next.cells), old(prev.cells), old(fullRefresh),
                                    TopRow(old(config), old(termSize).1), old(next.cursor))
      ensures !fullRefresh && next == old(prev) && prev == old(next)
      ensures termSize == old(termSize) && config == old(config)
    {
      var top := TopRow(config, termSize.1);
      var body := PaintRows(next.cells, prev.cells, fullRefresh, top);
      cmds := body + CursorCommands(next.cursor, top);
      fullRefresh := false;
      next, prev := prev, next;
    }
  }
}
