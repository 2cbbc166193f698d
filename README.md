# masof core in Dafny

A model of the three core pieces of `masof`, a small terminal user-interface
library built on crossterm:

- **The double-buffering renderer** (`src/renderer.rs`).
  - An application composes each frame into a *next* virtual buffer, a grid
    of cells. Each cell holds one character (its display width and its
    style) or the placeholder that fills the second column of a wide
    character.
  - The renderer then compares the frame with the *previous* buffer. It
    emits terminal commands only for the rows that changed, and for every
    row when a full refresh is pending.
  - It then places or hides the cursor and swaps the two buffers.
  - The screen is either the full terminal or a region of a few lines
    anchored at the bottom. A resize moves a region that was pushed
    against the bottom so that it stays there.
- **The key resolver** (`src/keyaction.rs`).
  - A key map binds key combinations to actions. A combination is either
    an exact key plus modifiers, or "any character" plus modifiers.
  - Resolving a key event looks up the exact combination first. For
    character keys it falls back to the wildcard under the same modifiers.
  - The map can describe itself as a legend: one line per action, in the
    actions' order.
- **The line editor** (`src/readline.rs`).
  - It holds a single-line text buffer and a cursor.
  - It applies editing actions: insert, delete back or forward, move by
    character or by word, delete a word back, go to the line's start or
    end, and completion (which does nothing).
  - It has a default key map binding keys to those actions.

## Modules

- `Optional` (`optional.dfy`): the `Option` type.
- `Cells` (`cells.dfy`): the data model.
  - styles and cells;
  - a character's display width;
  - what writing a glyph and drawing a string do to a row;
  - the well-formedness of a row;
  - the `VirtualBuffer` class.
- `Frames` (`frames.dfy`): the commands a frame flush emits.
  - `FrameCommands`, the diff as a function of the two grids;
  - a small terminal model (`Terminal`, `Step`, `Run`), against which the
    effect of those commands is proved.
- `Rendering` (`renderer.dfy`): the `Renderer` class.
  - the region geometry and the anchor shift on resize;
  - the ansi_term colour conversion;
  - drawing runs of text;
  - the methods `Begin`, `Draw*`, `SetCursor` and `End`.
- `Keys` (`keyaction.dfy`): the key side.
  - key combinations and their display form, with a parser that inverts
    it;
  - `Resolve`;
  - the `KeyMap` and `KeyTree` classes;
  - the legend of `describe`.
- `ReadLines` (`readline.dfy`): the line editor.
  - word boundaries;
  - the effect of each action as the function `Applied`;
  - the `ReadLine` class;
  - the default key map.

The terminal is modelled as data, not as I/O. `Renderer.End` returns the
sequence of crossterm commands it would queue. `Frames.Run` gives those
commands a meaning: the glyphs printed at each position, the current
rendition, and the cursor's position and visibility.

## Behaviour of the code worth noting

- **Orphaned placeholders.** `putchar` writes a character's cell and the
  placeholders of its own width, and nothing else. Writing a narrow
  character over the first column of a wide one therefore leaves an
  orphaned placeholder behind (`Cells.NarrowOverWideOrphansPlaceholder`).
  `Cells.WriteGlyphKeepsWellFormed` states when a write preserves a
  well-formed row.
- **The `<char>` placeholder in `describe`.** A wildcard combination
  contributes `<char>` to its action's line only when no key of that
  action has been listed yet in the map's iteration order. So `<char>`
  appears at most once, and only first (`Keys.PlaceholderAtMostFirst`).
  It is dropped when an exact key of the same action was visited first.
- **Resizing keeps content.** `resize` uses `Vec::resize`, which keeps
  every cell that lies inside both the old and the new geometry. Only the
  added cells are blank (`Cells.VirtualBuffer.Resize`). The full refresh
  that `on_resize` requests repaints them all anyway.
- **Style state at the start of a frame.** `end` starts every frame's diff
  from the default style, but never puts the terminal back into it. See
  "## Findings".
- **An unchanged frame still places the cursor.** When no refresh is
  pending and no row changed, `end` emits no drawing commands. It still
  queues a `MoveTo` and `Show`, or a `Hide`, on every flush
  (`Frames.UnchangedFrameOnlyPlacesCursor`).
- **The editor's cursor.** It indexes the text's bytes, as in the code.
  The model takes the text to be one character per byte (see Left out).

## Model

| member | source | states |
|---|---|---|
| Cells.CharWidth | src/renderer.rs:37-43 | a character's display width is 1 or 2 |
| Cells.ResizedGrid | src/renderer.rs:76-89 | definition: the grid after `resize`, the row list resized to `h` with empty rows, then every row resized to `w` with blanks |
| Cells.ResizedGridCells | src/renderer.rs:81-85 | a resized grid has `h` rows of `w` cells; a cell inside both geometries keeps its value, any other is blank |
| Cells.ResizedGridOfSameShape | src/renderer.rs:76-89 | resizing a grid to the dimensions it already has changes nothing |
| Cells.Resized | src/renderer.rs:81-85 | `Vec::resize`: the result has the new length, keeps the old prefix and fills the rest |
| Cells.WriteGlyph | src/renderer.rs:139-146 | definition: the row after `putchar` stores a glyph at `x` and placeholders after it; its ensures keeps the row length |
| Cells.WriteGlyphCells | src/renderer.rs:139-146 | writing a glyph puts its content at `x`, placeholders on the following `width-1` columns, and leaves every other cell alone |
| Cells.WriteGlyphKeepsWellFormed | src/renderer.rs:130-147 | a write keeps a row well formed when it starts on a glyph and ends before a glyph or at the edge |
| Cells.NarrowOverWideOrphansPlaceholder | src/renderer.rs:139-146 | a narrow character written over a wide one leaves an orphaned placeholder (the row stops being well formed) |
| Cells.DrawnWidth | src/renderer.rs:322-333 | definition: the columns `draw_str` advances, character by character, until one would cross the right edge |
| Cells.DrawRow | src/renderer.rs:322-333 | drawing a string leaves the row's length unchanged |
| Cells.FittingCount | src/renderer.rs:324-330 | only a bound: at most the string's length are drawn; what the count means is stated by `DrawnWidthIsFittingPrefix` and `FittingPrefixIsLongest` |
| Cells.DrawnWidthIsFittingPrefix | src/renderer.rs:322-333 | the width returned by `draw_str` is the total width of the prefix that fits from `x` |
| Cells.FittingPrefixIsLongest | src/renderer.rs:324-330 | drawing stops only at a character that would cross the right edge: the prefix is the longest that fits |
| Cells.DrawRowFrame | src/renderer.rs:322-333 | a non-empty drawing ends within the row, and no cell outside `[x, x+w)` changes |
| Cells.VirtualBuffer.constructor | src/renderer.rs:66-74 | records the dimensions over a single blank cell; valid only at 1×1 |
| Cells.VirtualBuffer.Resize | src/renderer.rs:76-89 | same size: nothing changes; otherwise exactly `h` rows of `w` cells, cells in both geometries kept, the rest blank; from a valid buffer, the cells are `ResizedGrid` of the old ones |
| Cells.VirtualBuffer.Clear | src/renderer.rs:91-99 | every cell blank in the default style, cursor cleared, dimensions kept |
| Cells.VirtualBuffer.Putchar | src/renderer.rs:130-147 | `None` and no change when the glyph would cross the right edge or the row is missing; else its width, with the row rewritten by `WriteGlyph` of `MakeContent` (the character, its `CharWidth` and the style) |
| Frames.StyleChange | src/renderer.rs:414-439 | definition: one command per component that differs, background then foreground then attributes, an absent colour sent as `Reset` |
| Frames.CellCommands | src/renderer.rs:412-443 | definition: a content cell switches style only when its style differs, then prints its character; a placeholder emits nothing |
| Frames.RowCommands | src/renderer.rs:411-444 | definition: the commands of a row's cells in order, the active style carried from cell to cell |
| Frames.RowStyle | src/renderer.rs:438 | definition: the active style after a row |
| Frames.Repaints | src/renderer.rs:402-405 | definition: a row is repainted when a full refresh is pending or it differs from the previous frame's row |
| Frames.FrameBody | src/renderer.rs:401-445 | definition: for each repainted row in order, a move to its start at `top + y` and its row commands; the active style starts at the default and is carried across rows |
| Frames.FrameStyle | src/renderer.rs:399 | definition: the active style after the first `n` rows, starting at the default |
| Frames.CursorCommands | src/renderer.rs:447-452 | definition: move to the cursor offset by the region's top and show it, or hide it |
| Frames.FrameCommands | src/renderer.rs:386-453 | definition: the frame body followed by the cursor commands |
| Frames.StyleChangeEmptyIffEqual | src/renderer.rs:414-439 | no style command is emitted exactly when the wanted style equals the current one |
| Frames.StyleChangeHasNoMovesOrPrints | src/renderer.rs:414-439 | a style change neither moves the cursor nor prints |
| Frames.StyleChangeSwitchesRendition | src/renderer.rs:414-439 | a style change takes the terminal from the current style's rendition to the wanted one and changes nothing else |
| Frames.RowCommandsPrintContent | src/renderer.rs:411-444 | a repainted row has no cursor moves and prints exactly the row's content characters, placeholders skipped |
| Frames.RowRepaintEffect | src/renderer.rs:411-444 | running a row's commands prints each content cell in its style from the cursor on and leaves the rendition of the row's last style |
| Frames.FrameBodyRepaintsChangedRows | src/renderer.rs:401-445 | the frame body moves to column 0 of exactly the repainted rows (changed rows, or all rows on full refresh), in order, and prints their content |
| Frames.UnchangedFrameOnlyPlacesCursor | src/renderer.rs:401-405 | with no full refresh pending and no row changed, the frame body is empty |
| Frames.FullRefreshRepaintsEveryRow | src/renderer.rs:401-407 | a full refresh moves to every row, the y-th move going to `(0, top + y)` |
| Frames.PrintedWidthAtBoundary | src/renderer.rs:411-444 | in a well-formed row, the glyphs printed before a glyph boundary `x` take exactly `x` columns |
| Frames.WellFormedRowPrintsInPlace | src/renderer.rs:411-444 | printing a well-formed row from column 0 puts every glyph at its own cell's column |
| Frames.FrameBodyEffect | src/renderer.rs:399-445 | assuming the default rendition at the start and well-formed rows, the frame body prints exactly the expected glyphs of the repainted rows at their screen rows, leaves the last style's rendition and does not touch cursor visibility |
| Frames.FrameDrawsRepaintedRows | src/renderer.rs:386-453 | assuming the default rendition at the start and well-formed rows: after the whole flush the terminal shows the repainted rows' glyphs in place, the cursor is shown at the region-relative position or hidden, and the terminal is left in the frame's last style |
| Frames.StaleStyleLeaksIntoNextFrame | src/renderer.rs:399-440 | as written: after a frame ending in red, the next frame prints its default-style 'b' in red, not as expected |
| Frames.TrackedFrameCommands | src/renderer.rs:386-453 | definition of the corrected flush: switch from the style the previous flush left to the default, then the flush as written |
| Frames.TrackedFramesDraw | src/renderer.rs:386-453 | from a terminal in the style the previous flush left, the corrected flush draws the repainted rows in place and in their styles, places or hides the cursor, and leaves the style it hands on |
| Frames.RunAppend | src/renderer.rs:386-453 | running two command sequences one after the other is running their concatenation |
| Rendering.RegionHeight | src/renderer.rs:210-215 | the drawable height never exceeds the terminal; a bottom region never exceeds its line count |
| Rendering.TopRow | src/renderer.rs:387-395 | definition: row 0 in full screen; for a bottom region, its anchor row pulled up so that the region fits |
| Rendering.RegionFits | src/renderer.rs:387-395 | the region's top row plus its height fits on the terminal; full screen starts at row 0 and covers it; a bottom region sits at its anchor or against the bottom |
| Rendering.ShiftAnchor | src/renderer.rs:285-301 | definition: a bottom anchor that had been pulled up moves by the change in height; any other configuration is kept |
| Rendering.ShiftAnchorKeepsBottomRegion | src/renderer.rs:285-301 | on resize, an anchor that was pulled up moves by the change in height, so the region stays against the bottom; any other anchor stays put |
| Rendering.RunsWidth | src/renderer.rs:367-375 | definition: the runs' drawn widths added up, each run starting where the previous one stopped |
| Rendering.RunsRow | src/renderer.rs:367-375 | drawing a sequence of runs keeps the row's length |
| Rendering.RunsStayInRange | src/renderer.rs:367-375 | runs drawn from `x` end within the row and change no cell outside `[x, x+w)` |
| Rendering.ConvertColour | src/renderer.rs:339-352 | definition: the ansi_term colour to crossterm colour table, `Purple` to `Magenta` |
| Rendering.StyleOfAnsi | src/renderer.rs:354-362 | definition: the converted background and foreground, with no attributes |
| Rendering.ConvertColourInjective | src/renderer.rs:339-352 | the ansi_term to crossterm colour conversion is injective |
| Rendering.StyleOfAnsiIgnoresEffects | src/renderer.rs:354-362 | two ansi_term styles convert to the same style exactly when their colours agree: effects are dropped |
| Rendering.RunsWidthIgnoresStyle | src/renderer.rs:367-375 | the columns a sequence of runs takes depends only on their texts, never on their styles |
| Rendering.AnsiRunsWidth | src/renderer.rs:367-375 | `draw_ansis` takes as many columns as drawing the same texts in the default style |
| Rendering.PaintRow | src/renderer.rs:411-444 | the row loop emits the row's commands and ends in the row's last style |
| Rendering.PaintRows | src/renderer.rs:401-445 | the frame loop emits the frame body |
| Rendering.Renderer.constructor | src/renderer.rs:117-127 | a 1×1 full-screen renderer with a full refresh pending and two fresh 1×1 blank buffers |
| Rendering.Renderer.SetBottomScreen | src/renderer.rs:201-204 | switches to a bottom region of `lines` lines with no anchor, changing nothing else |
| Rendering.Renderer.OnResize | src/renderer.rs:281-307 | records the terminal size, shifts the anchor, requests a full refresh, and resizes both buffers to the region: their cells become `ResizedGrid` of the old ones, their cursors are kept |
| Rendering.Renderer.HandleEvent | src/renderer.rs:309-316 | a resize event acts as `on_resize`, buffer cells included; any other event changes nothing |
| Rendering.Renderer.DrawStr | src/renderer.rs:322-333 | row `y` of `next` becomes the drawn row and the drawn width is returned; nothing changes for a missing row |
| Rendering.Renderer.DrawAnsi | src/renderer.rs:335-365 | draws the text in the converted style, as `DrawStr` |
| Rendering.Renderer.DrawAnsis | src/renderer.rs:367-375 | draws the parts one after another, each from where the previous ended, in its converted style (`AnsiRuns`), and returns the total width |
| Rendering.Renderer.Draw | src/renderer.rs:150-193 | each kind of drawable draws its runs with the matching method |
| Rendering.Renderer.SetCursor | src/renderer.rs:377-379 | sets the frame's cursor and changes nothing else |
| Rendering.Renderer.Begin | src/renderer.rs:381-384 | `next` becomes blank with no cursor |
| Rendering.Renderer.End | src/renderer.rs:386-459 | returns the frame's commands for the region's top row, clears the pending refresh and swaps the buffers |
| Keys.ShiftFlagIsWithShift | src/keyaction.rs:15-20 | a key event with the shift flag added is read as the modifiers `shift()` produces |
| Keys.ControlFlagIsWithCtrl | src/keyaction.rs:22-25 | a key event with the control flag added is read as the modifiers `ctrl()` produces |
| Keys.Display | src/keyaction.rs:35-76 | definition: `C-`, `M-`, `S-` prefixes in that order, then the key's name; a wildcard displays as `?` |
| Keys.NatToStringRoundTrip | src/keyaction.rs:35-76 | a function-key number's decimal form reads back as the number |
| Keys.KeyNameRoundTrip | src/keyaction.rs:35-76 | every key's display name parses back to that key |
| Keys.StripModifiersRoundTrip | src/keyaction.rs:35-76 | the modifier prefixes `C-`, `M-`, `S-` parse back to the modifiers that produced them |
| Keys.DisplayRoundTrip | src/keyaction.rs:35-76 | the display of an exact combination parses back to that combination |
| Keys.DisplayInjective | src/keyaction.rs:35-76 | distinct exact combinations display differently |
| Keys.Labels | src/keyaction.rs:163-176 | definition: a legend line's entries in visiting order; an exact key adds its display, a wildcard adds `<char>` only while the list is empty |
| Keys.LegendLine | src/keyaction.rs:177-183 | definition: four spaces, the entries joined by ` / ` padded to 17, two spaces, `- ` and the action's name, then a newline |
| Keys.PlaceholderAtMostFirst | src/keyaction.rs:162-176 | `<char>` appears on a legend line only first, and exactly when the action's first visited key is a wildcard |
| Keys.LabelsShape | src/keyaction.rs:162-176 | a legend line lists the displays of the action's exact keys in visiting order, preceded by `<char>` when a wildcard was visited first |
| Keys.PadRight | src/keyaction.rs:177-183 | padding to a width keeps the string as a prefix and fills with spaces up to that width |
| Keys.KeysFor | src/keyaction.rs:152-160 | definition: the keys bound to an action, in visiting order |
| Keys.KeysForMembers | src/keyaction.rs:152-160 | the keys grouped under an action are exactly the listed keys bound to it |
| Keys.Ascending | src/keyaction.rs:162 | the bound actions listed once each in strictly ascending order |
| Keys.Legend | src/keyaction.rs:149-186 | definition: the lines of the bound actions in ascending order, then an empty line |
| Keys.Resolve | src/keyaction.rs:128-147 | an action is found iff the exact combination or, for a character key, the wildcard is bound; the exact binding wins, else the wildcard's |
| Keys.ModifiedBindingsResolve | src/keyaction.rs:104-116 | a key bound with `add_shift` (or `add_ctrl`) is what an event of that key with only shift (or only control) resolves to |
| Keys.KeyMap.GetAction | src/keyaction.rs:128-147 | definition: `Resolve` over the map's bindings |
| Keys.KeyMap.constructor | src/keyaction.rs:88-93 | an empty map |
| Keys.KeyMap.AddNoMods | src/keyaction.rs:99-102 | binds the key with no modifiers, overriding an earlier binding |
| Keys.KeyMap.AddCtrl | src/keyaction.rs:104-109 | binds the key with ctrl alone (`WithCtrl` of no modifiers) |
| Keys.KeyMap.AddShift | src/keyaction.rs:111-116 | binds the key with shift alone (`WithShift` of no modifiers) |
| Keys.KeyMap.AddCharNoHandler | src/keyaction.rs:118-121 | binds any character with no modifiers |
| Keys.KeyMap.AddCharShift | src/keyaction.rs:123-126 | binds any character with shift |
| Keys.KeyMap.Describe | src/keyaction.rs:149-186 | the text is the legend: one line per bound action in ascending order with its keys in visiting order, then an empty line |
| Keys.GroupByAction | src/keyaction.rs:152-160 | the groups are keyed by exactly the bound actions, each holding that action's keys in visiting order |
| Keys.LegendOfGroups | src/keyaction.rs:162-184 | writes the lines for the groups in ascending action order |
| Keys.LabelsOf | src/keyaction.rs:163-176 | the labels loop computes `Labels` |
| Keys.KeyTree.constructor | src/keyaction.rs:208-211 | a tree over an empty fresh key map |
| Keys.KeyTree.AddVector | src/keyaction.rs:217 | registering a key sequence changes nothing |
| Keys.KeyTree.AddNoMods | src/keyaction.rs:219-221 | binds the key with no modifiers to a leaf |
| Keys.KeyTree.AddCtrl | src/keyaction.rs:223-225 | binds the key with ctrl to a leaf |
| Keys.KeyTree.AddShift | src/keyaction.rs:227-229 | binds the key with shift to a leaf |
| Keys.KeyTree.AddCharNoHandler | src/keyaction.rs:231-233 | binds any character with no modifiers to a leaf |
| Keys.KeyTree.AddCharShift | src/keyaction.rs:235-237 | binds any character with shift to a leaf |
| ReadLines.Clamped | src/readline.rs:102-104 | the effective cursor is the stored one or the text's end, whichever is smaller |
| ReadLines.WordStart | src/readline.rs:173-194 | definition: position 0, or a non-space right after a space |
| ReadLines.PrevWordStart | src/readline.rs:170-198 | definition: the nearest word start before the cursor, none at 0; its ensures puts the result before the cursor |
| ReadLines.WordStop | src/readline.rs:203-219 | definition: the end of the text, or a non-space right after a space |
| ReadLines.NextWordStop | src/readline.rs:200-223 | definition: the first stop after the cursor, none at the end |
| ReadLines.PrevWordStartIsLast | src/readline.rs:170-198 | a word-left target exists iff the cursor is not at 0; it is the last word start before the cursor |
| ReadLines.NextWordStopIsFirst | src/readline.rs:200-223 | a word-right target exists iff the cursor is not at the end; it is the first stop (start of a word after spaces, or the end) after the cursor |
| ReadLines.PrevWordStartUnique | src/readline.rs:170-198 | any word start before the cursor with none in between is the word-left target |
| ReadLines.FirstStopUnique | src/readline.rs:200-223 | any stop with none before it is the word-right target |
| ReadLines.Applied | src/readline.rs:106-168 | definition: the text and stored cursor after each action, the cursor clamped to the text first as `cursor()` does |
| ReadLines.AppliedKeepsCursorInText | src/readline.rs:106-168 | from a cursor within the text, no action moves it past the end |
| ReadLines.InsertThenBackDelete | src/readline.rs:108-123 | inserting a character and deleting back restores the text and the cursor |
| ReadLines.BackDeleteThenReinsert | src/readline.rs:108-123 | deleting back and then typing the deleted character again restores the text and the cursor, for every text and cursor after its start |
| ReadLines.DeleteCharRemovesOne | src/readline.rs:124-131 | delete removes the character under the cursor and keeps the cursor |
| ReadLines.BackDeleteRemovesOne | src/readline.rs:116-123 | backspace removes the character before the cursor and moves onto its place |
| ReadLines.MotionsKeepText | src/readline.rs:132-166 | motions and completion keep the text; left, right, home and end move the cursor as named |
| ReadLines.DelBackWordRemovesWord | src/readline.rs:148-155 | deleting a word back removes exactly the text from the previous word start to the cursor and leaves the cursor there |
| ReadLines.DelBackWordAtStart | src/readline.rs:148-155 | at the line's start, deleting a word back changes nothing |
| ReadLines.ReadLine.constructor | src/readline.rs:70-76 | an empty text with cursor and scroll at 0 |
| ReadLines.ReadLine.GetCursor | src/readline.rs:98-100 | the screen column plus the scroll is the cursor |
| ReadLines.ReadLine.LeftWordOffset | src/readline.rs:170-198 | the two scanning loops compute the previous word start from the effective cursor |
| ReadLines.ReadLine.RightWordOffset | src/readline.rs:200-223 | the two scanning loops compute the next word stop from the effective cursor |
| ReadLines.ReadLine.ApplyAction | src/readline.rs:106-168 | the new text and cursor are `Applied` of the old ones; a cursor within the text stays within it |
| ReadLines.DefaultBindings | src/readline.rs:41-58 | definition: the twelve bindings the default key map adds |
| ReadLines.DefaultAction | src/readline.rs:41-58 | definition: the default action of a key event, stated by key and modifiers |
| ReadLines.DefaultBindingsResolve | src/readline.rs:41-58 | resolving any event in the default bindings gives the default action for it |
| ReadLines.DefaultKeyMap | src/readline.rs:41-58 | the default key map holds exactly the default bindings and resolves every event to its default action |
| ReadLines.OtherCtrlCharsUnbound | src/readline.rs:41-58 | ctrl with any character other than `w` is unbound |

## Findings

| source | as written | input that shows it | evidently intended | confidence | as-written member | corrected member |
|---|---|---|---|---|---|---|
| src/renderer.rs:399 | each flush starts its diff from the default style, but the terminal is still in the style the previous flush ended with | a frame whose last cell is a red 'a', then a frame of one default-style 'b': the 'b' is printed red | the diff starts from the style the terminal is really in, or the terminal is switched back to the default first | high (not executed) | Frames.StaleStyleLeaksIntoNextFrame | Frames.TrackedFramesDraw |

The renderer (`Rendering.Renderer.End`) models the code as written and returns `FrameCommands`. `Frames.TrackedFrameCommands` prefixes a switch from the style the previous flush left, which `FrameStyle` gives, to the default style.

## Left out

- Terminal I/O: `term_on`, `term_off`, raw mode, the alternate screen, `flush` and the `Error` enum. `End` returns the commands it would queue instead of writing them, and cannot fail.
- `term_on`'s reading of the cursor position, which sets the bottom region's anchor. The anchor is a value set by the caller (`Config`).
- Cells.CharWidth: the Unicode width table is reduced to the main East-Asian wide ranges. Zero-width characters are modelled as width 1.
- u16 arithmetic. Coordinates are unbounded naturals. Two additions can overflow in the source and are not modelled: the anchor shift `position.1 += self.term_size.1` in `on_resize` (src/renderer.rs:294), and the cursor row `position.1 + top_left.1` in `end` (src/renderer.rs:447).
- Rendering.Renderer.OnResize: requires that the anchor shift does not underflow. The source's `u16` subtraction would panic or wrap there.
- ReadLines.ReadLine.ApplyAction: does not model the `as u16` truncation of the cursor.
- The editor's text is taken to be one character per byte. The source slices its `String` by a byte index and counts its word offsets in chars, so multi-byte text can panic or misplace the cursor. That case is not modelled.
- `ReadLine::draw`, the `strval` accessor, the style map `DEF_STYLE_MAP`, and `lazy_static` initialisation. Drawing the line only forwards to the renderer. Nothing changes `h_scroll`, so it stays 0 (`ReadLine.Valid`).
- Key modifiers other than ctrl, alt and shift (the resolver reads only those three). Function-key numbers are unbounded naturals rather than `u8`.
- Keys.KeyMap.Describe: the `HashMap` iteration order is the parameter `order`; the actions' `Ord` is an injective `rank`; their `Display` is `name`.
- Rendering.StyleOfAnsi: ansi_term's effects (bold and so on) are dropped, as in the source.
- Frames.Step: `SetAttrs` replaces the terminal's attribute set, an idealised terminal. crossterm's `SetAttributes` only switches on the attributes it lists, so on a real terminal `end` never switches an attribute off. The effect lemmas hold for the idealised terminal only. The terminal model also has no scrolling and no line wrapping.
- Frames.FrameBodyEffect: assumes that the terminal is in the default rendition when the frame starts and that every row of `next` is well formed. The source establishes neither. `end` does not restore the default style between frames (see "## Findings"), and `putchar` can orphan a placeholder (`Cells.NarrowOverWideOrphansPlaceholder`).
- Frames.FrameDrawsRepaintedRows: makes the same two assumptions as `Frames.FrameBodyEffect`.
- The `bottom_screen` builder is `SetBottomScreen`. The `Drawable` trait is the datatype `Drawable`, with one case per implementation.
- `KeyTree` is modelled as far as the source implements it: `add_vector` is an empty stub, so chorded sequences are not modelled.
- The example application and `lib.rs` re-exports are not part of this model.
