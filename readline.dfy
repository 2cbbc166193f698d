/**
  The single-line editor widget: a text, a cursor, and the editing actions
  a resolved key event applies to them.

  The text is a sequence of characters and the cursor an index into it.
  The editor slices its text by byte offsets and walks words by character
  index; both agree on ASCII text, which is what this model assumes.
 */
module ReadLines {
  import opened Optional
  import Keys

  /** The editing actions a key can be bound to. */
  datatype Action =
    | BackDeleteChar
    | DeleteChar
    | LeftChar
    | LeftWord
    | RightChar
    | RightWord
    | DelBackWord
    | GotoLineStart
    | GotoLineEnd
    | InsertChar
    | Complete

  /** The cursor as the editing actions use it: the stored cursor, but never past the end of the text. */
  function Clamped(text: string, cursor: nat): (c: nat)
    ensures c <= |text| && c <= cursor
    ensures c == cursor || c == |text|
  {
    if cursor < |text| then cursor else |text|
  }

  // ---------------------------------------------------------------------
  // Word boundaries
  // ---------------------------------------------------------------------

  /** Index `k` starts a word: it is the first index, or a non-space right after a space. */
  predicate WordStart(text: string, k: nat)
    requires k < |text|
  {
    k == 0 || (text[k] != ' ' && text[k - 1] == ' ')
  }

  /** Index `k` is where a rightward word motion may stop: the end of the text, or the start of a word. */
  predicate WordStop(text: string, k: nat)
    requires k <= |text|
  {
    k == |text| || (0 < k && text[k] != ' ' && text[k - 1] == ' ')
  }

  /** The last word start before `c`, or None when `c` is the first index. */
  function PrevWordStart(text: string, c: nat): (r: Option<nat>)
    requires c <= |text|
    ensures r.Some? ==> r.value < c
    decreases c
  {
    if c == 0 then None
    else if WordStart(text, c - 1) then Some(c - 1)
    else PrevWordStart(text, c - 1)
  }

  /** The first stop at or after `k`. */
  function FirstStop(text: string, k: nat): (r: nat)
    requires 0 < k <= |text|
    ensures k <= r <= |text|
    decreases |text| - k
  {
    if WordStop(text, k) then k else FirstStop(text, k + 1)
  }

  /** The first stop after `c`, or None when `c` is at the end of the text. */
  function NextWordStop(text: string, c: nat): Option<nat>
    requires c <= |text|
  {
    if c >= |text| then None else Some(FirstStop(text, c + 1))
  }

  /**
    Moving a word left from `c` fails only at the first index; otherwise it
    lands on a word start before `c` with no other word start in between.
   */
  lemma {:induction false} PrevWordStartIsLast(text: string, c: nat)
    requires c <= |text|
    ensures PrevWordStart(text, c).None? <==> c == 0
    ensures PrevWordStart(text, c).Some? ==>
      var r := PrevWordStart(text, c).value;
      && r < c && WordStart(text, r)
      && forall k :: r < k < c ==> !WordStart(text, k)
    decreases c
  {
    if c > 0 && !WordStart(text, c - 1) {
      PrevWordStartIsLast(text, c - 1);
    }
  }

  /** A word start before `c` with no other word start in between is the one `PrevWordStart` finds. */
  lemma {:induction false} PrevWordStartUnique(text: string, c: nat, r: nat)
    requires r < c <= |text| && WordStart(text, r)
    requires forall k :: r < k < c ==> !WordStart(text, k)
    ensures PrevWordStart(text, c) == Some(r)
    decreases c
  {
    if c - 1 != r {
      assert !WordStart(text, c - 1);
      PrevWordStartUnique(text, c - 1, r);
    }
  }

  lemma {:induction false} FirstStopIsFirst(text: string, k: nat)
    requires 0 < k <= |text|
    ensures WordStop(text, FirstStop(text, k))
    ensures forall j :: k <= j < FirstStop(text, k) ==> !WordStop(text, j)
    decreases |text| - k
  {
    if !WordStop(text, k) {
      FirstStopIsFirst(text, k + 1);
    }
  }

  lemma {:induction false} FirstStopUnique(text: string, k: nat, r: nat)
    requires 0 < k <= r <= |text| && WordStop(text, r)
    requires forall j :: k <= j < r ==> !WordStop(text, j)
    ensures FirstStop(text, k) == r
    decreases |text| - k
  {
    if k != r {
      assert !WordStop(text, k);
      FirstStopUnique(text, k + 1, r);
    }
  }

  /**
    Moving a word right from `c` fails only at the end of the text;
    otherwise it lands on the first stop after `c`.
   */
  lemma NextWordStopIsFirst(text: string, c: nat)
    requires c <= |text|
    ensures NextWordStop(text, c).None? <==> c == |text|
    ensures NextWordStop(text, c).Some? ==>
      var r := NextWordStop(text, c).value;
      && c < r <= |text| && WordStop(text, r)
      && forall k :: c < k < r ==> !WordStop(text, k)
  {
    if c < |text| {
      FirstStopIsFirst(text, c + 1);
    }
  }

  /** On "ab  cd ef", moving a word left from the end goes to 7, then to 4. */
  lemma LeftWordExample()
    ensures PrevWordStart("ab  cd ef", 9) == Some(7)
    ensures PrevWordStart("ab  cd ef", 7) == Some(4)
  {
    var t := "ab  cd ef";
    assert !WordStart(t, 8) && WordStart(t, 7);
    assert !WordStart(t, 6) && !WordStart(t, 5) && WordStart(t, 4);
  }

  /** On "ab  cd ef", moving a word right from the start goes to 4, then 7, then the end. */
  lemma RightWordExample()
    ensures NextWordStop("ab  cd ef", 0) == Some(4)
    ensures NextWordStop("ab  cd ef", 4) == Some(7)
    ensures NextWordStop("ab  cd ef", 7) == Some(9)
  {
    var t := "ab  cd ef";
    assert !WordStop(t, 1) && !WordStop(t, 2) && !WordStop(t, 3) && WordStop(t, 4);
    assert !WordStop(t, 5) && !WordStop(t, 6) && WordStop(t, 7);
    assert !WordStop(t, 8) && WordStop(t, 9);
  }

  // ---------------------------------------------------------------------
  // The effect of an action on the text and the cursor
  // ---------------------------------------------------------------------

  /** The text and stored cursor after applying `action`, with `ev` the key event that chose it. */
  function Applied(text: string, cursor: nat, action: Action, ev: Keys.KeyEvent): (string, nat)
  {
    var cur := Clamped(text, cursor);
    match action
    case InsertChar =>
      if ev.code.Char? then (text[..cur] + [ev.code.c] + text[cur..], cursor + 1) else (text, cursor)
    case BackDeleteChar =>
      if cur > 0 then (text[..cur - 1] + text[cur..], cur - 1) else (text, cursor)
    case DeleteChar =>
      if cur < |text| then
        var t := text[..cur] + text[cur + 1..];
        (t, Clamped(t, cursor))
      else (text, cursor)
    case LeftChar =>
      if cur > 0 then (text, cur - 1) else (text, cursor)
    case LeftWord =>
      (match PrevWordStart(text, cur)
       case Some(t) => (text, t)
       case None => (text, cursor))
    case RightWord =>
      (match NextWordStop(text, cur)
       case Some(t) => (text, t)
       case None => (text, cursor))
    case DelBackWord =>
      (match PrevWordStart(text, cur)
       case Some(t) => (text[..t] + text[cur..], t)
       case None => (text, cursor))
    case GotoLineStart => (text, 0)
    case GotoLineEnd => (text, |text|)
    case RightChar => (text, Clamped(text, cur + 1))
    case Complete => (text, cursor)
  }

  /** No action moves the cursor past the end of the text. */
  lemma AppliedKeepsCursorInText(text: string, cursor: nat, action: Action, ev: Keys.KeyEvent)
    requires cursor <= |text|
    ensures Applied(text, cursor, action, ev).1 <= |Applied(text, cursor, action, ev).0|
  {
    var cur := Clamped(text, cursor);
    match action
    case LeftWord => PrevWordStartIsLast(text, cur);
    case RightWord => NextWordStopIsFirst(text, cur);
    case DelBackWord => PrevWordStartIsLast(text, cur);
    case _ =>
  }

  /** Typing a character and then deleting back over it restores the text and the cursor. */
  lemma InsertThenBackDelete(text: string, cursor: nat, c: char, mods: set<Keys.ModifierFlag>, ev: Keys.KeyEvent)
    requires cursor <= |text|
    ensures var (t1, c1) := Applied(text, cursor, InsertChar, Keys.KeyEvent(Keys.Char(c), mods));
      Applied(t1, c1, BackDeleteChar, ev) == (text, cursor)
  {
    var t1 := text[..cursor] + [c] + text[cursor..];
    assert t1[..cursor] == text[..cursor] && t1[cursor + 1..] == text[cursor..];
    assert text[..cursor] + text[cursor..] == text;
  }

  /** Deleting back and then typing the deleted character again restores the text and the cursor. */
  lemma BackDeleteThenReinsert(text: string, cursor: nat, mods: set<Keys.ModifierFlag>, ev: Keys.KeyEvent)
    requires 0 < cursor <= |text|
    ensures var (t1, c1) := Applied(text, cursor, BackDeleteChar, ev);
      Applied(t1, c1, InsertChar, Keys.KeyEvent(Keys.Char(text[cursor - 1]), mods)) == (text, cursor)
  {
    var t1 := text[..cursor - 1] + text[cursor..];
    assert t1[..cursor - 1] == text[..cursor - 1] && t1[cursor - 1..] == text[cursor..];
    assert text[..cursor - 1] + [text[cursor - 1]] + text[cursor..] == text;
  }

  /** Deleting forward removes the character under the cursor and keeps the cursor where it was. */
  lemma DeleteCharRemovesOne(text: string, cursor: nat, ev: Keys.KeyEvent)
    requires cursor < |text|
    ensures var (t, c) := Applied(text, cursor, DeleteChar, ev);
      && |t| == |text| - 1 && c == cursor
      && t[..cursor] == text[..cursor] && t[cursor..] == text[cursor + 1..]
  {
  }

  /** Deleting back removes the character before the cursor and moves the cursor onto its place. */
  lemma BackDeleteRemovesOne(text: string, cursor: nat, ev: Keys.KeyEvent)
    requires 0 < cursor <= |text|
    ensures var (t, c) := Applied(text, cursor, BackDeleteChar, ev);
      && |t| == |text| - 1 && c == cursor - 1
      && t[..c] == text[..c] && t[c..] == text[cursor..]
  {
  }

  /** The motions, and completion, leave the text as it is; they move the cursor as their names say. */
  lemma MotionsKeepText(text: string, cursor: nat, ev: Keys.KeyEvent)
    requires cursor <= |text|
    ensures forall a :: a in {LeftChar, LeftWord, RightChar, RightWord, GotoLineStart, GotoLineEnd, Complete} ==>
      Applied(text, cursor, a, ev).0 == text
    ensures Applied(text, cursor, LeftChar, ev).1 == if cursor > 0 then cursor - 1 else 0
    ensures Applied(text, cursor, RightChar, ev).1 == if cursor < |text| then cursor + 1 else |text|
    ensures Applied(text, cursor, GotoLineStart, ev).1 == 0
    ensures Applied(text, cursor, GotoLineEnd, ev).1 == |text|
    ensures Applied(text, cursor, Complete, ev) == (text, cursor)
  {
  }

  /**
    Deleting a word back removes exactly the characters from the previous
    word start up to the cursor, and leaves the cursor on that word start.
   */
  lemma DelBackWordRemovesWord(text: string, cursor: nat, ev: Keys.KeyEvent)
    requires 0 < cursor <= |text|
    ensures var (t, c) := Applied(text, cursor, DelBackWord, ev);
      && c < cursor && WordStart(text, c)
      && (forall k :: c < k < cursor ==> !WordStart(text, k))
      && |t| == |text| - (cursor - c)
      && t[..c] == text[..c] && t[c..] == text[cursor..]
  {
    PrevWordStartIsLast(text, cursor);
  }

  /** At the start of the line, deleting a word back changes nothing. */
  lemma DelBackWordAtStart(text: string, ev: Keys.KeyEvent)
    ensures Applied(text, 0, DelBackWord, ev) == (text, 0)
  {
  }

  // ---------------------------------------------------------------------
  // The editor
  // ---------------------------------------------------------------------

  class ReadLine {
    /** The cursor position, as stored; the actions clamp it to the text. */
    var cursor: nat
    /** The horizontal scroll; nothing changes it. */
    var hScroll: nat
    var strval: string

    /** The cursor lies within the text and the view is not scrolled. */
    predicate Valid()
      reads this
    {
      cursor <= |strval| && hScroll == 0
    }

    /** `ReadLine::new`: empty text, cursor and scroll at 0. */
    constructor ()
      ensures strval == [] && cursor == 0 && hScroll == 0
      ensures Valid()
    {
      cursor := 0;
      hScroll := 0;
      strval := [];
    }

    /** The cursor column on screen: the cursor less the scroll. */
    function GetCursor(): (r: nat)
      reads this
      requires hScroll <= cursor
      ensures r + hScroll == cursor
      ensures Valid() ==> r == cursor
    {
      cursor - hScroll
    }

    /** The word start left of the cursor, walking back over spaces and then over the word before them. */
    method LeftWordOffset() returns (r: Option<nat>)
      ensures r == PrevWordStart(strval, Clamped(strval, cursor))
    {
      var v := strval;
      var c := Clamped(strval, cursor);
      if c > 0 {
        var cur := c - 1;
        while cur > 0
          invariant cur < c
          invariant forall k :: cur < k < c ==> v[k] == ' '
        {
          if v[cur] == ' ' {
            cur := cur - 1;
          } else {
            break;
          }
        }
        ghost var p := cur;
        assert p == 0 || v[p] != ' ';
        var prev := cur;
        ghost var moved := false;
        while true
          invariant cur <= prev <= p
          invariant !moved ==> cur == prev == p
          invariant moved ==> cur + 1 == prev && forall k :: prev <= k <= p ==> v[k] != ' '
          decreases cur
        {
          if cur < |v| && v[cur] != ' ' {
            prev := cur;
            moved := true;
            if cur == 0 {
              break;
            }
            cur := cur - 1;
          } else {
            break;
          }
        }
        forall k | prev < k < c ensures !WordStart(v, k) {
          if k <= p {
            assert v[k - 1] != ' ';
          }
        }
        PrevWordStartUnique(v, c, prev);
        return Some(prev);
      }
      return None;
    }

    /** The stop right of the cursor, walking over the rest of the word and then over the spaces after it. */
    method RightWordOffset() returns (r: Option<nat>)
      ensures r == NextWordStop(strval, Clamped(strval, cursor))
    {
      var v := strval;
      var c := Clamped(strval, cursor);
      if c < |v| {
        var cur := c;
        while cur < |v|
          invariant c <= cur <= |v|
          invariant forall k :: c <= k < cur ==> v[k] != ' '
        {
          if v[cur] != ' ' {
            cur := cur + 1;
          } else {
            break;
          }
        }
        ghost var p := cur;
        while cur < |v|
          invariant p <= cur <= |v|
          invariant forall k :: p <= k < cur ==> v[k] == ' '
        {
          if v[cur] == ' ' {
            cur := cur + 1;
          } else {
            break;
          }
        }
        assert c < cur;
        forall k | c < k < cur ensures !WordStop(v, k) {
          if k <= p {
            assert v[k - 1] != ' ';
          }
        }
        FirstStopUnique(v, c + 1, cur);
        return Some(cur);
      }
      return None;
    }

    /** Applies an action chosen by the key event `ev`. */
    method ApplyAction(action: Action, ev: Keys.KeyEvent)
      modifies this
      ensures (strval, cursor) == Applied(old(strval), old(cursor), action, ev)
      ensures hScroll == old(hScroll)
      ensures old(Valid()) ==> Valid()
    {
      ghost var text0, cursor0 := strval, cursor;
      match action {
        case InsertChar =>
          if ev.code.Char? {
            var cur := Clamped(strval, cursor);
            strval := strval[..cur] + [ev.code.c] + strval[cur..];
            cursor := cursor + 1;
          }
        case BackDeleteChar =>
          var cur := Clamped(strval, cursor);
          if cur > 0 {
            strval := strval[..cur - 1] + strval[cur..];
            cursor := cur - 1;
          }
        case DeleteChar =>
          var cur := Clamped(strval, cursor);
          if cur < |strval| {
            strval := strval[..cur] + strval[cur + 1..];
            cursor := Clamped(strval, cursor);
          }
        case LeftChar =>
          var cur := Clamped(strval, cursor);
          if cur > 0 {
            cursor := cur - 1;
          }
        case LeftWord =>
          var t := LeftWordOffset();
          if t.Some? {
            cursor := t.value;
          }
        case RightWord =>
          var t := RightWordOffset();
          if t.Some? {
            cursor := t.value;
          }
        case DelBackWord =>
          var cur := Clamped(strval, cursor);
          var t := LeftWordOffset();
          if t.Some? {
            PrevWordStartIsLast(strval, cur);
            strval := strval[..t.value] + strval[cur..];
            cursor := t.value;
          }
        case GotoLineStart =>
          cursor := 0;
        case GotoLineEnd =>
          cursor := |strval|;
        case RightChar =>
          cursor := Clamped(strval, Clamped(strval, cursor) + 1);
        case Complete =>
      }
      if cursor0 <= |text0| {
        AppliedKeepsCursorInText(text0, cursor0, action, ev);
      }
    }
  }

  // ---------------------------------------------------------------------
  // The default key map
  // ---------------------------------------------------------------------

  /**
    The action the default bindings give a key event: editing and motion
    keys without modifiers, word motion and word deletion under control,
    and any character typed without modifiers or with shift alone.
   */
  function DefaultAction(ev: Keys.KeyEvent): Option<Action> {
    var m := Keys.ModifiersOf(ev.modifiers);
    if m == Keys.NoMods then
      match ev.code
      case Backspace => Some(BackDeleteChar)
      case Delete => Some(DeleteChar)
      case Left => Some(LeftChar)
      case Right => Some(RightChar)
      case Home => Some(GotoLineStart)
      case End => Some(GotoLineEnd)
      case Tab => Some(Complete)
      case Char(_) => Some(InsertChar)
      case _ => None
    else if m == Keys.Modifiers(true, false, false) then
      match ev.code
      case Left => Some(LeftWord)
      case Right => Some(RightWord)
      case Char(ch) => if ch == 'w' then Some(DelBackWord) else None
      case _ => None
    else if m == Keys.Modifiers(false, false, true) && ev.code.Char? then Some(InsertChar)
    else None
  }

  /** The bindings the default key map ends up with. */
  function DefaultBindings(): map<Keys.KeyCombination, Action> {
    var none := Keys.NoMods;
    var ctrl := Keys.Modifiers(true, false, false);
    var shift := Keys.Modifiers(false, false, true);
    map[
      Keys.Specific(Keys.Backspace, none) := BackDeleteChar,
      Keys.Specific(Keys.Delete, none) := DeleteChar,
      Keys.Specific(Keys.Left, none) := LeftChar,
      Keys.Specific(Keys.Right, none) := RightChar,
      Keys.Specific(Keys.Left, ctrl) := LeftWord,
      Keys.Specific(Keys.Right, ctrl) := RightWord,
      Keys.Specific(Keys.Char('w'), ctrl) := DelBackWord,
      Keys.Specific(Keys.Home, none) := GotoLineStart,
      Keys.Specific(Keys.End, none) := GotoLineEnd,
      Keys.AllChars(none) := InsertChar,
      Keys.AllChars(shift) := InsertChar,
      Keys.Specific(Keys.Tab, none) := Complete]
  }

  /** The default bindings resolve every key event as `DefaultAction` says. */
  lemma DefaultBindingsResolve(ev: Keys.KeyEvent)
    ensures Keys.Resolve(DefaultBindings(), ev) == DefaultAction(ev)
  {
    var m := Keys.ModifiersOf(ev.modifiers);
    if m == Keys.NoMods {
    } else if m == Keys.Modifiers(true, false, false) {
    } else {
    }
  }

  /** `DEF_KEY_MAP`: the default bindings, added in the editor's order. */
  method DefaultKeyMap() returns (m: Keys.KeyMap<Action>)
    ensures fresh(m)
    ensures m.bindings == DefaultBindings()
    ensures forall ev :: m.GetAction(ev) == DefaultAction(ev)
  {
    m := new Keys.KeyMap();
    m.AddNoMods(Keys.Backspace, BackDeleteChar);
    m.AddNoMods(Keys.Delete, DeleteChar);
    m.AddNoMods(Keys.Left, LeftChar);
    m.AddNoMods(Keys.Right, RightChar);
    m.AddCtrl(Keys.Left, LeftWord);
    m.AddCtrl(Keys.Right, RightWord);
    m.AddCtrl(Keys.Char('w'), DelBackWord);
    m.AddNoMods(Keys.Home, GotoLineStart);
    m.AddNoMods(Keys.End, GotoLineEnd);
    m.AddCharNoHandler(InsertChar);
    m.AddCharShift(InsertChar);
    m.AddNoMods(Keys.Tab, Complete);
    forall ev ensures m.GetAction(ev) == DefaultAction(ev) {
      DefaultBindingsResolve(ev);
    }
  }

  /** Control with any character other than 'w' is not bound. */
  lemma OtherCtrlCharsUnbound(ch: char)
    requires ch != 'w'
    ensures DefaultAction(Keys.KeyEvent(Keys.Char(ch), {Keys.ControlFlag})) == None
  {
  }
}
