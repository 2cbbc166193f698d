/**
  Key combinations and the maps from key combinations to actions.

  A `KeyMap` binds either an exact key with a modifier set (`Specific`) or
  "any character key" under a modifier set (`AllChars`) to an action.
  Resolution tries the exact combination first and falls back to the
  character wildcard only for character keys.
 */
module Keys {
  import opened Optional

  /** The key codes a key event can carry (crossterm's `KeyCode`). */
  datatype KeyCode =
    | Backspace | Enter | Left | Right | Up | Down | Home | End
    | PageUp | PageDown | Tab | BackTab | Delete | Insert
    | F(n: nat)
    | Char(c: char)
    | Null | Esc

  /** The modifier flags a key event can carry (crossterm's `KeyModifiers` bits). */
  datatype ModifierFlag = ShiftFlag | ControlFlag | AltFlag

  datatype KeyEvent = KeyEvent(code: KeyCode, modifiers: set<ModifierFlag>)

  /** Three independent modifier booleans; no meta or super. */
  datatype Modifiers = Modifiers(ctrl: bool, alt: bool, shift: bool) {

    /** This modifier set with shift added. */
    function WithShift(): Modifiers {
      this.(shift := true)
    }

    /** This modifier set with control added. */
    function WithCtrl(): Modifiers {
      this.(ctrl := true)
    }
  }

  /** `Modifiers::default()`: no flag set. */
  const NoMods := Modifiers(false, false, false)

  datatype KeyCombination =
    | Specific(code: KeyCode, mods: Modifiers)
    | AllChars(mods: Modifiers)

  /** The modifier set of a key event: exactly its control, alt and shift flags. */
  function ModifiersOf(flags: set<ModifierFlag>): Modifiers {
    Modifiers(ControlFlag in flags, AltFlag in flags, ShiftFlag in flags)
  }

  /** Pressing shift as well turns the modifiers a key event is read with into their `WithShift`. */
  lemma ShiftFlagIsWithShift(flags: set<ModifierFlag>)
    ensures ModifiersOf(flags + {ShiftFlag}) == ModifiersOf(flags).WithShift()
  {
  }

  /** Pressing control as well turns the modifiers a key event is read with into their `WithCtrl`. */
  lemma ControlFlagIsWithCtrl(flags: set<ModifierFlag>)
    ensures ModifiersOf(flags + {ControlFlag}) == ModifiersOf(flags).WithCtrl()
  {
  }

  // ---------------------------------------------------------------------
  // Display of a key combination
  // ---------------------------------------------------------------------

  function DigitChar(d: nat): char
    requires d < 10
  {
    (d + '0' as int) as char
  }

  /** Decimal rendering of a natural number, as `format!("{}", n)` gives it. */
  function NatToString(n: nat): (s: string)
    ensures |s| >= 1
    ensures forall i :: 0 <= i < |s| ==> '0' <= s[i] <= '9'
    decreases n
  {
    if n < 10 then [DigitChar(n)] else NatToString(n / 10) + [DigitChar(n % 10)]
  }

  predicate AllDigits(s: string) {
    forall i :: 0 <= i < |s| ==> '0' <= s[i] <= '9'
  }

  /** The value of a string of decimal digits (the inverse of `NatToString`). */
  function DigitsToNat(s: string): nat
    requires AllDigits(s)
    decreases |s|
  {
    if s == [] then 0
    else DigitsToNat(s[..|s| - 1]) * 10 + (s[|s| - 1] as int - '0' as int)
  }

  lemma {:induction false} NatToStringRoundTrip(n: nat)
    ensures DigitsToNat(NatToString(n)) == n
    decreases n
  {
    var s := NatToString(n);
    if n >= 10 {
      NatToStringRoundTrip(n / 10);
      assert s[..|s| - 1] == NatToString(n / 10);
    }
  }

  /** The name of a key, as the `Display` of a `Specific` combination writes it. */
  function KeyName(code: KeyCode): string {
    match code
    case Backspace => "Backspace"
    case Enter => "Enter"
    case Left => "Left"
    case Right => "Right"
    case Up => "Up"
    case Down => "Down"
    case Home => "Home"
    case End => "End"
    case PageUp => "PageUp"
    case PageDown => "PageDown"
    case Tab => "Tab"
    case BackTab => "BackTab"
    case Delete => "Delete"
    case Insert => "Insert"
    case F(i) => "F" + NatToString(i)
    case Char(ch) =>
      if ch == ' ' then "Space"
      else if ch == '*' then "'*'"
      else if ch == ',' then "','"
      else [ch]
    case Null => "<null>"
    case Esc => "Esc"
  }

  /** The modifier prefixes, always in the order control, alt, shift. */
  function ModifierPrefix(m: Modifiers): string {
    (if m.ctrl then "C-" else "") + (if m.alt then "M-" else "") + (if m.shift then "S-" else "")
  }

  /** `impl Display for KeyCombination`. */
  function Display(k: KeyCombination): string {
    match k
    case Specific(code, m) => ModifierPrefix(m) + KeyName(code)
    case AllChars(_) => "?"
  }

  // Reading a displayed combination back: the partner of `Display` that shows
  // the legend text never confuses two exact key combinations.

  /** Removes `p` from the front of `s` when it is there, and says whether it was. */
  function StripPrefix(s: string, p: string): (bool, string) {
    if |p| <= |s| && s[..|p|] == p then (true, s[|p|..]) else (false, s)
  }

  /** The key a multi-letter name stands for. */
  function ParseNamedKey(s: string): Option<KeyCode> {
    if s == "Backspace" then Some(Backspace)
    else if s == "Enter" then Some(Enter)
    else if s == "Left" then Some(Left)
    else if s == "Right" then Some(Right)
    else if s == "Up" then Some(Up)
    else if s == "Down" then Some(Down)
    else if s == "Home" then Some(Home)
    else if s == "End" then Some(End)
    else if s == "PageUp" then Some(PageUp)
    else if s == "PageDown" then Some(PageDown)
    else if s == "Tab" then Some(Tab)
    else if s == "BackTab" then Some(BackTab)
    else if s == "Delete" then Some(Delete)
    else if s == "Insert" then Some(Insert)
    else if s == "Space" then Some(Char(' '))
    else if s == "'*'" then Some(Char('*'))
    else if s == "','" then Some(Char(','))
    else if s == "<null>" then Some(Null)
    else if s == "Esc" then Some(Esc)
    else None
  }

  function ParseKeyName(s: string): Option<KeyCode> {
    if |s| == 1 then Some(Char(s[0]))
    else if |s| >= 2 && s[0] == 'F' && AllDigits(s[1..]) then Some(F(DigitsToNat(s[1..])))
    else ParseNamedKey(s)
  }

  /** Removes the modifier prefixes, in the order control, alt, shift, and says which were there. */
  function StripModifiers(s: string): (Modifiers, string) {
    var (ctrl, s1) := StripPrefix(s, "C-");
    var (alt, s2) := StripPrefix(s1, "M-");
    var (shift, s3) := StripPrefix(s2, "S-");
    (Modifiers(ctrl, alt, shift), s3)
  }

  function ParseSpecific(s: string): Option<KeyCombination> {
    var (m, rest) := StripModifiers(s);
    match ParseKeyName(rest)
    case Some(code) => Some(Specific(code, m))
    case None => None
  }

  /** No key name starts with something that reads like a modifier prefix. */
  lemma KeyNameHasNoDash(code: KeyCode)
    ensures |KeyName(code)| >= 1
    ensures |KeyName(code)| >= 2 ==> KeyName(code)[1] != '-'
  {
  }

  /** Reading a key's name back gives the key. */
  lemma KeyNameRoundTrip(code: KeyCode)
    ensures ParseKeyName(KeyName(code)) == Some(code)
  {
    if code.F? {
      assert KeyName(code)[1..] == NatToString(code.n);
      NatToStringRoundTrip(code.n);
    } else if code.Backspace? || code.Enter? || code.Left? || code.Right? || code.Up? || code.Down? || code.Home? || code.End? {
      NavigationNameRoundTrip(code);
    } else if !code.Char? {
      EditingNameRoundTrip(code);
    }
  }

  lemma NavigationNameRoundTrip(code: KeyCode)
    requires code.Backspace? || code.Enter? || code.Left? || code.Right? || code.Up? || code.Down? || code.Home? || code.End?
    ensures ParseNamedKey(KeyName(code)) == Some(code) && |KeyName(code)| >= 2 && KeyName(code)[0] != 'F'
  {
  }

  lemma EditingNameRoundTrip(code: KeyCode)
    requires code.PageUp? || code.PageDown? || code.Tab? || code.BackTab? || code.Delete? || code.Insert? || code.Null? || code.Esc?
    ensures ParseNamedKey(KeyName(code)) == Some(code) && |KeyName(code)| >= 2 && KeyName(code)[0] != 'F'
  {
  }

  predicate StartsWith(s: string, p: string) {
    |p| <= |s| && s[..|p|] == p
  }

  /** Stripping a two-letter prefix from a string that may carry it, when the rest does not start with it. */
  lemma StripRoundTrip(p: string, present: bool, rest: string)
    requires |p| == 2 && !StartsWith(rest, p)
    ensures StripPrefix((if present then p else "") + rest, p) == (present, rest)
  {
    if present {
      var s := p + rest;
      assert s[..2] == p && s[2..] == rest;
    } else {
      assert "" + rest == rest;
    }
  }

  /** The prefixes of a name that does not look like a prefix itself read back as the modifiers they came from. */
  lemma StripModifiersRoundTrip(m: Modifiers, name: string)
    requires |name| >= 1 && (|name| >= 2 ==> name[1] != '-')
    ensures StripModifiers(ModifierPrefix(m) + name) == (m, name)
  {
    var s3 := (if m.shift then "S-" else "") + name;
    var s2 := (if m.alt then "M-" else "") + s3;
    var s1 := (if m.ctrl then "C-" else "") + s2;
    assert ModifierPrefix(m) + name == s1;
    assert !StartsWith(name, "S-") && !StartsWith(name, "M-") && !StartsWith(name, "C-") by {
      if |name| >= 2 { assert name[..2][1] == name[1]; }
    }
    assert !StartsWith(s3, "M-") && !StartsWith(s3, "C-") by {
      if m.shift { assert s3[..2][0] == 'S'; } else { assert s3 == name; }
    }
    assert !StartsWith(s2, "C-") by {
      if m.alt { assert s2[..2][0] == 'M'; } else { assert s2 == s3; }
    }
    StripRoundTrip("S-", m.shift, name);
    StripRoundTrip("M-", m.alt, s3);
    StripRoundTrip("C-", m.ctrl, s2);
  }

  /**
    The legend text of an exact combination determines the combination: the
    prefixes come in a fixed order and no key name looks like a prefix.
   */
  lemma DisplayRoundTrip(code: KeyCode, m: Modifiers)
    ensures ParseSpecific(Display(Specific(code, m))) == Some(Specific(code, m))
  {
    KeyNameHasNoDash(code);
    KeyNameRoundTrip(code);
    StripModifiersRoundTrip(m, KeyName(code));
  }

  /** Two different exact combinations never share a legend entry. */
  lemma DisplayInjective(k1: KeyCombination, k2: KeyCombination)
    requires k1.Specific? && k2.Specific? && k1 != k2
    ensures Display(k1) != Display(k2)
  {
    DisplayRoundTrip(k1.code, k1.mods);
    DisplayRoundTrip(k2.code, k2.mods);
  }

  // ---------------------------------------------------------------------
  // The legend built by `describe`
  // ---------------------------------------------------------------------

  const CharPlaceholder := "<char>"

  /**
    The entries of one legend line for the keys of one action, in the order
    they are visited: an exact combination contributes its display, a
    wildcard contributes the placeholder only while the list is still empty.
   */
  function Labels(keys: seq<KeyCombination>): seq<string>
    decreases |keys|
  {
    if keys == [] then []
    else
      var prev := Labels(keys[..|keys| - 1]);
      var k := keys[|keys| - 1];
      if k.Specific? then prev + [Display(k)]
      else if prev == [] then [CharPlaceholder]
      else prev
  }

  /** The displays of the exact combinations among `keys`, in order. */
  function SpecificLabels(keys: seq<KeyCombination>): (r: seq<string>)
    ensures |r| <= |keys|
    decreases |keys|
  {
    if keys == [] then []
    else
      var k := keys[|keys| - 1];
      SpecificLabels(keys[..|keys| - 1]) + (if k.Specific? then [Display(k)] else [])
  }

  lemma DisplayIsNotPlaceholder(k: KeyCombination)
    requires k.Specific?
    ensures Display(k) != CharPlaceholder
  {
    KeyNameHasNoDash(k.code);
    if k.mods.ctrl || k.mods.alt || k.mods.shift {
      assert Display(k)[1] == '-' != CharPlaceholder[1];
    } else {
      assert Display(k) == KeyName(k.code);
    }
  }

  lemma {:induction false} SpecificLabelsHaveNoPlaceholder(keys: seq<KeyCombination>)
    ensures CharPlaceholder !in SpecificLabels(keys)
    decreases |keys|
  {
    if keys != [] {
      SpecificLabelsHaveNoPlaceholder(keys[..|keys| - 1]);
      var k := keys[|keys| - 1];
      if k.Specific? { DisplayIsNotPlaceholder(k); }
    }
  }

  /**
    A legend line lists the exact combinations of its action in visiting
    order, preceded by the placeholder exactly when the first key visited
    is a wildcard.
   */
  lemma {:induction false} LabelsShape(keys: seq<KeyCombination>)
    ensures Labels(keys) ==
      (if keys != [] && keys[0].AllChars? then [CharPlaceholder] else []) + SpecificLabels(keys)
    decreases |keys|
  {
    if keys != [] {
      var init := keys[..|keys| - 1];
      LabelsShape(init);
      if |keys| > 1 {
        assert init[0] == keys[0];
        if keys[0].Specific? {
          assert SpecificLabels([keys[0]]) == [Display(keys[0])];
          SpecificLabelsPrefixNonEmpty(init);
        }
      }
    }
  }

  lemma {:induction false} SpecificLabelsPrefixNonEmpty(keys: seq<KeyCombination>)
    requires keys != [] && keys[0].Specific?
    ensures SpecificLabels(keys) != []
    decreases |keys|
  {
    if |keys| > 1 {
      SpecificLabelsPrefixNonEmpty(keys[..|keys| - 1]);
    }
  }

  /**
    Whatever order the keys of an action are visited in, the placeholder
    appears at most once on a line, and only as its first entry.
   */
  lemma PlaceholderAtMostFirst(keys: seq<KeyCombination>)
    ensures forall i :: 0 < i < |Labels(keys)| ==> Labels(keys)[i] != CharPlaceholder
    ensures CharPlaceholder in Labels(keys) <==> keys != [] && keys[0].AllChars?
  {
    LabelsShape(keys);
    SpecificLabelsHaveNoPlaceholder(keys);
  }

  /** `slice.join(sep)`. */
  function Join(parts: seq<string>, sep: string): string
    decreases |parts|
  {
    if parts == [] then ""
    else if |parts| == 1 then parts[0]
    else Join(parts[..|parts| - 1], sep) + sep + parts[|parts| - 1]
  }

  /** `format!("{:width$}", s)`: left-aligned, padded with spaces to at least `width` chars. */
  function PadRight(s: string, width: nat): (r: string)
    ensures |r| == if |s| < width then width else |s|
    ensures r[..|s|] == s && forall i :: |s| <= i < |r| ==> r[i] == ' '
  {
    if |s| < width then s + seq(width - |s|, _ => ' ') else s
  }

  /** One legend line: the joined entries padded to 17 columns, then the action. */
  function LegendLine(labels: seq<string>, actionName: string): string {
    "    " + PadRight(Join(labels, " / "), 17) + "  - " + actionName + "\n"
  }

  /** The keys bound to `a`, in the order `order` visits them. */
  function KeysFor<A(==)>(order: seq<KeyCombination>, bindings: map<KeyCombination, A>, a: A): seq<KeyCombination>
    decreases |order|
  {
    if order == [] then []
    else
      var k := order[|order| - 1];
      KeysFor(order[..|order| - 1], bindings, a) + (if k in bindings && bindings[k] == a then [k] else [])
  }

  lemma {:induction false} KeysForMembers<A>(order: seq<KeyCombination>, bindings: map<KeyCombination, A>, a: A, k: KeyCombination)
    ensures k in KeysFor(order, bindings, a) <==> k in order && k in bindings && bindings[k] == a
    decreases |order|
  {
    if order != [] {
      var init := order[..|order| - 1];
      KeysForMembers(init, bindings, a, k);
      assert order == init + [order[|order| - 1]];
    }
  }

  lemma KeysForStep<A>(order: seq<KeyCombination>, bindings: map<KeyCombination, A>, i: nat)
    requires i < |order| && order[i] in bindings
    ensures forall a ::
      KeysFor(order[..i + 1], bindings, a) == KeysFor(order[..i], bindings, a) + (if bindings[order[i]] == a then [order[i]] else [])
  {
    assert order[..i + 1][..i] == order[..i];
  }

  /** `order` visits every binding of the map exactly once (a HashMap iteration order). */
  predicate IsListing<A>(order: seq<KeyCombination>, bindings: map<KeyCombination, A>) {
    && (forall i :: 0 <= i < |order| ==> order[i] in bindings)
    && (forall k :: k in bindings ==> k in order)
    && (forall i, j :: 0 <= i < j < |order| ==> order[i] != order[j])
  }

  /** `rank` tells the actions of `s` apart: it is a total order on them. */
  predicate InjectiveOn<A>(s: set<A>, rank: A -> int) {
    forall a, b :: a in s && b in s && rank(a) == rank(b) ==> a == b
  }

  predicate StrictlyAscending<A>(s: seq<A>, rank: A -> int) {
    forall i, j :: 0 <= i < j < |s| ==> rank(s[i]) < rank(s[j])
  }

  lemma MinimumExists<A>(s: set<A>, rank: A -> int)
    requires s != {}
    ensures exists m :: m in s && forall b :: b in s ==> rank(m) <= rank(b)
    decreases s
  {
    var x :| x in s;
    if s != {x} {
      MinimumExists(s - {x}, rank);
      var m :| m in s - {x} && forall b :: b in s - {x} ==> rank(m) <= rank(b);
      if rank(x) < rank(m) {
        assert forall b :: b in s ==> rank(x) <= rank(b);
      } else {
        assert forall b :: b in s ==> rank(m) <= rank(b);
      }
    }
  }

  ghost function MinOf<A>(s: set<A>, rank: A -> int): (m: A)
    requires s != {}
    ensures m in s && forall b :: b in s ==> rank(m) <= rank(b)
  {
    MinimumExists(s, rank);
    var m :| m in s && forall b :: b in s ==> rank(m) <= rank(b); m
  }

  /**
    The actions of a set in the order a BTreeMap iterates them: every one
    exactly once, ascending in the order `rank` gives.
   */
  ghost function Ascending<A>(s: set<A>, rank: A -> int): (r: seq<A>)
    requires InjectiveOn(s, rank)
    ensures |r| == |s|
    ensures forall i :: 0 <= i < |r| ==> r[i] in s
    ensures forall a :: a in s ==> a in r
    ensures StrictlyAscending(r, rank)
    decreases s
  {
    if s == {} then []
    else
      var m := MinOf(s, rank);
      var rest := Ascending(s - {m}, rank);
      MinFirst(s, rank, m, rest);
      [m] + rest
  }

  lemma MinFirst<A>(s: set<A>, rank: A -> int, m: A, rest: seq<A>)
    requires InjectiveOn(s, rank)
    requires m in s && forall b :: b in s ==> rank(m) <= rank(b)
    requires |rest| == |s - {m}| && StrictlyAscending(rest, rank)
    requires forall i :: 0 <= i < |rest| ==> rest[i] in s - {m}
    requires forall a :: a in s - {m} ==> a in rest
    ensures |[m] + rest| == |s| && StrictlyAscending([m] + rest, rank)
    ensures forall i :: 0 <= i < |[m] + rest| ==> ([m] + rest)[i] in s
    ensures forall a :: a in s ==> a in [m] + rest
  {
    forall i | 0 <= i < |rest| ensures rank(m) < rank(rest[i]) {
      assert rest[i] in s && rest[i] != m;
    }
  }

  /** Proof helper: regrouping a concatenation around one element. */
  lemma AppendAssociative<A>(xs: seq<A>, a: A, ys: seq<A>)
    ensures xs + ([a] + ys) == (xs + [a]) + ys
  {
  }

  /** The least action of a set is the first of its ascending listing. */
  lemma AscendingFirst<A>(s: set<A>, rank: A -> int, a: A)
    requires InjectiveOn(s, rank)
    requires a in s && forall b :: b in s ==> rank(a) <= rank(b)
    ensures Ascending(s, rank) == [a] + Ascending(s - {a}, rank)
  {
    var m := MinOf(s, rank);
    assert rank(m) <= rank(a) && rank(a) <= rank(m);
  }

  /** Taking the least remaining action moves it from the front of the remaining listing to the end of `done`. */
  lemma AscendingStep<A>(all: set<A>, remaining: set<A>, done: seq<A>, rank: A -> int, a: A)
    requires InjectiveOn(all, rank) && remaining <= all
    requires a in remaining && forall b :: b in remaining ==> rank(a) <= rank(b)
    requires Ascending(all, rank) == done + Ascending(remaining, rank)
    ensures InjectiveOn(remaining - {a}, rank)
    ensures Ascending(all, rank) == (done + [a]) + Ascending(remaining - {a}, rank)
  {
    assert InjectiveOn(remaining, rank);
    AscendingFirst(remaining, rank, a);
    AppendAssociative(done, a, Ascending(remaining - {a}, rank));
  }

  /** The lines for `acts`, one per action, in the order given. */
  function LegendLines<A(==)>(acts: seq<A>, bindings: map<KeyCombination, A>, order: seq<KeyCombination>,
                          name: A -> string): string
    decreases |acts|
  {
    if acts == [] then ""
    else
      var a := acts[|acts| - 1];
      LegendLines(acts[..|acts| - 1], bindings, order, name) + LegendLine(Labels(KeysFor(order, bindings, a)), name(a))
  }

  lemma LegendLinesSnoc<A>(acts: seq<A>, a: A, bindings: map<KeyCombination, A>, order: seq<KeyCombination>,
                           name: A -> string)
    ensures LegendLines(acts + [a], bindings, order, name) ==
      LegendLines(acts, bindings, order, name) + LegendLine(Labels(KeysFor(order, bindings, a)), name(a))
  {
    assert (acts + [a])[..|acts|] == acts;
  }

  /** What `describe` appends: one line per bound action in ascending order, then an empty line. */
  ghost function Legend<A>(bindings: map<KeyCombination, A>, order: seq<KeyCombination>,
                           rank: A -> int, name: A -> string): string
    requires InjectiveOn(bindings.Values, rank)
  {
    LegendLines(Ascending(bindings.Values, rank), bindings, order, name) + "\n"
  }

  // ---------------------------------------------------------------------
  // The key map
  // ---------------------------------------------------------------------

  /**
    The action for a key event: the exact binding when there is one, else,
    for a character key only, the wildcard binding under the same modifiers.
   */
  function Resolve<A>(bindings: map<KeyCombination, A>, ev: KeyEvent): (r: Option<A>)
    ensures var m := ModifiersOf(ev.modifiers);
      && (r.Some? <==> Specific(ev.code, m) in bindings || (ev.code.Char? && AllChars(m) in bindings))
      && (Specific(ev.code, m) in bindings ==> r == Some(bindings[Specific(ev.code, m)]))
      && (Specific(ev.code, m) !in bindings && r.Some? ==> r == Some(bindings[AllChars(m)]))
  {
    var m := ModifiersOf(ev.modifiers);
    if Specific(ev.code, m) in bindings then Some(bindings[Specific(ev.code, m)])
    else if ev.code.Char? && AllChars(m) in bindings then Some(bindings[AllChars(m)])
    else None
  }

  /**
    A key bound with shift (or with control) alone is what a key event of
    that key carrying only the shift (or only the control) flag resolves to.
   */
  lemma ModifiedBindingsResolve<A>(bindings: map<KeyCombination, A>, code: KeyCode, a: A)
    ensures Resolve(bindings[Specific(code, NoMods.WithShift()) := a], KeyEvent(code, {ShiftFlag})) == Some(a)
    ensures Resolve(bindings[Specific(code, NoMods.WithCtrl()) := a], KeyEvent(code, {ControlFlag})) == Some(a)
  {
    ShiftFlagIsWithShift({});
    ControlFlagIsWithCtrl({});
    assert {} + {ShiftFlag} == {ShiftFlag} && {} + {ControlFlag} == {ControlFlag};
  }

  class KeyMap<A(==)> {
    var bindings: map<KeyCombination, A>

    constructor ()
      ensures bindings == map[]
    {
      bindings := map[];
    }

    method AddNoMods(code: KeyCode, a: A)
      modifies this
      ensures bindings == old(bindings)[Specific(code, NoMods) := a]
    {
      bindings := bindings[Specific(code, NoMods) := a];
    }

    method AddCtrl(code: KeyCode, a: A)
      modifies this
      ensures bindings == old(bindings)[Specific(code, Modifiers(true, false, false)) := a]
    {
      bindings := bindings[Specific(code, NoMods.WithCtrl()) := a];
    }

    method AddShift(code: KeyCode, a: A)
      modifies this
      ensures bindings == old(bindings)[Specific(code, Modifiers(false, false, true)) := a]
    {
      bindings := bindings[Specific(code, NoMods.WithShift()) := a];
    }

    method AddCharNoHandler(a: A)
      modifies this
      ensures bindings == old(bindings)[AllChars(NoMods) := a]
    {
      bindings := bindings[AllChars(NoMods) := a];
    }

    method AddCharShift(a: A)
      modifies this
      ensures bindings == old(bindings)[AllChars(Modifiers(false, false, true)) := a]
    {
      bindings := bindings[AllChars(NoMods.WithShift()) := a];
    }

    /** `get_action`: the action `Resolve` picks among this map's bindings. */
    function GetAction(ev: KeyEvent): Option<A>
      reads this
    {
      Resolve(bindings, ev)
    }

    /**
      The legend of the bindings: `order` is the order the bindings are
      visited in (the map's iteration order), `rank` the actions' total
      order and `name` their display.
     */
    method Describe(order: seq<KeyCombination>, rank: A -> int, name: A -> string) returns (text: string)
      requires IsListing(order, bindings)
      requires InjectiveOn(bindings.Values, rank)
      ensures text == Legend(bindings, order, rank, name)
    {
      var groups := GroupByAction(order, bindings);
      text := LegendOfGroups(groups, bindings, order, rank, name);
      text := text + "\n";
    }
  }

  /** The second pass of `describe`: a line per action, least action first. */
  method LegendOfGroups<A(==)>(groups: map<A, seq<KeyCombination>>, bindings: map<KeyCombination, A>,
                               order: seq<KeyCombination>, rank: A -> int, name: A -> string)
    returns (text: string)
    requires groups.Keys == bindings.Values && InjectiveOn(bindings.Values, rank)
    requires forall a :: a in groups ==> groups[a] == KeysFor(order, bindings, a)
    ensures text == LegendLines(Ascending(bindings.Values, rank), bindings, order, name)
  {
    text := "";
    var remaining := groups.Keys;
    ghost var done: seq<A> := [];
    while remaining != {}
      invariant remaining <= groups.Keys
      invariant Ascending(groups.Keys, rank) == done + Ascending(remaining, rank)
      invariant text == LegendLines(done, bindings, order, name)
      decreases remaining
    {
      MinimumExists(remaining, rank);
      var a :| a in remaining && forall b :: b in remaining ==> rank(a) <= rank(b);
      AscendingStep(groups.Keys, remaining, done, rank, a);
      var labels := LabelsOf(groups[a]);
      LegendLinesSnoc(done, a, bindings, order, name);
      text := text + LegendLine(labels, name(a));
      done := done + [a];
      remaining := remaining - {a};
    }
    assert Ascending(remaining, rank) == [];
    assert done + [] == done;
  }

  /** `groups` holds, for each action bound among the first `i` visited keys, those keys in visiting order. */
  ghost predicate GroupedUpTo<A>(groups: map<A, seq<KeyCombination>>, order: seq<KeyCombination>,
                                 bindings: map<KeyCombination, A>, i: nat)
    requires i <= |order|
  {
    && (forall j :: 0 <= j < i ==> order[j] in bindings && bindings[order[j]] in groups)
    && (forall a :: a in groups ==> groups[a] == KeysFor(order[..i], bindings, a) != [])
  }

  /** An action with a visited key already has a group. */
  lemma GroupedCovers<A>(groups: map<A, seq<KeyCombination>>, order: seq<KeyCombination>,
                         bindings: map<KeyCombination, A>, i: nat, a: A)
    requires i <= |order| && GroupedUpTo(groups, order, bindings, i)
    ensures KeysFor(order[..i], bindings, a) != [] ==> a in groups
  {
    if KeysFor(order[..i], bindings, a) != [] {
      var m := KeysFor(order[..i], bindings, a)[0];
      KeysForMembers(order[..i], bindings, a, m);
      var j :| 0 <= j < i && order[..i][j] == m;
      assert bindings[order[j]] in groups;
    }
  }

  /** Appending the next visited key to its action's group keeps the grouping exact. */
  lemma GroupStep<A>(groups: map<A, seq<KeyCombination>>, order: seq<KeyCombination>,
                     bindings: map<KeyCombination, A>, i: nat)
    requires i < |order| && order[i] in bindings && GroupedUpTo(groups, order, bindings, i)
    ensures var a := bindings[order[i]];
      GroupedUpTo(groups[a := (if a in groups then groups[a] else []) + [order[i]]], order, bindings, i + 1)
  {
    var k := order[i];
    var a := bindings[k];
    var next := groups[a := (if a in groups then groups[a] else []) + [k]];
    KeysForStep(order, bindings, i);
    forall b | b in next ensures next[b] == KeysFor(order[..i + 1], bindings, b) != [] {
      if b == a {
        GroupedCovers(groups, order, bindings, i, a);
      }
    }
  }

  /** Once every key is visited, the groups are exactly the bound actions. */
  lemma GroupedAll<A>(groups: map<A, seq<KeyCombination>>, order: seq<KeyCombination>,
                      bindings: map<KeyCombination, A>)
    requires IsListing(order, bindings) && GroupedUpTo(groups, order, bindings, |order|)
    ensures groups.Keys == bindings.Values
    ensures forall a :: a in groups ==> groups[a] == KeysFor(order, bindings, a)
  {
    assert order[..|order|] == order;
    forall a | a in bindings.Values ensures a in groups {
      var k :| k in bindings && bindings[k] == a;
      var j :| 0 <= j < |order| && order[j] == k;
    }
    forall a | a in groups ensures a in bindings.Values {
      var k := KeysFor(order, bindings, a)[0];
      KeysForMembers(order, bindings, a, k);
    }
  }

  /** The first pass of `describe`: the keys of each action, in visiting order. */
  method GroupByAction<A(==)>(order: seq<KeyCombination>, bindings: map<KeyCombination, A>)
    returns (groups: map<A, seq<KeyCombination>>)
    requires IsListing(order, bindings)
    ensures groups.Keys == bindings.Values
    ensures forall a :: a in groups ==> groups[a] == KeysFor(order, bindings, a)
  {
    groups := map[];
    var i := 0;
    while i < |order|
      invariant 0 <= i <= |order|
      invariant GroupedUpTo(groups, order, bindings, i)
    {
      var k := order[i];
      var a := bindings[k];
      GroupStep(groups, order, bindings, i);
      groups := groups[a := (if a in groups then groups[a] else []) + [k]];
      i := i + 1;
    }
    GroupedAll(groups, order, bindings);
  }

  /** The second pass of `describe` for one action: the entries of its line. */
  method LabelsOf(keys: seq<KeyCombination>) returns (labels: seq<string>)
    ensures labels == Labels(keys)
  {
    labels := [];
    var j := 0;
    while j < |keys|
      invariant 0 <= j <= |keys|
      invariant labels == Labels(keys[..j])
    {
      assert keys[..j + 1][..j] == keys[..j];
      var key := keys[j];
      if key.Specific? {
        labels := labels + [Display(key)];
      } else if |labels| == 0 {
        labels := labels + [CharPlaceholder];
      }
      j := j + 1;
    }
    assert keys[..j] == keys;
  }

  // ---------------------------------------------------------------------
  // The key tree (multi-key sequences; its sequence adder is a stub)
  // ---------------------------------------------------------------------

  datatype TreeNode<A(==)> = Tree(tree: KeyTree<A>) | Action(action: A)

  class KeyTree<A(==)> {
    const keyMap: KeyMap<TreeNode<A>>

    constructor ()
      ensures fresh(keyMap) && keyMap.bindings == map[]
    {
      keyMap := new KeyMap();
    }

    /** Registering a key sequence does nothing. */
    method AddVector(codes: seq<KeyCombination>, a: A)
      ensures keyMap.bindings == old(keyMap.bindings)
    {
    }

    method AddNoMods(code: KeyCode, a: A)
      modifies keyMap
      ensures keyMap.bindings == old(keyMap.bindings)[Specific(code, NoMods) := Action(a)]
    {
      keyMap.AddNoMods(code, Action(a));
    }

    method AddCtrl(code: KeyCode, a: A)
      modifies keyMap
      ensures keyMap.bindings == old(keyMap.bindings)[Specific(code, NoMods.WithCtrl()) := Action(a)]
    {
      keyMap.AddCtrl(code, Action(a));
    }

    method AddShift(code: KeyCode, a: A)
      modifies keyMap
      ensures keyMap.bindings == old(keyMap.bindings)[Specific(code, NoMods.WithShift()) := Action(a)]
    {
      keyMap.AddShift(code, Action(a));
    }

    method AddCharNoHandler(a: A)
      modifies keyMap
      ensures keyMap.bindings == old(keyMap.bindings)[AllChars(NoMods) := Action(a)]
    {
      keyMap.AddCharNoHandler(Action(a));
    }

    method AddCharShift(a: A)
      modifies keyMap
      ensures keyMap.bindings == old(keyMap.bindings)[AllChars(NoMods.WithShift()) := Action(a)]
    {
      keyMap.AddCharShift(Action(a));
    }
  }
}
