/**
 * The meaning of the editor's key handling, as functions on values: the key
 * events the terminal delivers, cursor movement over the row lengths, the
 * viewport that follows the cursor, the two-mode key dispatch, and the line
 * editing of the prompt.
 */
module EditorSpec {
  import opened Wrappers
  import opened Positions
  import opened RowSpec
  import DocumentSpec

  // ---------------------------------------------------------------------
  // Events

  datatype TerminalMode = Normal | Insert

  datatype KeyCode =
    | Char(c: char)
    | Enter | Backspace | Delete | Esc
    | Up | Down | Left | Right
    | PageUp | PageDown | Home | End
    | OtherKey

  /** The modifier bits of a key press: Control, and whether any other modifier is held with it. */
  datatype Modifiers = Modifiers(control: bool, others: bool)

  datatype KeyEvent = KeyEvent(modifiers: Modifiers, code: KeyCode)

  /** A key press, or any other terminal event (mouse, focus, resize, paste). */
  datatype Event = Key(key: KeyEvent) | OtherEvent

  /** The work a Control chord hands to the editor: quitting, saving, searching. */
  datatype Command = Quit | Save | Search

  /** The size of the text area: the terminal's columns, and its lines less the two bars. */
  datatype Size = Size(width: nat, height: nat)

  /** The status-bar name of a mode. */
  function CurrentMode(mode: TerminalMode): (name: string)
    ensures |name| == 6
    ensures name == "Normal" <==> mode == Normal
    ensures name == "Insert" <==> mode == Insert
  {
    match mode
    case Normal => "Normal"
    case Insert => "Insert"
  }

  // ---------------------------------------------------------------------
  // Cursor movement

  /** The length of row `y`, and 0 for the line past the last row. */
  function RowWidth(texts: seq<string>, y: nat): nat
  {
    if y < |texts| then |texts[y]| else 0
  }

  /** The cursor is on a row or on the line after the last one, and not past its end. */
  predicate CursorValid(texts: seq<string>, at: Position)
  {
    at.y <= |texts| && at.x <= RowWidth(texts, at.y)
  }

  /**
   * Where `key` takes the cursor. Up, Down, PageUp and PageDown keep the
   * column; Left and Right wrap across row ends; Home and End go to the ends of
   * the row and, pressed again, to the previous or next row. The column is then
   * clamped to the row the cursor lands on.
   */
  function Moved(texts: seq<string>, at: Position, key: KeyCode, terminalHeight: nat): (p: Position)
    ensures p.x <= RowWidth(texts, p.y)
    ensures at.y <= |texts| ==> p.y <= |texts|
  {
    var height := |texts|;
    var width := RowWidth(texts, at.y);
    var target :=
      match key
      case Up => Position(at.x, SaturatingSub(at.y, 1))
      case Down => Position(at.x, if at.y < height then at.y + 1 else at.y)
      case Left =>
        if at.x > 0 then Position(at.x - 1, at.y)
        else if at.y > 0 then Position(RowWidth(texts, at.y - 1), at.y - 1)
        else at
      case Right =>
        if at.x < width then Position(at.x + 1, at.y)
        else Position(0, if at.y < height then at.y + 1 else at.y)
      case PageUp => Position(at.x, SaturatingSub(at.y, terminalHeight))
      case PageDown => Position(at.x, Min(at.y + terminalHeight, height))
      case Home => Position(0, if at.x == 0 then SaturatingSub(at.y, 1) else at.y)
      case End =>
        var y := if at.x == width && at.y < height then at.y + 1 else at.y;
        Position(RowWidth(texts, y), y)
      case _ => at;
    Position(Min(target.x, RowWidth(texts, target.y)), target.y)
  }

  /** A move from a valid cursor leaves a valid cursor. */
  lemma MovedKeepsCursorValid(texts: seq<string>, at: Position, key: KeyCode, terminalHeight: nat)
    requires at.y <= |texts|
    ensures CursorValid(texts, Moved(texts, at, key, terminalHeight))
  {
  }

  /** Nothing moves above the first row, and Left at the very start stays there. */
  lemma MovedSaturatesAtTop(texts: seq<string>, x: nat, terminalHeight: nat)
    ensures Moved(texts, Position(x, 0), Up, terminalHeight).y == 0
    ensures Moved(texts, Position(x, 0), PageUp, terminalHeight).y == 0
    ensures Moved(texts, Position(x, 0), Home, terminalHeight) == Position(0, 0)
    ensures Moved(texts, Position(0, 0), Left, terminalHeight) == Position(0, 0)
  {
  }

  /** Down and PageDown stop at the line after the last row. */
  lemma MovedSaturatesAtBottom(texts: seq<string>, at: Position, terminalHeight: nat)
    requires CursorValid(texts, at)
    ensures Moved(texts, at, Down, terminalHeight).y == if at.y < |texts| then at.y + 1 else at.y
    ensures Moved(texts, at, PageDown, terminalHeight).y == Min(at.y + terminalHeight, |texts|)
    ensures at.y == |texts| ==> Moved(texts, at, Right, terminalHeight) == Position(0, at.y)
  {
  }

  /** Left at the start of a row goes to the end of the row above; Right at the end of a row goes to the start of the next. */
  lemma MovedWrapsAcrossRows(texts: seq<string>, at: Position, terminalHeight: nat)
    ensures at.x == 0 && at.y > 0 ==>
      Moved(texts, at, Left, terminalHeight) == Position(RowWidth(texts, at.y - 1), at.y - 1)
    ensures at.y < |texts| && at.x == |texts[at.y]| ==>
      Moved(texts, at, Right, terminalHeight) == Position(0, at.y + 1)
  {
  }

  /** Inside a row, Left and Right move one column and stay on the row. */
  lemma MovedWithinRow(texts: seq<string>, at: Position, terminalHeight: nat)
    requires CursorValid(texts, at)
    ensures at.x > 0 ==> Moved(texts, at, Left, terminalHeight) == Position(at.x - 1, at.y)
    ensures at.x < RowWidth(texts, at.y) ==> Moved(texts, at, Right, terminalHeight) == Position(at.x + 1, at.y)
  {
  }

  // ---------------------------------------------------------------------
  // Scrolling

  /**
   * The new offset along one axis: unchanged while the cursor coordinate `c`
   * lies in the `extent` cells from `offset`, otherwise moved just far enough
   * that `c` is the first or the last visible cell.
   */
  function ScrolledAxis(c: nat, offset: nat, extent: nat): (r: nat)
    ensures offset <= c < offset + extent ==> r == offset
    ensures extent >= 1 ==> r <= c < r + extent
    ensures c < offset ==> r == c
    ensures extent >= 1 && c >= offset + extent ==> r + extent == c + 1
  {
    if c < offset then c
    else if c >= offset + extent then SaturatingSub(c, extent) + 1
    else offset
  }

  function Scrolled(cursor: Position, offset: Position, size: Size): Position
  {
    Position(ScrolledAxis(cursor.x, offset.x, size.width), ScrolledAxis(cursor.y, offset.y, size.height))
  }

  predicate Visible(cursor: Position, offset: Position, size: Size)
  {
    offset.y <= cursor.y < offset.y + size.height && offset.x <= cursor.x < offset.x + size.width
  }

  /** On a text area of at least one cell, the cursor is visible after scrolling, and a visible cursor moves nothing. */
  lemma ScrollShowsCursor(cursor: Position, offset: Position, size: Size)
    ensures size.width >= 1 && size.height >= 1 ==> Visible(cursor, Scrolled(cursor, offset, size), size)
    ensures Visible(cursor, offset, size) ==> Scrolled(cursor, offset, size) == offset
  {
  }

  // ---------------------------------------------------------------------
  // Key dispatch

  /** The editor state a key press changes: the mode, the cursor, the row texts. */
  datatype Outcome = Outcome(
    mode: TerminalMode,
    cursor: Position,
    texts: seq<string>,
    touched: bool,             // the document was asked to insert, or to delete on one of its rows
    command: Option<Command>)  // a Control chord for the editor to carry out

  function Unchanged(mode: TerminalMode, at: Position, texts: seq<string>): Outcome
  {
    Outcome(mode, at, texts, false, Option.None)
  }

  /** Control with `q`, `s` or `f`, and no other modifier, is a command. */
  function CommandOf(key: KeyEvent): (r: Option<Command>)
    ensures r.Some? ==> key.modifiers == Modifiers(true, false) && key.code.Char?
    ensures r == Some(Quit) <==> key == KeyEvent(Modifiers(true, false), Char('q'))
    ensures r == Some(Save) <==> key == KeyEvent(Modifiers(true, false), Char('s'))
    ensures r == Some(Search) <==> key == KeyEvent(Modifiers(true, false), Char('f'))
  {
    if key.modifiers != Modifiers(true, false) || !key.code.Char? then Option.None
    else if key.code.c == 'q' then Some(Quit)
    else if key.code.c == 's' then Some(Save)
    else if key.code.c == 'f' then Some(Search)
    else Option.None
  }

  /** `c` typed at the cursor, which then moves right. */
  function Typed(mode: TerminalMode, at: Position, texts: seq<string>, c: char, terminalHeight: nat): Outcome
  {
    var edited := DocumentSpec.Insert(texts, at, c);
    Outcome(mode, Moved(edited, at, Right, terminalHeight), edited, true, Option.None)
  }

  /** A move in Normal mode by `h`, `j`, `k`, `l`, and the switch to Insert mode by `i`. */
  function NormalChar(at: Position, texts: seq<string>, c: char, terminalHeight: nat): Outcome
  {
    if c == 'h' then Unchanged(Normal, Moved(texts, at, Left, terminalHeight), texts)
    else if c == 'j' then Unchanged(Normal, Moved(texts, at, Down, terminalHeight), texts)
    else if c == 'k' then Unchanged(Normal, Moved(texts, at, Up, terminalHeight), texts)
    else if c == 'l' then Unchanged(Normal, Moved(texts, at, Right, terminalHeight), texts)
    else if c == 'i' then Unchanged(Insert, at, texts)
    else Unchanged(Normal, at, texts)
  }

  /** What one key press does before the view scrolls to the cursor. */
  function Dispatch(mode: TerminalMode, at: Position, texts: seq<string>, event: Event, terminalHeight: nat): Outcome
  {
    match event
    case OtherEvent => Unchanged(mode, at, texts)
    case Key(key) =>
      if CommandOf(key).Some? then Outcome(mode, at, texts, false, CommandOf(key))
      else
        match key.code
        case Char(c) =>
          if mode == Normal then NormalChar(at, texts, c, terminalHeight)
          else Typed(mode, at, texts, c, terminalHeight)
        case Enter =>
          if mode == Insert then Typed(mode, at, texts, '\n', terminalHeight)
          else Unchanged(mode, at, texts)
        case Delete =>
          if mode == Insert then Outcome(mode, at, DocumentSpec.Delete(texts, at), at.y < |texts|, Option.None)
          else Unchanged(mode, at, texts)
        case Backspace =>
          if mode == Insert && (at.x > 0 || at.y > 0) then
            var back := Moved(texts, at, Left, terminalHeight);
            Outcome(mode, back, DocumentSpec.Delete(texts, back), back.y < |texts|, Option.None)
          else Unchanged(mode, at, texts)
        case Esc => Unchanged(Normal, at, texts)
        case OtherKey => Unchanged(mode, at, texts)
        case _ => Unchanged(mode, Moved(texts, at, key.code, terminalHeight), texts)
  }

  /** A typed character is a one-byte grapheme, as every row character is. */
  predicate TypesGrapheme(event: Event)
  {
    event.Key? && event.key.code.Char? ==> IsGraphemeChar(event.key.code.c)
  }

  /** The key press `code` with no modifier that makes it a command. */
  predicate Pressed(event: Event, code: KeyCode)
  {
    event.Key? && event.key.code == code && CommandOf(event.key).None?
  }

  /** Only `i` in Normal mode enters Insert mode, and only Esc in Insert mode leaves it. */
  lemma ModeTransitions(mode: TerminalMode, at: Position, texts: seq<string>, event: Event, terminalHeight: nat)
    ensures Dispatch(mode, at, texts, event, terminalHeight).mode != mode <==>
      (mode == Normal && Pressed(event, Char('i'))) || (mode == Insert && Pressed(event, Esc))
  {
  }

  /** In Normal mode keys only move the cursor or switch mode: the text and the dirty flag stay. */
  lemma NormalDoesNotEdit(at: Position, texts: seq<string>, event: Event, terminalHeight: nat)
    ensures Dispatch(Normal, at, texts, event, terminalHeight).texts == texts
    ensures !Dispatch(Normal, at, texts, event, terminalHeight).touched
  {
  }

  /** In Insert mode a typed character or Enter is inserted at the cursor. */
  lemma InsertModeTypes(at: Position, texts: seq<string>, event: Event, terminalHeight: nat)
    requires event.Key? && CommandOf(event.key).None?
    ensures event.key.code.Char? ==>
      Dispatch(Insert, at, texts, event, terminalHeight).texts == DocumentSpec.Insert(texts, at, event.key.code.c)
    ensures event.key.code == Enter ==>
      Dispatch(Insert, at, texts, event, terminalHeight).texts == DocumentSpec.Insert(texts, at, '\n')
  {
  }

  /** Backspace at the very start does nothing. */
  lemma BackspaceAtStart(texts: seq<string>, event: Event, terminalHeight: nat)
    requires Pressed(event, Backspace)
    ensures Dispatch(Insert, Position(0, 0), texts, event, terminalHeight) == Unchanged(Insert, Position(0, 0), texts)
  {
  }

  /** Backspace inside a row removes the character left of the cursor, which steps back onto its place. */
  lemma BackspaceInRow(at: Position, texts: seq<string>, event: Event, terminalHeight: nat)
    requires Pressed(event, Backspace) && CursorValid(texts, at) && at.x > 0
    ensures var o := Dispatch(Insert, at, texts, event, terminalHeight);
      && o.cursor == Position(at.x - 1, at.y)
      && o.texts == texts[at.y := DeleteAt(texts[at.y], at.x - 1)]
      && |o.texts[at.y]| == |texts[at.y]| - 1
  {
  }

  /**
   * Backspace at the start of a row joins the row onto the one above and
   * leaves the cursor at the join point.
   */
  lemma BackspaceJoinsRows(at: Position, texts: seq<string>, event: Event, terminalHeight: nat)
    requires Pressed(event, Backspace) && at.x == 0 && 0 < at.y < |texts|
    ensures var o := Dispatch(Insert, at, texts, event, terminalHeight);
      && o.cursor == Position(|texts[at.y - 1]|, at.y - 1)
      && o.texts == texts[..at.y - 1] + [texts[at.y - 1] + texts[at.y]] + texts[at.y + 1..]
      && |o.texts| == |texts| - 1
  {
    var back := Moved(texts, at, Left, terminalHeight);
    assert back == Position(|texts[at.y - 1]|, at.y - 1);
  }

  lemma BackspaceJoinExample(event: Event)
    requires Pressed(event, Backspace)
    ensures Dispatch(Insert, Position(0, 1), ["foo", "bar"], event, 1) ==
      Outcome(Insert, Position(3, 0), ["foobar"], true, Option.None)
  {
    var texts := ["foo", "bar"];
    BackspaceJoinsRows(Position(0, 1), texts, event, 1);
    assert texts[0] + texts[1] == "foobar";
    assert texts[..0] + [texts[0] + texts[1]] + texts[2..] == ["foobar"];
  }

  /** Deleting at a valid cursor leaves the cursor valid. */
  lemma DeleteKeepsCursorValid(texts: seq<string>, at: Position)
    requires CursorValid(texts, at)
    ensures CursorValid(DocumentSpec.Delete(texts, at), at)
  {
    if at.y < |texts| && !(at.x == |texts[at.y]| && at.y + 1 < |texts|) {
      assert DocumentSpec.Delete(texts, at)[at.y] == DeleteAt(texts[at.y], at.x);
    }
  }

  /** No key press takes the cursor off the text, whatever it does to the rows. */
  lemma DispatchKeepsCursorValid(mode: TerminalMode, at: Position, texts: seq<string>, event: Event, terminalHeight: nat)
    requires CursorValid(texts, at)
    ensures var o := Dispatch(mode, at, texts, event, terminalHeight); CursorValid(o.texts, o.cursor)
  {
    var o := Dispatch(mode, at, texts, event, terminalHeight);
    if event.Key? && CommandOf(event.key).None? && mode == Insert {
      match event.key.code
      case Delete => DeleteKeepsCursorValid(texts, at);
      case Backspace =>
        if at.x > 0 || at.y > 0 {
          MovedKeepsCursorValid(texts, at, Left, terminalHeight);
          DeleteKeepsCursorValid(texts, Moved(texts, at, Left, terminalHeight));
        }
      case _ =>
    }
  }

  // ---------------------------------------------------------------------
  // The prompt

  /** Rust's `char::is_control`: the C0 and C1 control characters and DEL. */
  predicate IsControl(c: char)
  {
    c as int <= 0x1F || 0x7F <= c as int <= 0x9F
  }

  predicate NoControl(s: string)
  {
    forall i :: 0 <= i < |s| ==> !IsControl(s[i])
  }

  /** How a prompt ends: with the typed answer (none when empty or cancelled), or with a failed terminal read. */
  datatype PromptResult = Answered(answer: Option<string>) | ReadFailed

  /** The buffer without its last character; the empty buffer stays empty. */
  function DropLast(s: string): (r: string)
    ensures s != [] ==> r + [s[|s| - 1]] == s
    ensures s == [] ==> r == []
  {
    if s == [] then [] else s[..|s| - 1]
  }

  /** The buffer after a key other than Enter and Esc. */
  function PromptEdit(buffer: string, code: KeyCode): string
  {
    match code
    case Backspace => DropLast(buffer)
    case Char(c) => if IsControl(c) then buffer else buffer + [c]
    case _ => buffer
  }

  /** An empty answer is no answer. */
  function Answer(buffer: string): Option<string>
  {
    if buffer == [] then Option.None else Some(buffer)
  }

  predicate EndsInput(event: Event)
  {
    event.Key? && (event.key.code == Enter || event.key.code == Esc)
  }

  /** The prompt reading `events` with `buffer` typed so far. */
  function PromptFrom(buffer: string, events: seq<Event>): PromptResult
    decreases |events|
  {
    if events == [] then ReadFailed
    else if events[0].Key? && events[0].key.code == Enter then Answered(Answer(buffer))
    else if events[0].Key? && events[0].key.code == Esc then Answered(Option.None)
    else if events[0].Key? then PromptFrom(PromptEdit(buffer, events[0].key.code), events[1..])
    else PromptFrom(buffer, events[1..])
  }

  /** The buffer after `events`, none of which ends the input: a reference fold of the line editing. */
  function EditedBy(buffer: string, events: seq<Event>): string
    decreases |events|
  {
    if events == [] then buffer
    else EditedBy(if events[0].Key? then PromptEdit(buffer, events[0].key.code) else buffer, events[1..])
  }

  predicate HasEnd(events: seq<Event>)
  {
    exists i :: 0 <= i < |events| && EndsInput(events[i])
  }

  /**
   * The prompt answers exactly at the first Enter or Esc: Enter gives the
   * edited buffer (none when it is empty), Esc gives none. The keys before it
   * are line edits; the prompt reads until then.
   */
  lemma {:induction false} PromptEndsAtFirstEnd(buffer: string, events: seq<Event>, last: KeyEvent)
    requires !HasEnd(events) && (last.code == Enter || last.code == Esc)
    ensures PromptFrom(buffer, events + [Key(last)]) ==
      Answered(if last.code == Esc then Option.None else Answer(EditedBy(buffer, events)))
    decreases |events|
  {
    if events != [] {
      assert !EndsInput(events[0]);
      assert (events + [Key(last)])[1..] == events[1..] + [Key(last)];
      assert !HasEnd(events[1..]) by {
        forall i | 0 <= i < |events[1..]|
          ensures !EndsInput(events[1..][i])
        {
          assert events[1..][i] == events[i + 1];
        }
      }
      var next := if events[0].Key? then PromptEdit(buffer, events[0].key.code) else buffer;
      PromptEndsAtFirstEnd(next, events[1..], last);
    }
  }

  /** Without Enter or Esc the prompt never answers: it keeps reading until the terminal fails. */
  lemma {:induction false} PromptWaitsForEnd(buffer: string, events: seq<Event>)
    requires !HasEnd(events)
    ensures PromptFrom(buffer, events) == ReadFailed
    decreases |events|
  {
    if events != [] {
      assert !EndsInput(events[0]);
      assert !HasEnd(events[1..]) by {
        forall i | 0 <= i < |events[1..]|
          ensures !EndsInput(events[1..][i])
        {
          assert events[1..][i] == events[i + 1];
        }
      }
      PromptWaitsForEnd(if events[0].Key? then PromptEdit(buffer, events[0].key.code) else buffer, events[1..]);
    }
  }

  /** An answer is never empty and holds no control character. */
  lemma {:induction false} PromptAnswerClean(buffer: string, events: seq<Event>)
    requires NoControl(buffer)
    ensures PromptFrom(buffer, events).Answered? && PromptFrom(buffer, events).answer.Some? ==>
      PromptFrom(buffer, events).answer.value != [] && NoControl(PromptFrom(buffer, events).answer.value)
    decreases |events|
  {
    if events != [] && !EndsInput(events[0]) {
      var next := if events[0].Key? then PromptEdit(buffer, events[0].key.code) else buffer;
      assert NoControl(next) by {
        if events[0].Key? && events[0].key.code == Backspace && buffer != [] {
          assert forall i :: 0 <= i < |next| ==> next[i] == buffer[i];
        }
      }
      PromptAnswerClean(next, events[1..]);
    }
  }

  function KeyOf(code: KeyCode): Event
  {
    Key(KeyEvent(Modifiers(false, false), code))
  }

  lemma PromptEditExample()
    ensures PromptFrom([], [KeyOf(Char('a')), KeyOf(Char('b')), KeyOf(Backspace), KeyOf(Char('c')), KeyOf(Enter)]) ==
      Answered(Some("ac"))
  {
    var e4 := [KeyOf(Enter)];
    var e3 := [KeyOf(Char('c'))] + e4;
    var e2 := [KeyOf(Backspace)] + e3;
    var e1 := [KeyOf(Char('b'))] + e2;
    var e0 := [KeyOf(Char('a'))] + e1;
    assert e0 == [KeyOf(Char('a')), KeyOf(Char('b')), KeyOf(Backspace), KeyOf(Char('c')), KeyOf(Enter)];
    assert PromptEdit([], Char('a')) == "a";
    assert PromptFrom([], e0) == PromptFrom("a", e1) by { assert e0[1..] == e1; }
    assert PromptEdit("a", Char('b')) == "ab";
    assert PromptFrom("a", e1) == PromptFrom("ab", e2) by { assert e1[1..] == e2; }
    assert PromptEdit("ab", Backspace) == "a" by { assert DropLast("ab") == "a"; }
    assert PromptFrom("ab", e2) == PromptFrom("a", e3) by { assert e2[1..] == e3; }
    assert PromptEdit("a", Char('c')) == "ac";
    assert PromptFrom("a", e3) == PromptFrom("ac", e4) by { assert e3[1..] == e4; }
  }

  lemma PromptSkipsControlExample()
    ensures PromptFrom([], [KeyOf(Char('a')), KeyOf(Char('\U{7}')), KeyOf(Enter)]) == Answered(Some("a"))
  {
    var events := [KeyOf(Char('a')), KeyOf(Char('\U{7}')), KeyOf(Enter)];
    assert PromptEdit([], Char('a')) == "a";
    assert PromptFrom([], events) == PromptFrom("a", events[1..]);
    assert PromptFrom("a", events[1..]) == PromptFrom("a", events[2..]);
  }

  lemma PromptCancelExamples()
    ensures PromptFrom([], [KeyOf(Char('a')), KeyOf(Esc), KeyOf(Enter)]) == Answered(Option.None)
    ensures PromptFrom([], [KeyOf(Backspace), KeyOf(Enter)]) == Answered(Option.None)
  {
    var events := [KeyOf(Char('a')), KeyOf(Esc), KeyOf(Enter)];
    assert PromptEdit([], Char('a')) == "a";
    assert PromptFrom([], events) == PromptFrom("a", events[1..]);
    var erased := [KeyOf(Backspace), KeyOf(Enter)];
    assert PromptFrom([], erased) == PromptFrom([], erased[1..]);
  }

  // ---------------------------------------------------------------------
  // Backspace in the prompt, as written: a cut by bytes

  /** The number of bytes `c` takes in UTF-8. */
  function Utf8Width(c: char): (n: nat)
    ensures 1 <= n <= 4
    ensures n == 1 <==> c as int < 0x80
  {
    if c as int < 0x80 then 1
    else if c as int < 0x800 then 2
    else if c as int < 0x1_0000 then 3
    else 4
  }

  function Utf8Len(s: string): (n: nat)
    ensures n >= |s|
  {
    if s == [] then 0 else Utf8Width(s[0]) + Utf8Len(s[1..])
  }

  /**
   * Rust's `String::truncate` to `n` bytes: no effect when `n` is at least the
   * length, the first characters up to byte `n` when `n` falls between
   * characters, and a panic (`None`) when `n` falls inside a character.
   */
  function TruncateBytes(s: string, n: nat): Option<string>
    decreases |s|
  {
    if s == [] || n == 0 then Some([])
    else if n < Utf8Width(s[0]) then Option.None
    else
      match TruncateBytes(s[1..], n - Utf8Width(s[0]))
      case Some(t) => Some([s[0]] + t)
      case None => Option.None
  }

  /** Backspace in the prompt as written: one byte less, or a panic (`None`). */
  function BackspaceAsWritten(buffer: string): Option<string>
  {
    TruncateBytes(buffer, SaturatingSub(Utf8Len(buffer), 1))
  }

  lemma {:induction false} Utf8LenAppend(s: string, c: char)
    ensures Utf8Len(s + [c]) == Utf8Len(s) + Utf8Width(c)
    decreases |s|
  {
    if s != [] {
      assert (s + [c])[1..] == s[1..] + [c];
      Utf8LenAppend(s[1..], c);
    }
  }

  lemma {:induction false} TruncateAtEnd(s: string, extra: string)
    ensures TruncateBytes(s + extra, Utf8Len(s)) == Some(s)
    decreases |s|
  {
    if s != [] {
      assert (s + extra)[0] == s[0];
      assert (s + extra)[1..] == s[1..] + extra;
      TruncateAtEnd(s[1..], extra);
      assert [s[0]] + s[1..] == s;
    } else if extra != [] {
      assert TruncateBytes(s + extra, 0) == Some([]);
    }
  }

  /** As written, Backspace removes the last character when that character is a single byte. */
  lemma BackspaceAsWrittenOnAscii(buffer: string, c: char)
    requires c as int < 0x80
    ensures BackspaceAsWritten(buffer + [c]) == Some(buffer)
  {
    Utf8LenAppend(buffer, c);
    TruncateAtEnd(buffer, [c]);
  }

  /** As written, Backspace after a character of more than one byte panics: `é` is two bytes, and byte 1 is inside it. */
  lemma BackspaceAsWrittenPanics()
    ensures BackspaceAsWritten("é").None?
    ensures !IsControl('é') && PromptEdit([], Char('é')) == "é"
  {
    assert Utf8Len("é") == 2;
  }

  /** The corrected Backspace removes exactly the last character, whatever its width. */
  lemma DropLastRemovesLast(buffer: string, c: char)
    ensures DropLast(buffer + [c]) == buffer
    ensures PromptEdit(buffer + [c], Backspace) == buffer
  {
    assert (buffer + [c])[..|buffer|] == buffer;
  }
}
