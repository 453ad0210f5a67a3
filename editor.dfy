/**
 * The editor's cursor, view and mode, and the key handling that drives the
 * document. Each method updates the editor in place and is proved against the
 * functions of `EditorSpec`.
 */
module Editors {
  import opened Wrappers
  import opened Positions
  import opened RowSpec
  import opened Rows
  import opened Documents
  import opened EditorSpec
  import DocumentSpec

  class Editor {
    var cursorPosition: Position
    var offset: Position
    const document: Document
    var terminalMode: TerminalMode

    /** The document is consistent and the cursor is on its text. */
    ghost predicate Valid()
      reads this, document, document.rows
    {
      document.Valid() && CursorValid(document.texts, cursorPosition)
    }

    /** An editor on `document`, in Normal mode, with the cursor and the view at the start. */
    constructor (document: Document)
      requires document.Valid()
      ensures Valid() && this.document == document
      ensures cursorPosition == Position(0, 0) && offset == Position(0, 0) && terminalMode == Normal
    {
      this.document := document;
      cursorPosition := Position(0, 0);
      offset := Position(0, 0);
      terminalMode := Normal;
    }

    /** The length of row `y`, and 0 past the last row. */
    function CalculateWidth(y: nat): (w: nat)
      requires document.Valid()
      reads this, document, document.rows
      ensures w == RowWidth(document.texts, y)
    {
      match document.RowAt(y)
      case Some(row) => row.len
      case None => 0
    }

    /** Moves the cursor for `key`, then clamps its column to the row it is on. */
    method MoveCursor(key: KeyCode, terminalHeight: nat)
      requires document.Valid()
      modifies this`cursorPosition
      ensures cursorPosition == Moved(document.texts, old(cursorPosition), key, terminalHeight)
    {
      var x, y := cursorPosition.x, cursorPosition.y;
      var height := document.Len();
      var width := CalculateWidth(y);
      match key {
        case Up =>
          y := SaturatingSub(y, 1);
        case Down =>
          if y < height {
            y := y + 1;
          }
        case Left =>
          if x > 0 {
            x := x - 1;
          } else if y > 0 {
            y := y - 1;
            x := CalculateWidth(y);
          }
        case Right =>
          if x < width {
            x := x + 1;
          } else {
            if y < height {
              y := y + 1;
            }
            x := 0;
          }
        case PageUp =>
          y := SaturatingSub(y, terminalHeight);
        case PageDown =>
          y := Min(y + terminalHeight, height);
        case Home =>
          if x == 0 {
            y := SaturatingSub(y, 1);
          }
          x := 0;
        case End =>
          if x == width && y < height {
            y := y + 1;
          }
          width := CalculateWidth(y);
          x := width;
        case _ =>
      }
      width := CalculateWidth(y);
      x := Min(x, width);
      cursorPosition := Position(x, y);
    }

    /** Moves the view just enough to show the cursor on a text area of `size`. */
    method Scroll(size: Size)
      modifies this`offset
      ensures offset == Scrolled(cursorPosition, old(offset), size)
    {
      var x, y := cursorPosition.x, cursorPosition.y;
      if y < offset.y {
        offset := offset.(y := y);
      } else if y >= offset.y + size.height {
        offset := offset.(y := SaturatingSub(y, size.height) + 1);
      }
      if x < offset.x {
        offset := offset.(x := x);
      } else if x >= offset.x + size.width {
        offset := offset.(x := SaturatingSub(x, size.width) + 1);
      }
    }

    /** Inserts `c` at the cursor and moves the cursor right over it. */
    method TypeAtCursor(c: char, terminalHeight: nat)
      requires document.Valid() && (c == '\n' || IsGraphemeChar(c))
      modifies this`cursorPosition, document, document.rows
      ensures document.Valid()
      ensures var o := Typed(terminalMode, old(cursorPosition), old(document.texts), c, terminalHeight);
        cursorPosition == o.cursor && document.texts == o.texts
      ensures document.isDirty && document.filename == old(document.filename) && document.options == old(document.options)
    {
      document.Insert(cursorPosition, c);
      MoveCursor(Right, terminalHeight);
    }

    /** Deletes at the cursor, which stays where it is. */
    method DeleteAtCursor()
      requires document.Valid()
      modifies document, document.rows
      ensures document.Valid()
      ensures document.texts == DocumentSpec.Delete(old(document.texts), cursorPosition)
      ensures document.isDirty == (old(document.isDirty) || cursorPosition.y < |old(document.texts)|)
      ensures document.filename == old(document.filename) && document.options == old(document.options)
    {
      document.Delete(cursorPosition);
    }

    /** Moves the cursor left and deletes what it lands on. */
    method BackspaceAtCursor(terminalHeight: nat)
      requires document.Valid()
      modifies this`cursorPosition, document, document.rows
      ensures document.Valid()
      ensures cursorPosition == Moved(old(document.texts), old(cursorPosition), Left, terminalHeight)
      ensures document.texts == DocumentSpec.Delete(old(document.texts), cursorPosition)
      ensures document.isDirty == (old(document.isDirty) || cursorPosition.y < |old(document.texts)|)
      ensures document.filename == old(document.filename) && document.options == old(document.options)
    {
      MoveCursor(Left, terminalHeight);
      DeleteAtCursor();
    }

    /** A character in Normal mode: `h`, `j`, `k`, `l` move the cursor and `i` enters Insert mode. */
    method NormalModeChar(c: char, terminalHeight: nat)
      requires document.Valid() && terminalMode == Normal
      modifies this`cursorPosition, this`terminalMode
      ensures var o := NormalChar(old(cursorPosition), document.texts, c, terminalHeight);
        terminalMode == o.mode && cursorPosition == o.cursor
    {
      if c == 'h' {
        MoveCursor(Left, terminalHeight);
      } else if c == 'j' {
        MoveCursor(Down, terminalHeight);
      } else if c == 'k' {
        MoveCursor(Up, terminalHeight);
      } else if c == 'l' {
        MoveCursor(Right, terminalHeight);
      } else if c == 'i' {
        terminalMode := Insert;
      }
    }

    /** A key press that is not a command: moves, mode switches and, in Insert mode, edits. */
    method HandleKey(key: KeyEvent, terminalHeight: nat)
      requires document.Valid() && CommandOf(key).None? && TypesGrapheme(Key(key))
      modifies this`cursorPosition, this`terminalMode, document, document.rows
      ensures document.Valid()
      ensures var o := Dispatch(old(terminalMode), old(cursorPosition), old(document.texts), Key(key), terminalHeight);
        && terminalMode == o.mode && cursorPosition == o.cursor && document.texts == o.texts
        && document.isDirty == (old(document.isDirty) || o.touched)
      ensures document.filename == old(document.filename) && document.options == old(document.options)
    {
      ghost var o := Dispatch(terminalMode, cursorPosition, document.texts, Key(key), terminalHeight);
      match key.code {
        case Char(c) =>
          if terminalMode == Normal {
            assert o == NormalChar(cursorPosition, document.texts, c, terminalHeight);
            NormalModeChar(c, terminalHeight);
          } else {
            assert o == Typed(terminalMode, cursorPosition, document.texts, c, terminalHeight);
            TypeAtCursor(c, terminalHeight);
          }
        case Enter =>
          if terminalMode == Insert {
            assert o == Typed(terminalMode, cursorPosition, document.texts, '\n', terminalHeight);
            TypeAtCursor('\n', terminalHeight);
          }
        case Delete =>
          if terminalMode == Insert {
            assert o.cursor == cursorPosition && o.texts == DocumentSpec.Delete(document.texts, cursorPosition);
            DeleteAtCursor();
          }
        case Backspace =>
          if terminalMode == Insert && (cursorPosition.x > 0 || cursorPosition.y > 0) {
            assert o.cursor == Moved(document.texts, cursorPosition, Left, terminalHeight);
            BackspaceAtCursor(terminalHeight);
          }
        case Esc =>
          terminalMode := Normal;
        case OtherKey =>
        case _ =>
          assert o == Unchanged(terminalMode, Moved(document.texts, cursorPosition, key.code, terminalHeight), document.texts);
          MoveCursor(key.code, terminalHeight);
      }
    }

    /**
     * Handles one terminal event and scrolls the view to the cursor. A Control
     * chord for quitting, saving or searching is handed back as a command.
     */
    method ProcessKeypress(event: Event, size: Size) returns (command: Option<Command>)
      requires Valid() && TypesGrapheme(event)
      modifies this, document, document.rows
      ensures Valid()
      ensures var o := Dispatch(old(terminalMode), old(cursorPosition), old(document.texts), event, size.height);
        && terminalMode == o.mode && cursorPosition == o.cursor && document.texts == o.texts
        && command == o.command && document.isDirty == (old(document.isDirty) || o.touched)
      ensures offset == Scrolled(cursorPosition, old(offset), size)
      ensures document.filename == old(document.filename) && document.options == old(document.options)
    {
      DispatchKeepsCursorValid(terminalMode, cursorPosition, document.texts, event, size.height);
      command := Option.None;
      if event.Key? {
        command := CommandOf(event.key);
        if command.None? {
          HandleKey(event.key, size.height);
        }
      }
      Scroll(size);
    }

    /**
     * Reads `events` as the terminal delivers them into an answer line, until
     * Enter or Esc; when the events run out the terminal read fails.
     */
    method Prompt(events: seq<Event>) returns (r: PromptResult)
      ensures r == PromptFrom([], events)
    {
      var result: string := [];
      var i := 0;
      while i < |events|
        invariant i <= |events|
        invariant PromptFrom(result, events[i..]) == PromptFrom([], events)
      {
        var event := events[i];
        assert events[i..][1..] == events[i + 1..];
        if event.Key? {
          match event.key.code {
            case Backspace =>
              result := DropLast(result);
            case Enter =>
              return Answered(Answer(result));
            case Char(c) =>
              if !IsControl(c) {
                result := result + [c];
              }
            case Esc =>
              result := [];
              return Answered(Answer(result));
            case _ =>
          }
        }
        i := i + 1;
      }
      return ReadFailed;
    }
  }
}
