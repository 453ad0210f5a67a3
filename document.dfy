/**
 * The open file: a sequence of rows it owns, the name it is saved under, the
 * dirty flag and the highlighting options of its file type. Every method is
 * proved against the functions of `DocumentSpec` on the texts of the rows.
 */
module Documents {
  import opened Wrappers
  import opened Highlighting
  import opened Positions
  import opened RowSpec
  import opened Rows
  import DocumentSpec

  /** The file type with no highlighting enabled. */
  const PlainText := HighlightingOptions(false, false, false, false, [], [])

  /** What `save` does: nothing without a file name, fail to create the file, or write these bytes. */
  datatype SaveOutcome = NoFilename | CreateFailed | Written(data: string)

  /** Positions in a sequence after one element is put in at index `p`. */
  lemma InsertedAt<T>(s: seq<T>, p: nat, x: T)
    requires p <= |s|
    ensures var r := s[..p] + [x] + s[p..];
      && |r| == |s| + 1 && r[p] == x
      && (forall k :: 0 <= k < p ==> r[k] == s[k])
      && (forall k :: p < k < |r| ==> r[k] == s[k - 1])
  {
  }

  /** Positions in a sequence after the element at index `p` is taken out. */
  lemma RemovedAt<T>(s: seq<T>, p: nat)
    requires p < |s|
    ensures var r := s[..p] + s[p + 1..];
      && |r| == |s| - 1
      && (forall k :: 0 <= k < p ==> r[k] == s[k])
      && (forall k :: p <= k < |r| ==> r[k] == s[k + 1])
  {
  }

  /** Every row is well formed, and no row object appears twice. */
  ghost predicate RowsValid(rs: seq<Row>)
    reads rs`content, rs`len
  {
    && (forall i :: 0 <= i < |rs| ==> rs[i].Valid())
    && (forall i, j :: 0 <= i < j < |rs| ==> rs[i] != rs[j])
  }

  /** `texts` are the texts of the rows `rs`, top to bottom. */
  ghost predicate Mirrors(rs: seq<Row>, texts: seq<string>)
    reads rs`content
  {
    |rs| == |texts| && forall i :: 0 <= i < |rs| ==> rs[i].content == texts[i]
  }

  /** A row put in at index `p` keeps the rows valid when it is new to them, and puts its text in at `p`. */
  lemma Inserted(rs: seq<Row>, texts: seq<string>, p: nat, x: Row)
    requires p <= |rs| && RowsValid(rs) && Mirrors(rs, texts) && x.Valid() && x !in rs
    ensures RowsValid(rs[..p] + [x] + rs[p..])
    ensures Mirrors(rs[..p] + [x] + rs[p..], texts[..p] + [x.content] + texts[p..])
  {
    InsertedAt(rs, p, x);
    InsertedAt(texts, p, x.content);
  }

  /** The same for a row put after the last one. */
  lemma Pushed(rs: seq<Row>, texts: seq<string>, x: Row)
    requires RowsValid(rs) && Mirrors(rs, texts) && x.Valid() && x !in rs
    ensures RowsValid(rs + [x]) && Mirrors(rs + [x], texts + [x.content])
  {
    Inserted(rs, texts, |rs|, x);
    assert rs[..|rs|] + [x] + rs[|rs|..] == rs + [x];
    assert texts[..|rs|] + [x.content] + texts[|rs|..] == texts + [x.content];
  }

  /** Taking out the row at index `p` keeps the rows valid and takes its text out. */
  lemma Removed(rs: seq<Row>, texts: seq<string>, p: nat)
    requires p < |rs| && RowsValid(rs) && Mirrors(rs, texts)
    ensures RowsValid(rs[..p] + rs[p + 1..])
    ensures Mirrors(rs[..p] + rs[p + 1..], texts[..p] + texts[p + 1..])
  {
    RemovedAt(rs, p);
    RemovedAt(texts, p);
  }

  /** A new row holding `line`, highlighted for the file type, with no search word. */
  method HighlightedRow(line: string, opts: HighlightingOptions) returns (row: Row)
    requires IsGraphemeText(line)
    ensures fresh(row) && row.Valid() && row.content == line
    ensures row.highlighting == Highlighted(line, opts, Option.None)
  {
    row := new Row.From(line);
    row.Highlight(opts, Option.None);
  }

  /** Fresh rows holding `lines`, top to bottom, each highlighted with `opts` and no search word. */
  method RowsOf(lines: seq<string>, opts: HighlightingOptions) returns (built: seq<Row>)
    requires forall k :: 0 <= k < |lines| ==> IsGraphemeText(lines[k])
    ensures RowsValid(built) && Mirrors(built, lines)
    ensures forall k :: 0 <= k < |built| ==> fresh(built[k])
    ensures forall k :: 0 <= k < |built| ==> built[k].highlighting == Highlighted(lines[k], opts, Option.None)
  {
    built := [];
    var i := 0;
    while i < |lines|
      invariant 0 <= i <= |lines|
      invariant RowsValid(built) && Mirrors(built, lines[..i])
      invariant forall k :: 0 <= k < i ==> fresh(built[k])
      invariant forall k :: 0 <= k < i ==> built[k].highlighting == Highlighted(lines[k], opts, Option.None)
    {
      var row := HighlightedRow(lines[i], opts);
      assert RowsValid(built) && Mirrors(built, lines[..i]) && row !in built;
      Pushed(built, lines[..i], row);
      assert lines[..i] + [lines[i]] == lines[..i + 1];
      built := built + [row];
      i := i + 1;
    }
    assert lines[..i] == lines;
  }

  class Document {
    var rows: seq<Row>
    var filename: Option<string>
    var isDirty: bool
    var options: HighlightingOptions
    /** The texts of the rows, top to bottom. */
    ghost var texts: seq<string>

    /** Every row is well formed, no row object appears twice, and `texts` are their texts. */
    ghost predicate Valid()
      reads this`rows, this`texts, rows`content, rows`len
    {
      RowsValid(rows) && Mirrors(rows, texts)
    }

    /** The row holds the tags a fresh scan with the document's options and no search word gives. */
    ghost predicate Plain(r: Row)
      reads this`options, r`content, r`highlighting
    {
      r.highlighting == Highlighted(r.content, options, Option.None)
    }

    /** An empty, clean document with no file name and no highlighting. */
    constructor Default()
      ensures Valid() && texts == [] && filename.None? && !isDirty && options == PlainText
    {
      rows := [];
      filename := Option.None;
      isDirty := false;
      options := PlainText;
      texts := [];
    }

    /**
     * The document of a file that held `contents`, of the file type whose
     * options are `fileType`: one row per line, each highlighted.
     */
    constructor Open(name: string, contents: string, fileType: HighlightingOptions)
      requires forall i :: 0 <= i < |contents| ==> contents[i] as int < 128
      ensures Valid() && texts == DocumentSpec.Lines(contents)
      ensures forall k :: 0 <= k < |rows| ==> Plain(rows[k])
      ensures filename == Some(name) && !isDirty && options == fileType
      ensures fresh(rows)
    {
      var lines := DocumentSpec.Lines(contents);
      DocumentSpec.LinesAreRows(contents);
      var built := RowsOf(lines, fileType);
      rows := built;
      filename := Some(name);
      isDirty := false;
      options := fileType;
      texts := lines;
    }

    /** Re-highlights every row with the search word; no text changes. */
    method Highlight(word: Option<string>)
      requires Valid()
      modifies rows
      ensures Valid()
      ensures forall k :: 0 <= k < |rows| ==> rows[k].highlighting == Highlighted(rows[k].content, options, word)
    {
      var i := 0;
      while i < |rows|
        invariant 0 <= i <= |rows| && Valid()
        invariant forall k :: 0 <= k < i ==> rows[k].highlighting == Highlighted(rows[k].content, options, word)
      {
        rows[i].Highlight(options, word);
        i := i + 1;
      }
    }

    /**
     * Types `c` at `at`: a line feed splits the row, any other character goes
     * into row `at.y` or into a new row past the end. Always marks the
     * document dirty. The rows whose text changed are re-highlighted with no
     * search word; every other row keeps its highlighting.
     */
    method Insert(at: Position, c: char)
      requires Valid() && (c == '\n' || IsGraphemeChar(c))
      modifies this, rows
      ensures Valid() && texts == DocumentSpec.Insert(old(texts), at, c)
      ensures isDirty && filename == old(filename) && options == old(options)
      ensures c != '\n' && at.y < old(|rows|) ==> rows == old(rows) && Plain(rows[at.y])
      ensures c != '\n' && at.y >= old(|rows|) ==>
        rows == old(rows) + [rows[old(|rows|)]] && fresh(rows[old(|rows|)]) && Plain(rows[old(|rows|)])
      ensures c == '\n' && at.y < old(|rows|) ==>
        && rows == old(rows)[..at.y + 1] + [rows[at.y + 1]] + old(rows)[at.y + 1..]
        && fresh(rows[at.y + 1]) && Plain(rows[at.y]) && Plain(rows[at.y + 1])
      ensures c == '\n' && at.y == old(|rows|) ==> rows == old(rows) + [rows[at.y]] && fresh(rows[at.y]) && Plain(rows[at.y])
      ensures c == '\n' && at.y > old(|rows|) ==> rows == old(rows)
      ensures forall k :: 0 <= k < old(|rows|) && k != at.y ==> old(rows)[k].highlighting == old(rows[k].highlighting)
    {
      isDirty := true;
      if c == '\n' {
        InsertNewline(at);
        return;
      }
      if at.y >= |rows| {
        DocumentSpec.InsertCharFrame(texts, at, c);
        PushRow(c);
      } else {
        InsertIntoRow(at, c);
      }
    }

    /** A new row holding just `c`, highlighted, after the last row. */
    method PushRow(c: char)
      requires Valid() && IsGraphemeChar(c)
      modifies this`rows, this`texts
      ensures Valid() && texts == old(texts) + [[c]]
      ensures rows == old(rows) + [rows[|old(rows)|]] && fresh(rows[|old(rows)|]) && Plain(rows[|old(rows)|])
    {
      var row := new Row.Empty();
      row.Insert(0, c);
      assert row.content == [c];
      Pushed(rows, texts, row);
      rows := rows + [row];
      texts := texts + [[c]];
      row.Highlight(options, Option.None);
    }

    /** `c` put into row `at.y` at column `at.x`, and that row re-highlighted. */
    method InsertIntoRow(at: Position, c: char)
      requires Valid() && IsGraphemeChar(c) && at.y < |rows|
      modifies this`texts, rows[at.y]
      ensures Valid() && texts == old(texts)[at.y := InsertAt(old(texts[at.y]), at.x, c)]
      ensures Plain(rows[at.y])
    {
      var row := rows[at.y];
      row.Insert(at.x, c);
      texts := texts[at.y := row.content];
      row.Highlight(options, Option.None);
    }

    /** The line-feed case of `Insert`; the dirty flag is `Insert`'s business. */
    method InsertNewline(at: Position)
      requires Valid()
      modifies this`rows, this`texts, rows
      ensures Valid() && texts == DocumentSpec.InsertNewline(old(texts), at)
      ensures at.y > old(|rows|) ==> rows == old(rows)
      ensures at.y == old(|rows|) ==> rows == old(rows) + [rows[at.y]] && fresh(rows[at.y]) && Plain(rows[at.y])
      ensures at.y < old(|rows|) ==>
        && rows == old(rows)[..at.y + 1] + [rows[at.y + 1]] + old(rows)[at.y + 1..]
        && fresh(rows[at.y + 1]) && Plain(rows[at.y]) && Plain(rows[at.y + 1])
      ensures forall k :: 0 <= k < old(|rows|) && k != at.y ==> old(rows)[k].highlighting == old(rows[k].highlighting)
    {
      var len := |rows|;
      if at.y > len {
        return;
      }
      if at.y == len {
        var row := new Row.Empty();
        ScanLength([], options);
        Pushed(rows, texts, row);
        rows := rows + [row];
        texts := texts + [[]];
        return;
      }
      SplitRow(at);
    }

    /** Row `at.y` split at `at.x`, both halves re-highlighted, the second put right after the first. */
    method SplitRow(at: Position)
      requires Valid() && at.y < |rows|
      modifies this`rows, this`texts, rows[at.y]
      ensures Valid() && texts == DocumentSpec.InsertNewline(old(texts), at)
      ensures rows == old(rows)[..at.y + 1] + [rows[at.y + 1]] + old(rows)[at.y + 1..]
      ensures fresh(rows[at.y + 1]) && Plain(rows[at.y]) && Plain(rows[at.y + 1])
    {
      var currentRow := rows[at.y];
      var newRow := SplitContent(at);
      currentRow.Highlight(options, Option.None);
      newRow.Highlight(options, Option.None);
    }

    /** The text part of `SplitRow`: the tail of row `at.y` moves to a new row below it. */
    method SplitContent(at: Position) returns (newRow: Row)
      requires Valid() && at.y < |rows|
      modifies this`rows, this`texts, rows[at.y]
      ensures Valid() && texts == DocumentSpec.InsertNewline(old(texts), at)
      ensures rows == old(rows)[..at.y + 1] + [newRow] + old(rows)[at.y + 1..]
      ensures rows[at.y] == old(rows[at.y]) && rows[at.y + 1] == newRow && fresh(newRow)
    {
      ghost var before := rows;
      ghost var split := texts[at.y := SplitAt(texts[at.y], at.x).0];
      var currentRow := rows[at.y];
      newRow := currentRow.Split(at.x);

      Inserted(before, split, at.y + 1, newRow);
      DocumentSpec.InsertNewlineSplits(texts, at);
      rows := rows[..at.y + 1] + [newRow] + rows[at.y + 1..];
      texts := DocumentSpec.InsertNewline(texts, at);
      assert rows[at.y] == currentRow && rows[at.y + 1] == newRow by {
        InsertedAt(before, at.y + 1, newRow);
      }
    }

    /**
     * Deletes the character at `at`, or joins row `at.y + 1` onto row `at.y`
     * when `at` is the end of a row that has a successor. Below the last
     * row it does nothing, and only then the dirty flag stays as it was.
     */
    method Delete(at: Position)
      requires Valid()
      modifies this, rows
      ensures Valid() && texts == DocumentSpec.Delete(old(texts), at)
      ensures isDirty == (old(isDirty) || at.y < old(|rows|))
      ensures filename == old(filename) && options == old(options)
      ensures at.y < old(|rows|) && at.x == old(|rows[at.y].content|) && at.y + 1 < old(|rows|) ==>
        rows == old(rows)[..at.y + 1] + old(rows)[at.y + 2..]
      ensures !(at.y < old(|rows|) && at.x == old(|rows[at.y].content|) && at.y + 1 < old(|rows|)) ==>
        rows == old(rows)
      ensures at.y < old(|rows|) ==> Plain(rows[at.y])
      ensures forall k :: 0 <= k < old(|rows|) && k != at.y ==> old(rows)[k].highlighting == old(rows[k].highlighting)
    {
      var len := |rows|;
      if at.y >= len {
        return;
      }
      isDirty := true;
      if at.x == rows[at.y].Len() && at.y + 1 < len {
        JoinRows(at);
      } else {
        DeleteInRow(at);
      }
    }

    /** Row `at.y + 1` appended onto row `at.y` and taken out; the joined row re-highlighted. */
    method JoinRows(at: Position)
      requires Valid() && at.y + 1 < |rows| && at.x == |rows[at.y].content|
      modifies this`rows, this`texts, rows[at.y]
      ensures Valid() && texts == DocumentSpec.Delete(old(texts), at)
      ensures rows == old(rows)[..at.y + 1] + old(rows)[at.y + 2..]
      ensures Plain(rows[at.y])
    {
      var row := JoinContent(at);
      row.Highlight(options, Option.None);
    }

    /** The text part of `JoinRows`: row `at.y + 1` taken out and its text appended to row `at.y`. */
    method JoinContent(at: Position) returns (row: Row)
      requires Valid() && at.y + 1 < |rows| && at.x == |rows[at.y].content|
      modifies this`rows, this`texts, rows[at.y]
      ensures Valid() && texts == DocumentSpec.Delete(old(texts), at)
      ensures rows == old(rows)[..at.y + 1] + old(rows)[at.y + 2..]
      ensures row == rows[at.y] == old(rows[at.y])
    {
      ghost var before := rows;
      var nextRow := rows[at.y + 1];
      Removed(rows, texts, at.y + 1);
      rows := rows[..at.y + 1] + rows[at.y + 2..];
      assert rows[at.y] == before[at.y] by {
        RemovedAt(before, at.y + 1);
      }
      row := rows[at.y];
      row.Append(nextRow);
      DocumentSpec.DeleteJoinRemoves(texts, at);
      texts := DocumentSpec.Delete(texts, at);
    }

    /** The character at `at.x` taken out of row `at.y`, and that row re-highlighted. */
    method DeleteInRow(at: Position)
      requires Valid() && at.y < |rows|
      modifies this`texts, rows[at.y]
      ensures Valid() && texts == old(texts)[at.y := DeleteAt(old(texts[at.y]), at.x)]
      ensures Plain(rows[at.y])
    {
      var row := rows[at.y];
      row.Delete(at.x);
      texts := texts[at.y := row.content];
      row.Highlight(options, Option.None);
    }

    /** Searches row by row from `at`, in `direction`, and stops at the first or last row. */
    method Find(query: string, at: Position, direction: SearchDirection) returns (r: Option<Position>)
      requires Valid()
      ensures r == DocumentSpec.DocFind(texts, query, at, direction)
    {
      if at.y >= |rows| {
        return Option.None;
      }
      ghost var goal := DocumentSpec.DocFind(texts, query, at, direction);
      var position := at;
      var start, end := 0, at.y + 1;
      if direction == Forward {
        start, end := at.y, |rows|;
      }
      var k := start;
      while k < end
        invariant start <= k <= end
        invariant direction == Forward ==> position.y == k && DocumentSpec.FindForwardFrom(texts, query, k, position.x) == goal
        invariant direction == Backward && k < end ==> position.y == at.y - k && DocumentSpec.FindBackwardFrom(texts, query, position.y, position.x) == goal
        invariant direction == Backward && k == end ==> goal == Option.None
      {
        if position.y < |rows| {
          var row := rows[position.y];
          var x := row.Find(query, position.x, direction);
          if x.Some? {
            position := position.(x := x.value);
            return Some(position);
          }
          if direction == Forward {
            position := Position(0, position.y + 1);
          } else {
            var y := SaturatingSub(position.y, 1);
            position := Position(rows[y].len, y);
          }
        } else {
          return Option.None;
        }
        k := k + 1;
      }
      return Option.None;
    }

    /**
     * Saves under the document's file name. `newOptions` are the options of
     * the file type the name now selects; `created` says whether the file
     * could be created. On success every row is written with a line feed
     * after it, every row is re-highlighted and the document is clean.
     */
    method Save(newOptions: HighlightingOptions, created: bool) returns (outcome: SaveOutcome)
      requires Valid()
      modifies this, rows
      ensures Valid() && texts == old(texts) && rows == old(rows) && filename == old(filename)
      ensures outcome.NoFilename? <==> filename.None?
      ensures outcome.CreateFailed? <==> filename.Some? && !created
      ensures outcome.Written? ==>
        && outcome.data == DocumentSpec.Serialize(texts)
        && !isDirty && options == newOptions
        && forall k :: 0 <= k < |rows| ==> Plain(rows[k])
      ensures !outcome.Written? ==>
        && isDirty == old(isDirty) && options == old(options)
        && forall k :: 0 <= k < |rows| ==> rows[k].highlighting == old(rows[k].highlighting)
    {
      if filename.None? {
        return NoFilename;
      }
      if !created {
        return CreateFailed;
      }
      options := newOptions;
      isDirty := false;
      var data := WriteRows();
      return Written(data);
    }

    /** Serializes the rows top to bottom, rescanning each one with the document's options as it goes. */
    method WriteRows() returns (data: string)
      requires Valid()
      modifies rows
      ensures Valid()
      ensures data == DocumentSpec.Serialize(texts)
      ensures forall k :: 0 <= k < |rows| ==> Plain(rows[k])
    {
      data := [];
      var i := 0;
      while i < |rows|
        invariant 0 <= i <= |rows| && Valid()
        invariant data == DocumentSpec.Serialize(texts[..i])
        invariant forall k :: 0 <= k < i ==> Plain(rows[k])
      {
        var row := rows[i];
        DocumentSpec.SerializePrefix(texts, i);
        data := data + row.content + "\n";
        assert forall k :: 0 <= k < i ==> rows[k] != row;
        RescanRow(row, i);
        i := i + 1;
      }
      assert texts[..i] == texts;
    }

    /** Rescans `row`, the row at `i`, with the document's options and no search word. */
    method RescanRow(row: Row, i: nat)
      requires Valid() && i < |rows| && row == rows[i]
      modifies row`highlighting
      ensures Valid() && Plain(row)
    {
      row.Highlight(options, Option.None);
    }

    /** The row at `index`, if there is one. */
    function RowAt(index: nat): (r: Option<Row>)
      requires Valid()
      reads this, rows
      ensures r.Some? <==> index < |texts|
      ensures r.Some? ==> r.value.Valid() && r.value.content == texts[index] && r.value in rows
    {
      if index < |rows| then Some(rows[index]) else Option.None
    }

    function Len(): (n: nat)
      requires Valid()
      reads this, rows
      ensures n == |texts|
    {
      |rows|
    }

    function IsEmpty(): (b: bool)
      requires Valid()
      reads this, rows
      ensures b <==> texts == []
    {
      |rows| == 0
    }

    function IsDirty(): bool
      reads this
    {
      isDirty
    }
  }
}
