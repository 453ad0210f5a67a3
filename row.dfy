/**
 * One line of the document: its text, a parallel sequence of highlight tags
 * and the cached grapheme count. Every method rebuilds its state the way the
 * editor does, by walking the graphemes, and is proved against the functions
 * of `RowSpec`.
 */
module Rows {
  import opened Wrappers
  import opened Highlighting
  import opened Positions
  import opened RowSpec

  class Row {
    var content: string
    var highlighting: seq<Type>
    var len: nat

    /** The cached length counts the graphemes, and every character is a grapheme of one byte. */
    ghost predicate Valid()
      reads this`content, this`len
    {
      len == |content| && IsGraphemeText(content)
    }

    /** A row holding `slice`, not yet highlighted. */
    constructor From(slice: string)
      requires IsGraphemeText(slice)
      ensures Valid() && content == slice && highlighting == []
    {
      content := slice;
      highlighting := [];
      len := |slice|;
    }

    /** The empty row. */
    constructor Empty()
      ensures Valid() && content == [] && highlighting == []
    {
      content := [];
      highlighting := [];
      len := 0;
    }

    function Len(): (n: nat)
      requires Valid()
      reads this`content, this`len
      ensures n == |content|
    {
      len
    }

    function IsEmpty(): (b: bool)
      requires Valid()
      reads this`content, this`len
      ensures b <==> content == []
    {
      len == 0
    }

    /** Graphemes `[start, end)`, clamped, with a colour marker wherever the tag changes. */
    method Render(start: nat, end: nat) returns (rendered: seq<Piece>)
      requires Valid()
      ensures rendered == RowSpec.Render(content, highlighting, start, end)
    {
      var chars, tags := content, highlighting;
      var e := Min(end, |chars|);
      var s := Min(start, e);
      rendered := [];
      var current := Type.None;
      var i := s;
      while i < e
        invariant s <= i <= e
        invariant rendered + RenderFrom(chars, tags, i, e, current) == RenderFrom(chars, tags, s, e, Type.None)
      {
        ghost var before, was := rendered, current;
        var c := chars[i];
        var t := TagAt(tags, i);
        if t != current {
          current := t;
          rendered := rendered + [Marker(ToColour(t))];
        }
        var shown := if c == '\t' then ' ' else c;
        rendered := rendered + [Glyph(shown)];
        RenderStep(chars, tags, i, e, was, before, rendered);
        i := i + 1;
      }
      assert RenderFrom(chars, tags, i, e, current) == [Marker(Reset)];
      rendered := rendered + [Marker(Reset)];
    }

    /** `c` becomes grapheme `min(at, len)`; the row grows by exactly one. */
    method Insert(at: nat, c: char)
      requires Valid() && IsGraphemeChar(c)
      modifies this`content, this`len
      ensures Valid()
      ensures content == InsertAt(old(content), at, c)
      ensures len == old(len) + 1
    {
      if at >= len {
        content := content + [c];
        len := len + 1;
      } else {
        var graphemes := content;
        var result := [];
        var length := 0;
        var i := 0;
        while i < |graphemes|
          invariant 0 <= i <= |graphemes|
          invariant result == if i <= at then graphemes[..i] else graphemes[..at] + [c] + graphemes[at..i]
          invariant length == |result|
        {
          length := length + 1;
          if i == at {
            length := length + 1;
            result := result + [c];
          }
          result := result + [graphemes[i]];
          i := i + 1;
        }
        len := length;
        content := result;
      }
    }

    /** Grapheme `at` is removed; nothing happens when `at` is past the end. */
    method Delete(at: nat)
      requires Valid()
      modifies this`content, this`len
      ensures Valid()
      ensures content == DeleteAt(old(content), at)
    {
      if at < len {
        var graphemes := content;
        var result := [];
        var length := 0;
        var i := 0;
        while i < |graphemes|
          invariant 0 <= i <= |graphemes|
          invariant result == if i <= at then graphemes[..i] else graphemes[..at] + graphemes[at + 1..i]
          invariant length == |result|
        {
          if i != at {
            length := length + 1;
            result := result + [graphemes[i]];
          }
          i := i + 1;
        }
        len := length;
        content := result;
      }
    }

    /** The other row's text is appended; highlighting is left for the caller to redo. */
    method Append(other: Row)
      requires Valid() && other.Valid()
      modifies this`content, this`len
      ensures Valid()
      ensures content == old(content) + old(other.content)
    {
      content := content + other.content;
      len := len + other.len;
    }

    /** Keeps graphemes `[0, min(at, len))` and returns the rest as a fresh, unhighlighted row. */
    method Split(at: nat) returns (newRow: Row)
      requires Valid()
      modifies this`content, this`len
      ensures Valid() && newRow.Valid() && fresh(newRow)
      ensures (content, newRow.content) == SplitAt(old(content), at)
      ensures newRow.highlighting == []
    {
      var graphemes := content;
      var firstRow := [];
      var secondRow := [];
      var firstLen := 0;
      var i := 0;
      while i < |graphemes|
        invariant 0 <= i <= |graphemes|
        invariant firstRow == graphemes[..Min(at, i)]
        invariant secondRow == graphemes[Min(at, i)..i]
        invariant firstLen == |firstRow|
      {
        if i < at {
          firstLen := firstLen + 1;
          firstRow := firstRow + [graphemes[i]];
        } else {
          secondRow := secondRow + [graphemes[i]];
        }
        i := i + 1;
      }
      assert firstRow == graphemes[..Min(at, |graphemes|)];
      assert secondRow == graphemes[Min(at, |graphemes|)..];
      content := firstRow;
      len := firstLen;
      newRow := new Row.From(secondRow);
    }

    /**
     * Search in graphemes `[at, len)` (Forward) or `[0, at)` (Backward), then
     * map the byte offset of the hit in the searched slice to a grapheme index.
     */
    method Find(query: string, at: nat, direction: SearchDirection) returns (r: Option<nat>)
      requires Valid()
      ensures r == RowSpec.Find(content, query, at, direction)
    {
      if at > len || query == [] {
        return Option.None;
      }
      var start, end := 0, at;
      if direction == Forward {
        start, end := at, len;
      }
      var substring := content[start..end];
      ghost var expected := RowSpec.Find(content, query, at, direction);
      var matchingIndex: Option<nat>;
      if direction == Forward {
        matchingIndex := FirstOccurrence(substring, query, 0);
        assert Shifted(matchingIndex, start) == expected by {
          FirstOccurrenceInSuffix(content, query, at, 0);
          assert content[at..len] == content[at..];
        }
        FirstOccurrenceIsLeftmost(substring, query, 0);
      } else {
        matchingIndex := LastOccurrence(substring, query, |substring|);
        assert Shifted(matchingIndex, start) == expected by {
          if |query| <= at {
            LastOccurrenceInPrefix(content, query, at, at - |query|);
          }
        }
        if |query| <= |substring| {
          LastOccurrenceFromIsRightmost(substring, query, |substring| - |query|);
        }
      }
      assert matchingIndex.Some? ==> matchingIndex.value < |substring|;
      if matchingIndex.Some? {
        var m := matchingIndex.value;
        // One-byte graphemes: the i-th grapheme starts at byte i.
        var graphemeIndex := 0;
        while graphemeIndex < |content|
          invariant 0 <= graphemeIndex <= |content|
          invariant graphemeIndex <= m
        {
          if m == graphemeIndex {
            return Some(start + graphemeIndex);
          }
          graphemeIndex := graphemeIndex + 1;
        }
        assert false;
      }
      return Option.None;
    }

    /**
     * Rebuilds `highlighting` from scratch: one left-to-right pass trying the
     * matchers in priority order, then the search-word overlay.
     */
    method Highlight(opts: HighlightingOptions, word: Option<string>)
      requires Valid()
      modifies this`highlighting
      ensures highlighting == Highlighted(content, opts, word)
    {
      ScanTokens(opts);
      ScanLength(content, opts);
      HighlightMatches(word);
    }

    /** The scan pass alone: `highlighting` rebuilt from scratch by the matchers. */
    method ScanTokens(opts: HighlightingOptions)
      modifies this`highlighting
      ensures highlighting == ScanRow(content, opts)
    {
      highlighting := [];
      var chars := content;
      var index := 0;
      while index < |chars|
        invariant index <= |chars| + 1 && |highlighting| == index
        invariant highlighting + Scan(chars, opts, index) == Scan(chars, opts, 0)
        decreases |chars| + 1 - index
      {
        var _, _ := ScanLoopStep(chars, opts, highlighting, index);
        index := HighlightToken(index, opts, chars);
      }
      assert Scan(chars, opts, index) == [];
    }

    /**
     * One turn of the scan loop: the matchers in priority order, the first
     * that matches pushing its tags, and one `None` tag when none does.
     */
    method HighlightToken(index: nat, opts: HighlightingOptions, chars: string) returns (next: nat)
      requires index < |chars|
      modifies this`highlighting
      ensures highlighting == old(highlighting) + Step(chars, opts, index)
      ensures next == index + |Step(chars, opts, index)|
    {
      var c := chars[index];
      var matched;
      matched, next := HighlightNumbers(index, opts, c, chars);
      assert Tried(chars, opts, index, 1, matched, old(highlighting), highlighting, next) by {
        FirstMatchAt(chars, opts, index, 0);
      }
      if !matched {
        matched, next := HighlightStrings(index, opts, c, chars);
        assert Tried(chars, opts, index, 2, matched, old(highlighting), highlighting, next) by {
          FirstMatchAt(chars, opts, index, 1);
        }
      }
      if !matched {
        matched, next := HighlightChar(index, opts, c, chars);
        assert Tried(chars, opts, index, 3, matched, old(highlighting), highlighting, next) by {
          FirstMatchAt(chars, opts, index, 2);
        }
      }
      if !matched {
        matched, next := HighlightComments(index, opts, c, chars);
        assert Tried(chars, opts, index, 4, matched, old(highlighting), highlighting, next) by {
          FirstMatchAt(chars, opts, index, 3);
        }
      }
      if !matched {
        matched, next := HighlightPrimaryKeywords(index, opts, chars);
        assert Tried(chars, opts, index, 5, matched, old(highlighting), highlighting, next) by {
          FirstMatchAt(chars, opts, index, 4);
        }
      }
      if !matched {
        matched, next := HighlightSecondaryKeywords(index, opts, chars);
        assert Tried(chars, opts, index, 6, matched, old(highlighting), highlighting, next) by {
          FirstMatchAt(chars, opts, index, 5);
        }
      }
      if !matched {
        highlighting := highlighting + [Type.None];
        next := index + 1;
      }
    }

    /** Overwrites with `Match` the span of each hit the search loop visits. */
    method HighlightMatches(word: Option<string>)
      requires Valid() && |content| <= |highlighting|
      modifies this`highlighting
      ensures highlighting == Overlay(old(highlighting), content, word)
    {
      if word.None? || word.value == [] {
        return;
      }
      var w := word.value;
      var searchIndex := 0;
      var hit := Find(w, searchIndex, Forward);
      while hit.Some?
        invariant searchIndex <= |content|
        invariant hit == RowSpec.Find(content, w, searchIndex, Forward)
        invariant |highlighting| == |old(highlighting)|
        invariant searchIndex == 0 ==> highlighting == old(highlighting)
        invariant searchIndex > 0 ==> searchIndex >= |w| && highlighting == Overlay(old(highlighting), content, word)
        decreases |content| - searchIndex
      {
        var searchMatch := hit.value;
        FindForward(content, w, searchIndex);
        // The word's grapheme count: it occurs in the row, so each of its characters is one grapheme.
        var nextIndex := searchMatch + |w|;
        ghost var h0 := highlighting;
        var i := searchIndex + searchMatch;
        while i < nextIndex
          invariant searchIndex + searchMatch <= i
          invariant searchIndex == 0 ==> i <= nextIndex
          invariant searchIndex > 0 ==> i == searchIndex + searchMatch
          invariant |highlighting| == |h0|
          invariant forall k :: 0 <= k < |h0| ==>
            highlighting[k] == if searchIndex + searchMatch <= k < i then Match else h0[k]
        {
          highlighting := highlighting[i := Match];
          i := i + 1;
        }
        if searchIndex == 0 {
          OverlayFirstOnly(old(highlighting), content, w, searchMatch);
        } else {
          assert highlighting == h0;
        }
        searchIndex := nextIndex;
        hit := Find(w, searchIndex, Forward);
      }
    }

    method HighlightStrings(index: nat, opts: HighlightingOptions, c: char, chars: string)
      returns (matched: bool, next: nat)
      requires index < |chars| && c == chars[index]
      modifies this`highlighting
      ensures highlighting == old(highlighting) + StringTags(chars, opts, index)
      ensures next == index + |StringTags(chars, opts, index)|
      ensures matched == (StringTags(chars, opts, index) != [])
    {
      if opts.strings && c == '"' {
        highlighting := highlighting + [String];
        next := index + 1;
        while next < |chars| && chars[next] != '"'
          invariant index < next <= |chars|
          invariant QuoteEnd(chars, next) == QuoteEnd(chars, index + 1)
          invariant highlighting == old(highlighting) + Repeat(String, next - index)
        {
          RepeatSnoc(String, next - index);
          highlighting := highlighting + [String];
          next := next + 1;
        }
        RepeatSnoc(String, next - index);
        highlighting := highlighting + [String];
        next := next + 1;
        return true, next;
      }
      return false, index;
    }

    method HighlightNumbers(index: nat, opts: HighlightingOptions, c: char, chars: string)
      returns (matched: bool, next: nat)
      requires index < |chars| && c == chars[index]
      modifies this`highlighting
      ensures highlighting == old(highlighting) + NumberTags(chars, opts, index)
      ensures next == index + |NumberTags(chars, opts, index)|
      ensures matched == (NumberTags(chars, opts, index) != [])
    {
      if opts.numbers && IsAsciiDigit(c) {
        if index > 0 {
          var prevChar := chars[index - 1];
          if !IsSeparator(prevChar) {
            return false, index;
          }
        }
        highlighting := highlighting + [Number];
        next := index + 1;
        while next < |chars| && IsNumberChar(chars[next])
          invariant index < next <= |chars|
          invariant NumberEnd(chars, next) == NumberEnd(chars, index + 1)
          invariant highlighting == old(highlighting) + Repeat(Number, next - index)
        {
          RepeatSnoc(Number, next - index);
          highlighting := highlighting + [Number];
          next := next + 1;
        }
        return true, next;
      }
      return false, index;
    }

    method HighlightChar(index: nat, opts: HighlightingOptions, c: char, chars: string)
      returns (matched: bool, next: nat)
      requires index < |chars| && c == chars[index]
      modifies this`highlighting
      ensures highlighting == old(highlighting) + CharTags(chars, opts, index)
      ensures next == index + |CharTags(chars, opts, index)|
      ensures matched == (CharTags(chars, opts, index) != [])
    {
      if opts.characters && c == '\'' {
        if index + 1 < |chars| {
          var nextChar := chars[index + 1];
          var closingIndex := if nextChar == '\\' then index + 3 else index + 2;
          if closingIndex < |chars| && chars[closingIndex] == '\'' {
            next := index;
            var k := 0;
            while k <= closingIndex - index
              invariant 0 <= k <= closingIndex - index + 1
              invariant next == index + k
              invariant highlighting == old(highlighting) + Repeat(Character, k)
            {
              RepeatSnoc(Character, k);
              highlighting := highlighting + [Character];
              next := next + 1;
              k := k + 1;
            }
            return true, next;
          }
        }
      }
      return false, index;
    }

    method HighlightComments(index: nat, opts: HighlightingOptions, c: char, chars: string)
      returns (matched: bool, next: nat)
      requires index < |chars| && c == chars[index]
      modifies this`highlighting
      ensures highlighting == old(highlighting) + CommentTags(chars, opts, index)
      ensures next == index + |CommentTags(chars, opts, index)|
      ensures matched == (CommentTags(chars, opts, index) != [])
    {
      if opts.comments && c == '/' && index < |chars| {
        if index + 1 < |chars| && chars[index + 1] == '/' {
          next := index;
          var k := index;
          while k < |chars|
            invariant index <= k <= |chars|
            invariant next == k
            invariant highlighting == old(highlighting) + Repeat(Comment, k - index)
          {
            RepeatSnoc(Comment, k - index);
            highlighting := highlighting + [Comment];
            next := next + 1;
            k := k + 1;
          }
          return true, next;
        }
      }
      return false, index;
    }

    /** Tags `substring` with `hlType` when it stands in full at `index`. */
    method HighlightSubstring(index: nat, substring: string, chars: string, hlType: Type)
      returns (matched: bool, next: nat)
      modifies this`highlighting
      ensures matched == SubstringAt(chars, index, substring)
      ensures highlighting == old(highlighting) + (if matched then Repeat(hlType, |substring|) else [])
      ensures next == index + (if matched then |substring| else 0)
    {
      if substring == [] {
        return false, index;
      }
      var i := 0;
      while i < |substring|
        invariant 0 <= i <= |substring|
        invariant i == 0 || (index + i <= |chars| && chars[index..index + i] == substring[..i])
      {
        if index + i < |chars| {
          if chars[index + i] == substring[i] {
            assert chars[index..index + i + 1] == chars[index..index + i] + [chars[index + i]];
            assert substring[..i + 1] == substring[..i] + [substring[i]];
          } else {
            assert !OccursAt(chars, substring, index) by {
              if index + |substring| <= |chars| {
                assert chars[index..index + |substring|][i] == chars[index + i];
              }
            }
            return false, index;
          }
        } else {
          return false, index;
        }
        i := i + 1;
      }
      assert substring[..i] == substring;
      // The keyword stands in one-byte text, so its byte length is its length.
      next := index;
      var k := 0;
      while k < |substring|
        invariant 0 <= k <= |substring|
        invariant next == index + k
        invariant highlighting == old(highlighting) + Repeat(hlType, k)
      {
        RepeatSnoc(hlType, k);
        highlighting := highlighting + [hlType];
        next := next + 1;
        k := k + 1;
      }
      return true, next;
    }

    /** The first listed keyword that stands at `index` between separators. */
    method HighlightKeywords(index: nat, chars: string, keywords: seq<string>, hlType: Type)
      returns (matched: bool, next: nat)
      requires index < |chars|
      modifies this`highlighting
      ensures highlighting == old(highlighting) + KeywordTags(chars, index, keywords, hlType)
      ensures next == index + |KeywordTags(chars, index, keywords, hlType)|
      ensures matched == (KeywordTags(chars, index, keywords, hlType) != [])
    {
      if index > 0 {
        var prevChar := chars[index - 1];
        if !IsSeparator(prevChar) {
          return false, index;
        }
      }
      var w := 0;
      while w < |keywords|
        invariant 0 <= w <= |keywords|
        invariant FirstKeyword(chars, index, keywords[w..], hlType) == FirstKeyword(chars, index, keywords, hlType)
        invariant highlighting == old(highlighting)
      {
        var word := keywords[w];
        assert keywords[w..][0] == word && keywords[w..][1..] == keywords[w + 1..];
        if index < SaturatingSub(|chars|, |word|) {
          var nextChar := chars[index + |word|];
          if !IsSeparator(nextChar) {
            w := w + 1;
            continue;
          }
        }
        matched, next := HighlightSubstring(index, word, chars, hlType);
        if matched {
          return true, next;
        }
        w := w + 1;
      }
      return false, index;
    }

    method HighlightPrimaryKeywords(index: nat, opts: HighlightingOptions, chars: string)
      returns (matched: bool, next: nat)
      requires index < |chars|
      modifies this`highlighting
      ensures highlighting == old(highlighting) + KeywordTags(chars, index, opts.primaryKeywords, PrimaryKeywords)
      ensures next == index + |KeywordTags(chars, index, opts.primaryKeywords, PrimaryKeywords)|
      ensures matched == (KeywordTags(chars, index, opts.primaryKeywords, PrimaryKeywords) != [])
    {
      matched, next := HighlightKeywords(index, chars, opts.primaryKeywords, PrimaryKeywords);
    }

    method HighlightSecondaryKeywords(index: nat, opts: HighlightingOptions, chars: string)
      returns (matched: bool, next: nat)
      requires index < |chars|
      modifies this`highlighting
      ensures highlighting == old(highlighting) + KeywordTags(chars, index, opts.secondaryKeywords, SecondaryKeywords)
      ensures next == index + |KeywordTags(chars, index, opts.secondaryKeywords, SecondaryKeywords)|
      ensures matched == (KeywordTags(chars, index, opts.secondaryKeywords, SecondaryKeywords) != [])
    {
      matched, next := HighlightKeywords(index, chars, opts.secondaryKeywords, SecondaryKeywords);
    }
  }
}
