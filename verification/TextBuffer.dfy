/** The line-array text editor of apps/notepad.cpp refines a flat string with a cursor. */
module TextBuffer {
  import opened Collections

  const LOAD_LIMIT: nat := 32768

  // ---- lines and the flat string ----

  /** The text before line r: every earlier line and its newline. */
  function Pre(lines: seq<string>, r: nat): string
    requires r <= |lines|
  {
    if r == 0 then "" else Pre(lines, r - 1) + lines[r - 1] + "\n"
  }

  /** The text after line r. */
  function Post(lines: seq<string>, r: nat): string
    requires r < |lines|
    decreases |lines| - r
  {
    if r == |lines| - 1 then "" else "\n" + lines[r + 1] + Post(lines, r + 1)
  }

  /** The lines joined by newlines. */
  function Join(lines: seq<string>): string
    requires |lines| > 0
  {
    Pre(lines, |lines| - 1) + lines[|lines| - 1]
  }

  lemma {:induction false} JoinAt(lines: seq<string>, r: nat)
    requires r < |lines|
    ensures Join(lines) == Pre(lines, r) + lines[r] + Post(lines, r)
    decreases |lines| - r
  {
    if r < |lines| - 1 {
      JoinAt(lines, r + 1);
      assert Pre(lines, r + 1) + lines[r + 1] + Post(lines, r + 1) ==
             Pre(lines, r) + lines[r] + ("\n" + lines[r + 1] + Post(lines, r + 1));
    }
  }

  lemma {:induction false} PreSame(a: seq<string>, b: seq<string>, r: nat)
    requires r <= |a| && r <= |b| && a[..r] == b[..r]
    ensures Pre(a, r) == Pre(b, r)
  {
    if r > 0 {
      assert a[..r - 1] == a[..r][..r - 1] && b[..r - 1] == b[..r][..r - 1];
      assert a[r - 1] == a[..r][r - 1] == b[..r][r - 1] == b[r - 1];
      PreSame(a, b, r - 1);
    }
  }

  lemma {:induction false} PostSame(a: seq<string>, i: nat, b: seq<string>, j: nat)
    requires i < |a| && j < |b| && a[i + 1..] == b[j + 1..]
    ensures Post(a, i) == Post(b, j)
    decreases |a| - i
  {
    if i < |a| - 1 {
      assert a[i + 1] == a[i + 1..][0] == b[j + 1..][0] == b[j + 1];
      assert a[i + 2..] == a[i + 1..][1..] && b[j + 2..] == b[j + 1..][1..];
      PostSame(a, i + 1, b, j + 1);
    } else {
      assert |b[j + 1..]| == 0;
    }
  }

  // ---- the flat editor ----

  datatype Flat = Flat(text: string, pos: nat)

  function Typed(f: Flat, c: char): Flat
    requires f.pos <= |f.text|
  {
    Flat(f.text[..f.pos] + [c] + f.text[f.pos..], f.pos + 1)
  }

  function Erased(f: Flat): Flat
    requires f.pos <= |f.text|
  {
    if f.pos == 0 then f else Flat(f.text[..f.pos - 1] + f.text[f.pos..], f.pos - 1)
  }

  /** The cursor's place in the flat string. */
  function ToFlat(lines: seq<string>, row: nat, col: nat): (f: Flat)
    requires row < |lines| && col <= |lines[row]|
    ensures f.pos <= |f.text|
  {
    JoinAt(lines, row);
    Flat(Join(lines), |Pre(lines, row)| + col)
  }

  ghost predicate NoNewlines(lines: seq<string>) {
    forall i :: 0 <= i < |lines| ==> '\n' !in lines[i]
  }

  /** Lines of text: C strings without newlines. */
  ghost predicate Plain(lines: seq<string>) {
    NoNewlines(lines) && forall i :: 0 <= i < |lines| ==> '\0' !in lines[i]
  }

  // ---- one line changes ----

  lemma FlatParts(lines: seq<string>, row: nat, col: nat)
    requires row < |lines| && col <= |lines[row]|
    ensures var f := ToFlat(lines, row, col);
            f.text[..f.pos] == Pre(lines, row) + lines[row][..col] &&
            f.text[f.pos..] == lines[row][col..] + Post(lines, row)
  {
    JoinAt(lines, row);
    Halves(Pre(lines, row), lines[row], Post(lines, row), col);
  }

  lemma Halves(a: string, line: string, b: string, col: nat)
    requires col <= |line|
    ensures (a + line + b)[..|a| + col] == a + line[..col] && (a + line + b)[|a| + col..] == line[col..] + b
  {}

  /** A replaced line changes the text in place. */
  lemma ReplacedLine(lines: seq<string>, row: nat, line: string)
    requires row < |lines|
    ensures Join(lines[row := line]) == Pre(lines, row) + line + Post(lines, row)
    ensures Pre(lines[row := line], row) == Pre(lines, row)
  {
    var r := lines[row := line];
    JoinAt(r, row);
    PreSame(r, lines, row);
    PostSame(r, row, lines, row);
  }

  lemma TypedFlat(lines: seq<string>, row: nat, col: nat, c: char)
    requires row < |lines| && col <= |lines[row]|
    ensures var line := lines[row][..col] + [c] + lines[row][col..];
            ToFlat(lines[row := line], row, col + 1) == Typed(ToFlat(lines, row, col), c)
  {
    var line := lines[row][..col] + [c] + lines[row][col..];
    ReplacedLine(lines, row, line);
    FlatParts(lines, row, col);
    assert Pre(lines, row) + line + Post(lines, row) ==
           (Pre(lines, row) + lines[row][..col]) + [c] + (lines[row][col..] + Post(lines, row));
  }

  lemma ErasedFlat(lines: seq<string>, row: nat, col: nat)
    requires row < |lines| && 0 < col <= |lines[row]|
    ensures var line := lines[row][..col - 1] + lines[row][col..];
            ToFlat(lines[row := line], row, col - 1) == Erased(ToFlat(lines, row, col))
  {
    var line := lines[row][..col - 1] + lines[row][col..];
    var f := ToFlat(lines, row, col);
    ReplacedLine(lines, row, line);
    FlatParts(lines, row, col);
    FlatParts(lines, row, col - 1);
    assert Pre(lines, row) + line + Post(lines, row) ==
           (Pre(lines, row) + lines[row][..col - 1]) + (lines[row][col..] + Post(lines, row));
  }

  /** Two lines joined at the boundary: the newline between them is erased. */
  lemma MergedFlat(lines: seq<string>, row: nat)
    requires 0 < row < |lines|
    ensures var merged := lines[..row - 1] + [lines[row - 1] + lines[row]] + lines[row + 1..];
            ToFlat(merged, row - 1, |lines[row - 1]|) == Erased(ToFlat(lines, row, 0))
  {
    var prev, line := lines[row - 1], lines[row];
    var merged := lines[..row - 1] + [prev + line] + lines[row + 1..];
    var f := ToFlat(lines, row, 0);
    JoinAt(merged, row - 1);
    assert merged[..row - 1] == lines[..row - 1] && merged[row..] == lines[row + 1..];
    PreSame(merged, lines, row - 1);
    PostSame(merged, row - 1, lines, row);
    FlatParts(lines, row, 0);
    var front, back := Pre(lines, row - 1), Post(lines, row);
    assert f.text[..f.pos - 1] == f.text[..f.pos][..f.pos - 1] == front + prev;
    assert f.text[f.pos..] == line + back by { assert line[0..] == line; }
    Regroup(front, prev, line, back);
  }

  lemma Regroup(a: string, b: string, c: string, d: string)
    ensures (a + b) + (c + d) == a + (b + c) + d
  {}

  lemma MergedLines(lines: seq<string>, changed: seq<string>, row: nat)
    requires 0 < row < |lines| && changed == lines[row - 1 := lines[row - 1] + lines[row]]
    ensures changed[..row] + changed[row + 1..] ==
              lines[..row - 1] + [lines[row - 1] + lines[row]] + lines[row + 1..]
    ensures Plain(lines) ==> Plain(changed) && Plain(changed[..row] + changed[row + 1..])
  {
    assert Plain(lines) ==> '\n' !in changed[row - 1] && '\0' !in changed[row - 1];
  }

  /** A line split at the cursor: a newline is typed. */
  lemma SplitFlat(lines: seq<string>, row: nat, col: nat)
    requires row < |lines| && col <= |lines[row]|
    ensures var parts := lines[..row] + [lines[row][..col], lines[row][col..]] + lines[row + 1..];
            ToFlat(parts, row + 1, 0) == Typed(ToFlat(lines, row, col), '\n')
  {
    var first, second := lines[row][..col], lines[row][col..];
    var parts := lines[..row] + [first, second] + lines[row + 1..];
    JoinAt(parts, row + 1);
    assert parts[..row] == lines[..row] && parts[row + 2..] == lines[row + 1..];
    PreSame(parts, lines, row);
    PostSame(parts, row + 1, lines, row);
    FlatParts(lines, row, col);
    assert Pre(parts, row + 1) == Pre(lines, row) + first + "\n";
  }

  lemma LineInserted(before: seq<string>, idx: nat, txt: string, after: seq<string>)
    requires idx <= |before| && |after| == |before| + 1 && after[idx] == txt
    requires forall k :: 0 <= k < idx ==> after[k] == before[k]
    requires forall k {:trigger after[k]} :: idx < k <= |before| ==> after[k] == before[k - 1]
    ensures after == before[..idx] + [txt] + before[idx..]
    ensures Plain(before) && '\n' !in txt && '\0' !in txt ==> Plain(after)
  {}

  lemma LineSplit(before: seq<string>, row: nat, first: string, second: string)
    requires row < |before|
    ensures var changed := before[row := first];
            changed[..row + 1] + [second] + changed[row + 1..] ==
              before[..row] + [first, second] + before[row + 1..]
  {}

  // ---- undoing ----

  /** Typing and then erasing restores text and cursor. */
  lemma TypeThenErase(f: Flat, c: char)
    requires f.pos <= |f.text|
    ensures Erased(Typed(f, c)) == f
  {}

  // ---- reading and writing files ----

  /** load_file's loop: newlines start lines, carriage returns are dropped, and so are NULs,
      because a line ends at the first one. */
  function Parse(text: string): (lines: seq<string>)
    ensures |lines| > 0 && Plain(lines)
  {
    if text == "" then [""]
    else
      var front, c := Parse(text[..|text| - 1]), text[|text| - 1];
      var n := |front| - 1;
      if c == '\n' then front + [""]
      else if Dropped(c) then front
      else front[n := front[n] + [c]]
  }

  predicate Dropped(c: char) { c == '\r' || c == '\0' }

  function Kept(text: string): (r: string)
    ensures |r| <= |text|
  {
    if text == "" then ""
    else Kept(text[..|text| - 1]) + if Dropped(text[|text| - 1]) then "" else [text[|text| - 1]]
  }

  lemma {:induction false} DropsNothing(text: string)
    ensures |Kept(text)| == |text| <==> '\r' !in text && '\0' !in text
    ensures '\r' !in text && '\0' !in text ==> Kept(text) == text
  {
    if text != "" {
      DropsNothing(text[..|text| - 1]);
      assert text == text[..|text| - 1] + [text[|text| - 1]];
    }
  }

  lemma JoinNewLine(lines: seq<string>)
    requires |lines| > 0
    ensures Join(lines + [""]) == Join(lines) + "\n"
  {
    PreSame(lines + [""], lines, |lines| - 1);
    assert Pre(lines + [""], |lines|) == Pre(lines, |lines| - 1) + lines[|lines| - 1] + "\n";
  }

  lemma JoinNewChar(lines: seq<string>, c: char)
    requires |lines| > 0
    ensures var n := |lines| - 1; Join(lines[n := lines[n] + [c]]) == Join(lines) + [c]
  {
    var n := |lines| - 1;
    PreSame(lines[n := lines[n] + [c]], lines, n);
  }

  /** Parsing keeps everything but carriage returns and NULs. */
  lemma {:induction false} JoinParsed(text: string)
    ensures Join(Parse(text)) == Kept(text)
  {
    if text != "" {
      var front, c := Parse(text[..|text| - 1]), text[|text| - 1];
      var n := |front| - 1;
      JoinParsed(text[..|text| - 1]);
      if c == '\n' {
        JoinNewLine(front);
      } else if !Dropped(c) {
        JoinNewChar(front, c);
      }
    }
  }

  /** The lines can be recovered from the flat string. */
  lemma {:induction false} JoinInjective(a: seq<string>, b: seq<string>)
    requires |a| > 0 && |b| > 0 && NoNewlines(a) && NoNewlines(b) && Join(a) == Join(b)
    ensures a == b
    decreases |a|
  {
    JoinAt(a, 0);
    JoinAt(b, 0);
    FirstLine(a, b);
    FirstLine(b, a);
    assert a[0] == b[0];
    assert Post(a, 0) == Join(a)[|a[0]|..] && Post(b, 0) == Join(b)[|b[0]|..];
    if |a| > 1 {
      assert Post(b, 0) != "";
      Tail(a);
      Tail(b);
      assert Join(a[1..]) == Post(a, 0)[1..] == Post(b, 0)[1..] == Join(b[1..]);
      JoinInjective(a[1..], b[1..]);
      assert a == [a[0]] + a[1..] && b == [b[0]] + b[1..];
    } else {
      assert Post(a, 0) == "";
      assert |b| == 1;
    }
  }

  lemma JoinFirst(a: seq<string>)
    requires |a| > 0
    ensures Join(a) == a[0] + Post(a, 0)
  {
    JoinAt(a, 0);
    assert "" + a[0] == a[0];
  }

  lemma Tail(a: seq<string>)
    requires |a| > 1
    ensures Post(a, 0) == "\n" + Join(a[1..])
  {
    var rest := a[1..];
    assert rest[1..] == a[2..] && rest[0] == a[1];
    PostSame(a, 1, rest, 0);
    JoinFirst(rest);
    Associate("\n", a[1], Post(a, 1));
  }

  lemma Associate(a: string, b: string, c: string)
    ensures a + b + c == a + (b + c)
  {}

  /** The first line ends where the text first has a newline. */
  lemma FirstLine(a: seq<string>, b: seq<string>)
    requires |a| > 0 && |b| > 0 && NoNewlines(a) && NoNewlines(b) && Join(a) == Join(b)
    ensures |a[0]| <= |b[0]| && a[0] == b[0][..|a[0]|]
  {
    JoinAt(a, 0);
    JoinAt(b, 0);
    var t := Join(a);
    assert |b| > 1 ==> |b[0]| < |t| && t[|b[0]|] == '\n';
    assert |b| == 1 ==> |t| == |b[0]|;
    assert forall k :: 0 <= k < |a[0]| ==> t[k] == a[0][k] != '\n';
    assert t[..|a[0]|] == a[0];
  }

  lemma {:induction false} PreGrows(lines: seq<string>, r: nat, s: nat)
    requires r < s <= |lines|
    ensures |Pre(lines, r)| + |lines[r]| < |Pre(lines, s)|
    decreases s
  {
    if r < s - 1 { PreGrows(lines, r, s - 1); }
  }

  /** The flat string and position determine lines, row and column; so undoing on the flat
      string is undoing in the editor. */
  lemma FlatInjective(a: seq<string>, row: nat, col: nat, b: seq<string>, row': nat, col': nat)
    requires NoNewlines(a) && row < |a| && col <= |a[row]|
    requires NoNewlines(b) && row' < |b| && col' <= |b[row']|
    requires ToFlat(a, row, col) == ToFlat(b, row', col')
    ensures a == b && row == row' && col == col'
  {
    JoinInjective(a, b);
    if row < row' { PreGrows(a, row, row'); }
    if row' < row { PreGrows(a, row', row); }
  }

  // ---- the editor ----

  class Buffer {
    var lines: array<string>
    var lineCount: nat
    var cursorRow: nat
    var cursorCol: nat
    var dirty: bool

    ghost predicate Sized()
      reads this, lines
    {
      lineCount <= lines.Length && Plain(lines[..lineCount])
    }

    ghost predicate Valid()
      reads this, lines
    {
      Sized() && cursorRow < lineCount && cursorCol <= |lines[cursorRow]|
    }

    ghost function Contents(): Flat
      requires Valid()
      reads this, lines
    {
      ToFlat(lines[..lineCount], cursorRow, cursorCol)
    }

    /** One empty line. */
    constructor ()
      ensures Valid() && Contents() == Flat("", 0) && lines[..lineCount] == [""] && fresh(lines)
    {
      lines := new string[0];
      lineCount, cursorRow, cursorCol, dirty := 0, 0, 0, false;
      new;
      AddLine("");
    }

    method Clear()
      modifies this
      ensures Valid() && lines[..lineCount] == [""] && cursorRow == cursorCol == 0 && fresh(lines) && !dirty
    {
      lines := new string[0];
      lineCount, cursorRow, cursorCol := 0, 0, 0;
      AddLine("");
      dirty := false;
    }

    /** Double the capacity of a full array. */
    method Grow()
      requires lineCount <= lines.Length
      modifies `lines
      ensures lineCount < lines.Length && lines[..lineCount] == old(lines[..lineCount])
      ensures lines == old(lines) || fresh(lines)
    {
      if lineCount >= lines.Length {
        var newLines := new string[if lines.Length == 0 then 16 else lines.Length * 2](i => "");
        ghost var before, n := lines, lineCount;
        for i := 0 to lineCount
          invariant lines == before && lineCount == n && lines[..n] == old(lines[..lineCount])
          invariant newLines[..i] == lines[..i]
        {
          newLines[i] := lines[i];
        }
        assert newLines[..n] == lines[..n];
        lines := newLines;
      }
    }

    method AddLine(txt: string)
      requires Sized() && '\n' !in txt && '\0' !in txt
      modifies `lines, `lineCount, lines
      ensures Sized() && lines[..lineCount] == old(lines[..lineCount]) + [txt]
      ensures lines == old(lines) || fresh(lines)
    {
      Grow();
      lines[lineCount] := txt;
      lineCount := lineCount + 1;
    }

    method InsertLineAt(idx: nat, txt: string)
      requires Sized() && idx <= lineCount && '\n' !in txt && '\0' !in txt
      modifies `lines, `lineCount, lines
      ensures Sized()
      ensures lines[..lineCount] == old(lines[..lineCount])[..idx] + [txt] + old(lines[..lineCount])[idx..]
      ensures lines == old(lines) || fresh(lines)
    {
      ghost var before := lines[..lineCount];
      Grow();
      ghost var a, n := lines, lineCount;
      var i := lineCount;
      while i > idx
        invariant lines == a && idx <= i <= n == lineCount < lines.Length
        invariant forall k :: 0 <= k < i ==> lines[k] == before[k]
        invariant forall k :: i < k <= lineCount ==> lines[k] == before[k - 1]
      {
        lines[i] := lines[i - 1];
        i := i - 1;
      }
      lines[idx] := txt;
      lineCount := lineCount + 1;
      LineInserted(before, idx, txt, lines[..lineCount]);
    }

    /** Out of range, nothing happens. */
    method RemoveLineAt(idx: int)
      requires Sized()
      modifies `lineCount, lines
      ensures Sized()
      ensures lines[..lineCount] ==
                if 0 <= idx < old(lineCount) then old(lines[..lineCount])[..idx] + old(lines[..lineCount])[idx + 1..]
                else old(lines[..lineCount])
    {
      if idx < 0 || idx >= lineCount { return; }
      ghost var before := lines[..lineCount];
      ghost var n := lineCount;
      var i := idx;
      while i < lineCount - 1
        invariant idx <= i < n == lineCount
        invariant forall k :: 0 <= k < idx || i <= k < n ==> lines[k] == before[k]
        invariant forall k {:trigger lines[k]} :: idx <= k < i ==> lines[k] == before[k + 1]
      {
        lines[i] := lines[i + 1];
        i := i + 1;
      }
      lineCount := lineCount - 1;
      assert lines[..lineCount] == before[..idx] + before[idx + 1..];
    }

    /** insert_char types a character at the cursor; a row beyond the end counts as the last. */
    method InsertChar(c: char)
      requires Sized() && lineCount > 0 && cursorCol <= |lines[Least(cursorRow, lineCount - 1)]|
      requires c != '\n' && c != '\0'
      modifies this, lines
      ensures Valid() && lines == old(lines) && dirty
      ensures Contents() ==
                Typed(old(ToFlat(lines[..lineCount], Least(cursorRow, lineCount - 1), cursorCol)), c)
    {
      if cursorRow >= lineCount { cursorRow := lineCount - 1; }
      TypedFlat(lines[..lineCount], cursorRow, cursorCol, c);
      ghost var before := lines[..lineCount];
      var line := lines[cursorRow];
      lines[cursorRow] := line[..cursorCol] + [c] + line[cursorCol..];
      assert lines[..lineCount] == before[cursorRow := lines[cursorRow]];
      cursorCol := cursorCol + 1;
      dirty := true;
    }

    /** backspace at the start of a line: the line is joined to the one above. */
    method JoinAbove()
      requires Valid() && cursorCol == 0 && cursorRow > 0
      modifies `lineCount, `cursorRow, `cursorCol, lines
      ensures Valid() && Contents() == Erased(old(Contents()))
    {
      ghost var before := lines[..lineCount];
      MergedFlat(before, cursorRow);
      var prevLen := |lines[cursorRow - 1]|;
      lines[cursorRow - 1] := lines[cursorRow - 1] + lines[cursorRow];
      assert lines[..lineCount] == before[cursorRow - 1 := before[cursorRow - 1] + before[cursorRow]];
      MergedLines(before, lines[..lineCount], cursorRow);
      RemoveLineAt(cursorRow);
      cursorRow := cursorRow - 1;
      cursorCol := prevLen;
    }

    /** backspace within a line */
    method EraseBefore()
      requires Valid() && cursorCol > 0
      modifies `cursorCol, lines
      ensures Valid() && Contents() == Erased(old(Contents()))
    {
      ghost var before := lines[..lineCount];
      ErasedFlat(before, cursorRow, cursorCol);
      var line := lines[cursorRow];
      lines[cursorRow] := line[..cursorCol - 1] + line[cursorCol..];
      assert lines[..lineCount] == before[cursorRow := lines[cursorRow]];
      cursorCol := cursorCol - 1;
    }

    /** backspace erases the character before the cursor, a newline at the start of a line. */
    method Backspace()
      requires Valid()
      modifies this, lines
      ensures Valid() && Contents() == Erased(old(Contents())) && lines == old(lines) && dirty
    {
      if cursorCol == 0 && cursorRow > 0 {
        JoinAbove();
      } else if cursorCol > 0 {
        EraseBefore();
      }
      dirty := true;
    }

    /** newline types a newline at the cursor. */
    method Newline()
      requires Valid()
      modifies this, lines
      ensures Valid() && Contents() == Typed(old(Contents()), '\n') && dirty
      ensures lines == old(lines) || fresh(lines)
    {
      ghost var before := lines[..lineCount];
      SplitFlat(before, cursorRow, cursorCol);
      var line := lines[cursorRow];
      var firstPart, secondPart := line[..cursorCol], line[cursorCol..];
      lines[cursorRow] := firstPart;
      assert lines[..lineCount] == before[cursorRow := firstPart];
      InsertLineAt(cursorRow + 1, secondPart);
      LineSplit(before, cursorRow, firstPart, secondPart);
      cursorRow := cursorRow + 1;
      cursorCol := 0;
      dirty := true;
    }

    /** Typing any character, or a newline, and then erasing it: lines and cursor are as before. */
    method TypeAndErase(c: char)
      requires Valid() && c != '\0'
      modifies this, lines
      ensures Valid() && lines[..lineCount] == old(lines[..lineCount])
      ensures cursorRow == old(cursorRow) && cursorCol == old(cursorCol)
    {
      ghost var before, row, col := lines[..lineCount], cursorRow, cursorCol;
      TypeThenErase(Contents(), c);
      if c == '\n' {
        Newline();
      } else {
        InsertChar(c);
      }
      Backspace();
      FlatInjective(lines[..lineCount], cursorRow, cursorCol, before, row, col);
    }

    /** The content that save_file writes. */
    method Save() returns (content: string)
      requires Valid()
      modifies `dirty
      ensures content == Contents().text && !dirty
    {
      content := "";
      for i := 0 to lineCount
        invariant content == if i < lineCount then Pre(lines[..lineCount], i) else Join(lines[..lineCount])
      {
        content := content + lines[i];
        if i < lineCount - 1 { content := content + "\n"; }
      }
      dirty := false;
    }

    /** load_file on a file that can be opened: at most 32768 bytes are read. */
    method Load(content: string)
      modifies this
      ensures Valid() && !dirty && cursorRow == cursorCol == 0 && fresh(lines)
      ensures lines[..lineCount] == Parse(content[..Least(LOAD_LIMIT, |content|)])
    {
      Clear();
      var n := Least(LOAD_LIMIT, |content|);
      for i := 0 to n
        invariant Valid() && fresh(lines) && cursorRow == cursorCol == 0
        invariant lines[..lineCount] == Parse(content[..i])
      {
        assert content[..i + 1][..i] == content[..i];
        if content[i] == '\n' {
          AddLine("");
        } else if !Dropped(content[i]) {
          ghost var before := lines[..lineCount];
          lines[lineCount - 1] := lines[lineCount - 1] + [content[i]];
          assert lines[..lineCount] == before[lineCount - 1 := lines[lineCount - 1]];
        }
      }
      dirty := false;
    }
  }

  lemma {:induction false} PrePlain(lines: seq<string>, r: nat)
    requires r <= |lines| && Plain(lines)
    ensures '\0' !in Pre(lines, r)
  {
    if r > 0 { PrePlain(lines, r - 1); }
  }

  /** Loading what was saved restores the lines exactly when the text fits the read buffer and
      has no carriage return. */
  lemma LoadAfterSave(lines: seq<string>)
    requires |lines| > 0 && Plain(lines)
    ensures var text := Join(lines);
            Parse(text[..Least(LOAD_LIMIT, |text|)]) == lines <==> |text| <= LOAD_LIMIT && '\r' !in text
  {
    var text := Join(lines);
    var front := text[..Least(LOAD_LIMIT, |text|)];
    PrePlain(lines, |lines| - 1);
    JoinParsed(front);
    DropsNothing(front);
    if |text| <= LOAD_LIMIT {
      assert front == text;
      if '\r' !in text { JoinInjective(Parse(front), lines); }
    }
  }

  /** A line that is a carriage return comes back empty. */
  lemma ReturnLost()
    ensures Join(["\r"]) == "\r" && Parse("\r") == [""]
  {
    assert Parse("\r"[..0]) == [""];
  }
}
