/** What a laid out chat line looks like: where its lines begin, and where its text is broken. */
module ChatWrapping {
  import opened ChatLayout

  // ---------------------------------------------------------------------------
  // Where lines begin
  // ---------------------------------------------------------------------------

  /** `n` is where the C string of the name ends. */
  ghost predicate EndsAt(name: string, n: nat) {
    && n <= |name| && (forall i :: 0 <= i < n ==> name[i] != '\0')
    && (n < |name| ==> name[n] == '\0')
  }

  lemma {:induction false} SanitizedEnds(name: string, n: nat)
    requires EndsAt(name, n)
    ensures |Sanitized(name)| == n
  {
    if n > 0 {
      SanitizedEnds(name[1..], n - 1);
    }
  }

  /** Every line but the first starts with a fragment at this column. */
  ghost predicate Hanging(lines: seq<Line>, column: nat) {
    forall i :: 1 <= i < |lines| ==> lines[i].fragments != [] && lines[i].fragments[0].column == column
  }

  ghost predicate NoneEmpty(lines: seq<Line>) {
    forall i :: 0 <= i < |lines| ==> lines[i].fragments != []
  }

  lemma {:induction false} PutLeavesNoneEmpty(pieces: seq<Piece>, st: Layout, cols: nat, indent: nat)
    requires indent < cols && st.column < cols && NoneEmpty(st.done)
    ensures NoneEmpty(Put(pieces, st, cols, indent).done)
    decreases Size(pieces), |pieces|
  {
    if pieces != [] {
      var p := pieces[0];
      var room := cols - st.column;
      if |p.text| <= room {
        var st' := Add(st, p.text);
        PutLeavesNoneEmpty(pieces[1..], if st'.column == cols || p.endsLine then EndLine(st', indent) else st', cols,
                           indent);
      } else {
        var cut := [Piece(p.text[room..], false)] + pieces[1..];
        assert cut[1..] == pieces[1..];
        PutLeavesNoneEmpty(cut, EndLine(Add(st, p.text[..room]), indent), cols, indent);
      }
    }
  }

  lemma {:induction false} TextLeavesNoneEmpty(text: string, st: Layout, cols: nat, indent: nat, isSpace: char -> bool)
    requires indent < cols && st.column < cols && NoneEmpty(st.done)
    ensures NoneEmpty(PutText(text, st, cols, indent, isSpace).done)
    decreases |text|
  {
    if text != [] {
      PutTextStep(text, st, cols, indent, isSpace);
      var n := FragLength(text, cols - st.column, isSpace);
      PutLeavesNoneEmpty([Piece(text[..n], true)], st, cols, indent);
      TextLeavesNoneEmpty(text[n..], Put([Piece(text[..n], true)], st, cols, indent), cols, indent, isSpace);
    }
  }

  lemma {:induction false} FirstColumn(fragments: seq<Fragment>, start: nat, end: nat)
    requires Consecutive(fragments, start, end) && fragments != []
    ensures fragments[0].column == start
  {
    var last := |fragments| - 1;
    if last > 0 {
      FirstColumn(fragments[..last], start, fragments[last].column);
    }
  }

  lemma LaidLinesHang(lines: seq<Line>, cols: nat, indent: nat)
    requires WellLaid(lines, cols, indent) && (forall i :: 1 <= i < |lines| ==> lines[i].fragments != [])
    ensures Hanging(lines, indent)
  {
    forall i | 1 <= i < |lines|
      ensures lines[i].fragments[0].column == indent
    {
      assert Fits(lines[i], cols, indent);
      FirstColumn(lines[i].fragments, indent, EndColumn(lines[i].fragments, indent));
    }
  }

  /**
    Every line after the first begins behind the decorated name if that takes no
    more than half the columns, else at column 2, and at 0 without a name. The
    name is measured up to an embedded NUL, but indented by its full length. A
    window that ends before that column shows nothing.
   */
  lemma LinesHang(line: ChatLine, n: nat, cols: nat, isSpace: char -> bool)
    requires EndsAt(line.name, n)
    ensures var column := if line.name == "" then 0 else if n + 3 <= cols / 2 then |line.name| + 3 else 2;
            Hanging(Format(line, cols, isSpace), column) && (Format(line, cols, isSpace) == [] <==> cols <= column)
    ensures forall i :: 0 <= i < |Format(line, cols, isSpace)| ==> (Format(line, cols, isSpace)[i].first <==> i == 0)
  {
    SanitizedEnds(line.name, n);
    FormatIsFaithful(line, cols, isSpace);
    var indent := HangingIndentation(line.name, cols);
    if indent < cols {
      var start := Layout([], [], 0);
      PutLeavesNoneEmpty(NamePieces(line.name), start, cols, indent);
      var named := Put(NamePieces(line.name), start, cols, indent);
      TextLeavesNoneEmpty(line.text, named, cols, indent, isSpace);
    }
    LaidLinesHang(Format(line, cols, isSpace), cols, indent);
  }

  // ---------------------------------------------------------------------------
  // Where the text is broken
  // ---------------------------------------------------------------------------

  /**
    With room for `room` characters the text is broken behind `part`: it ends
    there, or `part` ends in a space and no later one would fit, or there is no
    space to end at and the line is full.
   */
  ghost predicate Breaks(part: string, rest: string, room: int, isSpace: char -> bool) {
    && 0 < |part| <= room
    && (|| rest == ""
        || (isSpace(part[|part| - 1]) && forall i :: 0 <= i < |rest| && i < room - |part| ==> !isSpace(rest[i]))
        || (|part| == room && forall i :: 0 < i < |part| ==> !isSpace(part[i])))
  }

  /** The last fragments of the lines are the text, part by part; after the first line they stand alone. */
  ghost predicate Wraps(lines: seq<Line>, text: string, cols: nat, isSpace: char -> bool) {
    if text == "" then lines == []
    else
      && lines != [] && lines[0].fragments != []
      && var part := lines[0].fragments[|lines[0].fragments| - 1];
         && part.text <= text && Breaks(part.text, text[|part.text|..], cols - part.column, isSpace)
         && (|lines| > 1 ==> |lines[1].fragments| == 1)
         && Wraps(lines[1..], text[|part.text|..], cols, isSpace)
  }

  lemma BreaksAtWords(text: string, room: nat, isSpace: char -> bool)
    requires text != [] && room > 0
    ensures var n := FragLength(text, room, isSpace); Breaks(text[..n], text[n..], room, isSpace)
  {
    CutsAtWords(text, room, isSpace);
    var n := FragLength(text, room, isSpace);
    if n < |text| && isSpace(text[n - 1]) && forall i :: n <= i < room && i < |text| ==> !isSpace(text[i]) {
      assert forall i :: 0 <= i < |text[n..]| && i < room - n ==> text[n..][i] == text[n + i];
    }
  }

  /** A fragment that fits and ends its line. */
  lemma PutLast(part: string, st: Layout, cols: nat, indent: nat)
    requires indent < cols && st.column < cols && |part| <= cols - st.column
    ensures Put([Piece(part, true)], st, cols, indent) == EndLine(Add(st, part), indent)
  {
    assert [Piece(part, true)][1..] == [];
  }

  lemma WrapsOneMore(l: Line, begun: seq<Fragment>, part: string, column: nat, more: seq<Line>, rest: string,
                     text: string, cols: nat, isSpace: char -> bool, done: seq<Line>, all: seq<Line>)
    returns (lines: seq<Line>)
    requires l.fragments == begun + [Fragment(part, column)] && part <= text && text[|part|..] == rest
    requires Breaks(part, rest, cols - column, isSpace) && Wraps(more, rest, cols, isSpace)
    requires more != [] ==> more[0].fragments != [] && more[0].fragments[..|more[0].fragments| - 1] == []
    requires all == done + [l] + more
    ensures Wraps(lines, text, cols, isSpace) && all == done + lines
    ensures lines != [] && lines[0].fragments != [] && lines[0].fragments[..|lines[0].fragments| - 1] == begun
  {
    lines := [l] + more;
    assert lines[1..] == more;
    assert l.fragments[|l.fragments| - 1] == Fragment(part, column);
  }

  /** One line of the text: the layout behind it, and the line. */
  lemma OneLine(text: string, st: Layout, cols: nat, indent: nat, isSpace: char -> bool)
    returns (part: string, rest: string, l: Line, next: Layout)
    requires indent < cols && st.column < cols && text != []
    ensures part <= text && text[|part|..] == rest && |rest| < |text|
    ensures Breaks(part, rest, cols - st.column, isSpace)
    ensures l.fragments == st.current + [Fragment(part, st.column)]
    ensures next.done == st.done + [l] && next.current == [] && next.column < cols
    ensures PutText(text, st, cols, indent, isSpace) == PutText(rest, next, cols, indent, isSpace)
  {
    var n := FragLength(text, cols - st.column, isSpace);
    part, rest := text[..n], text[n..];
    BreaksAtWords(text, cols - st.column, isSpace);
    PutTextStep(text, st, cols, indent, isSpace);
    PutLast(part, st, cols, indent);
    l := Line(st.current + [Fragment(part, st.column)], st.done == []);
    next := EndLine(Add(st, part), indent);
  }

  lemma NothingWraps(st: Layout, cols: nat, indent: nat, isSpace: char -> bool)
    requires indent < cols && st.column < cols
    ensures PutText("", st, cols, indent, isSpace) == st && Wraps([], "", cols, isSpace)
  {
  }

  /** Laying out text behind `st` adds lines that wrap it, the first of them with what `st` has begun. */
  lemma {:induction false} TextWraps(text: string, st: Layout, cols: nat, indent: nat, isSpace: char -> bool,
                                     r: Layout)
    returns (lines: seq<Line>)
    requires indent < cols && st.column < cols && r == PutText(text, st, cols, indent, isSpace)
    ensures r.done == st.done + lines && (text != "" ==> r.current == []) && (text == "" ==> r.current == st.current)
    ensures Wraps(lines, text, cols, isSpace) && (text == "" <==> lines == [])
    ensures text != "" ==>
              lines[0].fragments != [] && lines[0].fragments[..|lines[0].fragments| - 1] == st.current
    decreases |text|
  {
    if text == "" {
      NothingWraps(st, cols, indent, isSpace);
      lines := [];
    } else {
      var part, rest, l, next := OneLine(text, st, cols, indent, isSpace);
      var more := TextWraps(rest, next, cols, indent, isSpace, r);
      lines := WrapsOneMore(l, st.current, part, st.column, more, rest, text, cols, isSpace, st.done, r.done);
    }
  }

  /** From line `k` on, behind the rest of the name, the lines wrap the text of the message. */
  lemma MessageWraps(line: ChatLine, cols: nat, isSpace: char -> bool) returns (k: nat)
    requires line.text != "" && Format(line, cols, isSpace) != []
    ensures var lines := Format(line, cols, isSpace);
            && k < |lines| && Wraps(lines[k..], line.text, cols, isSpace) && lines[k].fragments != []
            && LinesText(lines[..k]) + FragmentsText(lines[k].fragments[..|lines[k].fragments| - 1]) ==
               Decorated(line.name)
  {
    var indent := HangingIndentation(line.name, cols);
    var start := Layout([], [], 0);
    var named := Put(NamePieces(line.name), start, cols, indent);
    PutKeeps(NamePieces(line.name), start, cols, indent);
    NamePiecesText(line.name);
    var added := TextWraps(line.text, named, cols, indent, isSpace,
                           PutText(line.text, named, cols, indent, isSpace));
    k := |named.done|;
    var lines := Format(line, cols, isSpace);
    assert lines == named.done + added;
    assert lines[k..] == added && lines[..k] == named.done;
  }
}
