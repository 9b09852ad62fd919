/** Laying out one chat line: word wrapping with hanging indentation, without web links. */
module ChatLayout {
  datatype ChatLine = ChatLine(name: string, text: string, age: real)

  datatype Fragment = Fragment(text: string, column: nat)

  datatype Line = Line(fragments: seq<Fragment>, first: bool)

  /** A fragment to be placed; `endsLine` forces a new line behind it. */
  datatype Piece = Piece(text: string, endsLine: bool)

  /** Finished lines, the line being filled, and the next free column in it. */
  datatype Layout = Layout(done: seq<Line>, current: seq<Fragment>, column: nat)

  // ---------------------------------------------------------------------------
  // The layout
  // ---------------------------------------------------------------------------

  /** The name up to an embedded NUL, which is where its C string ends. */
  function Sanitized(name: string): (r: string)
    ensures r <= name
  {
    if name == [] || name[0] == '\0' then [] else [name[0]] + Sanitized(name[1..])
  }

  function HangingIndentation(name: string, cols: nat): nat {
    if name == [] then 0
    else if |Sanitized(name)| + 3 <= cols / 2 then |name| + 3
    else 2
  }

  function NamePieces(name: string): seq<Piece> {
    if name == [] then [] else [Piece("<", false), Piece(name, false), Piece("> ", false)]
  }

  function Decorated(name: string): string {
    if name == [] then [] else "<" + name + "> "
  }

  function EndLine(st: Layout, indent: nat): Layout {
    Layout(st.done + [Line(st.current, st.done == [])], [], indent)
  }

  function Add(st: Layout, text: string): Layout {
    Layout(st.done, st.current + [Fragment(text, st.column)], st.column + |text|)
  }

  function Size(pieces: seq<Piece>): nat {
    if pieces == [] then 0 else |pieces[0].text| + Size(pieces[1..])
  }

  /** Places pieces one behind the other, cutting those that do not fit. */
  function Put(pieces: seq<Piece>, st: Layout, cols: nat, indent: nat): (r: Layout)
    requires indent < cols && st.column < cols
    ensures r.column < cols
    decreases Size(pieces), |pieces|
  {
    if pieces == [] then st
    else
      var p := pieces[0];
      var room := cols - st.column;
      if |p.text| <= room then
        var st' := Add(st, p.text);
        Put(pieces[1..], if st'.column == cols || p.endsLine then EndLine(st', indent) else st', cols, indent)
      else
        var cut := [Piece(p.text[room..], false)] + pieces[1..];
        assert cut[1..] == pieces[1..];
        Put(cut, EndLine(Add(st, p.text[..room]), indent), cols, indent)
  }

  /** The last position of a space in `text` before `n`, or 0. */
  function LastSpace(text: string, n: nat, isSpace: char -> bool): (k: nat)
    requires n <= |text|
    ensures k == 0 || (k < n && isSpace(text[k]))
    ensures forall i :: k < i < n ==> !isSpace(text[i])
  {
    if n == 0 then 0 else if isSpace(text[n - 1]) then n - 1 else LastSpace(text, n - 1, isSpace)
  }

  /** As much text as there is room for, but ending behind a space if there is more to come and a space to end at. */
  function FragLength(text: string, room: nat, isSpace: char -> bool): (n: nat)
    requires text != [] && room > 0
    ensures 0 < n <= |text| && n <= room
  {
    var n := if |text| < room then |text| else room;
    var space := LastSpace(text, n, isSpace);
    if space != 0 && n < |text| then space + 1 else n
  }

  function PutText(text: string, st: Layout, cols: nat, indent: nat, isSpace: char -> bool): (r: Layout)
    requires indent < cols && st.column < cols
    ensures r.column < cols
    decreases |text|
  {
    if text == [] then st
    else
      var n := FragLength(text, cols - st.column, isSpace);
      PutText(text[n..], Put([Piece(text[..n], true)], st, cols, indent), cols, indent, isSpace)
  }

  function Finish(st: Layout): seq<Line> {
    if st.done == [] || st.current != [] then st.done + [Line(st.current, st.done == [])] else st.done
  }

  /** The formatted lines of a chat line; none if the window is no wider than the indentation. */
  function Format(line: ChatLine, cols: nat, isSpace: char -> bool): seq<Line> {
    var indent := HangingIndentation(line.name, cols);
    if indent >= cols then []
    else Finish(PutText(line.text, Put(NamePieces(line.name), Layout([], [], 0), cols, indent), cols, indent, isSpace))
  }

  // ---------------------------------------------------------------------------
  // No character is lost, and every line fits
  // ---------------------------------------------------------------------------

  function FragmentsText(fragments: seq<Fragment>): string {
    if fragments == [] then [] else FragmentsText(fragments[..|fragments| - 1]) + fragments[|fragments| - 1].text
  }

  function LinesText(lines: seq<Line>): string {
    if lines == [] then [] else LinesText(lines[..|lines| - 1]) + FragmentsText(lines[|lines| - 1].fragments)
  }

  function PiecesText(pieces: seq<Piece>): string {
    if pieces == [] then [] else pieces[0].text + PiecesText(pieces[1..])
  }

  function LayoutText(st: Layout): string {
    LinesText(st.done) + FragmentsText(st.current)
  }

  /** Fragments follow each other without a gap from column `start` and end at column `end`. */
  predicate Consecutive(fragments: seq<Fragment>, start: nat, end: nat) {
    if fragments == [] then start == end
    else
      var last := fragments[|fragments| - 1];
      last.column + |last.text| == end && Consecutive(fragments[..|fragments| - 1], start, last.column)
  }

  function EndColumn(fragments: seq<Fragment>, start: nat): nat {
    if fragments == [] then start else fragments[|fragments| - 1].column + |fragments[|fragments| - 1].text|
  }

  /** A line starts at its indentation and ends within the window. */
  predicate Fits(l: Line, cols: nat, indent: nat) {
    var start := if l.first then 0 else indent;
    Consecutive(l.fragments, start, EndColumn(l.fragments, start)) && EndColumn(l.fragments, start) <= cols
  }

  ghost predicate WellLaid(lines: seq<Line>, cols: nat, indent: nat) {
    forall i :: 0 <= i < |lines| ==> Fits(lines[i], cols, indent) && (lines[i].first <==> i == 0)
  }

  ghost predicate Sound(st: Layout, cols: nat, indent: nat) {
    && WellLaid(st.done, cols, indent) && st.column <= cols
    && Consecutive(st.current, if st.done == [] then 0 else indent, st.column)
  }

  lemma AddText(st: Layout, text: string)
    ensures LayoutText(Add(st, text)) == LayoutText(st) + text
  {
    assert (st.current + [Fragment(text, st.column)])[..|st.current|] == st.current;
  }

  lemma EndLineText(st: Layout, indent: nat)
    ensures LayoutText(EndLine(st, indent)) == LayoutText(st)
  {
    assert (st.done + [Line(st.current, st.done == [])])[..|st.done|] == st.done;
  }

  lemma AddSound(st: Layout, text: string, cols: nat, indent: nat)
    requires Sound(st, cols, indent) && st.column + |text| <= cols
    ensures Sound(Add(st, text), cols, indent)
  {
    assert (st.current + [Fragment(text, st.column)])[..|st.current|] == st.current;
  }

  lemma EndLineSound(st: Layout, cols: nat, indent: nat)
    requires Sound(st, cols, indent) && indent < cols
    ensures Sound(EndLine(st, indent), cols, indent)
  {
    assert Fits(Line(st.current, st.done == []), cols, indent);
  }

  lemma {:induction false} PutKeeps(pieces: seq<Piece>, st: Layout, cols: nat, indent: nat)
    requires indent < cols && st.column < cols && Sound(st, cols, indent)
    ensures Sound(Put(pieces, st, cols, indent), cols, indent)
    ensures LayoutText(Put(pieces, st, cols, indent)) == LayoutText(st) + PiecesText(pieces)
    decreases Size(pieces), |pieces|
  {
    if pieces == [] {
      assert LayoutText(st) + [] == LayoutText(st);
    } else {
      var p := pieces[0];
      var room := cols - st.column;
      if |p.text| <= room {
        var st' := Add(st, p.text);
        AddText(st, p.text);
        AddSound(st, p.text, cols, indent);
        EndLineText(st', indent);
        EndLineSound(st', cols, indent);
        PutKeeps(pieces[1..], if st'.column == cols || p.endsLine then EndLine(st', indent) else st', cols, indent);
        Regroup(LayoutText(st), p.text, PiecesText(pieces[1..]));
      } else {
        var st' := Add(st, p.text[..room]);
        var cut := [Piece(p.text[room..], false)] + pieces[1..];
        assert cut[1..] == pieces[1..];
        AddText(st, p.text[..room]);
        AddSound(st, p.text[..room], cols, indent);
        EndLineText(st', indent);
        EndLineSound(st', cols, indent);
        PutKeeps(cut, EndLine(st', indent), cols, indent);
        assert p.text == p.text[..room] + p.text[room..];
        Regroup4(LayoutText(st), p.text[..room], p.text[room..], PiecesText(pieces[1..]));
      }
    }
  }

  lemma Regroup(a: string, b: string, c: string)
    ensures a + b + c == a + (b + c)
  {
  }

  lemma Regroup4(a: string, b: string, c: string, d: string)
    ensures a + b + (c + d) == a + (b + c + d)
  {
  }

  lemma PutTextStep(text: string, st: Layout, cols: nat, indent: nat, isSpace: char -> bool)
    requires indent < cols && st.column < cols && text != []
    ensures var n := FragLength(text, cols - st.column, isSpace);
            PutText(text, st, cols, indent, isSpace) ==
            PutText(text[n..], Put([Piece(text[..n], true)], st, cols, indent), cols, indent, isSpace)
  {
  }

  /** Placing one fragment of the text. */
  lemma PutFragmentKeeps(fragment: string, st: Layout, cols: nat, indent: nat)
    requires indent < cols && st.column < cols && Sound(st, cols, indent)
    ensures Extends(st, fragment, Put([Piece(fragment, true)], st, cols, indent), cols, indent)
  {
    var p := [Piece(fragment, true)];
    PutKeeps(p, st, cols, indent);
    assert PiecesText(p) == fragment + PiecesText(p[1..]) == fragment;
  }

  /** The layout `r` is sound and shows `text` behind what `st` shows. */
  ghost predicate Extends(st: Layout, text: string, r: Layout, cols: nat, indent: nat) {
    Sound(r, cols, indent) && LayoutText(r) == LayoutText(st) + text
  }

  lemma ExtendsTwice(st: Layout, text: string, n: nat, mid: Layout, r: Layout, cols: nat, indent: nat)
    requires n <= |text| && Extends(st, text[..n], mid, cols, indent) && Extends(mid, text[n..], r, cols, indent)
    ensures Extends(st, text, r, cols, indent)
  {
    Regroup(LayoutText(st), text[..n], text[n..]);
    assert text == text[..n] + text[n..];
  }

  /** The first fragment of a text, and what is laid out behind it. */
  lemma PutTextSplits(text: string, st: Layout, cols: nat, indent: nat, isSpace: char -> bool)
    returns (n: nat, mid: Layout)
    requires indent < cols && st.column < cols && text != [] && Sound(st, cols, indent)
    ensures 0 < n <= |text| && mid.column < cols && Extends(st, text[..n], mid, cols, indent)
    ensures PutText(text, st, cols, indent, isSpace) == PutText(text[n..], mid, cols, indent, isSpace)
  {
    n := FragLength(text, cols - st.column, isSpace);
    mid := Put([Piece(text[..n], true)], st, cols, indent);
    PutFragmentKeeps(text[..n], st, cols, indent);
  }

  lemma {:induction false} PutTextKeeps(text: string, st: Layout, cols: nat, indent: nat, isSpace: char -> bool)
    requires indent < cols && st.column < cols && Sound(st, cols, indent)
    ensures Extends(st, text, PutText(text, st, cols, indent, isSpace), cols, indent)
    decreases |text|
  {
    if text == [] {
      assert LayoutText(st) + text == LayoutText(st);
    } else {
      var n, mid := PutTextSplits(text, st, cols, indent, isSpace);
      PutTextKeeps(text[n..], mid, cols, indent, isSpace);
      ExtendsTwice(st, text, n, mid, PutText(text, st, cols, indent, isSpace), cols, indent);
    }
  }

  /** Exactly the decorated name and the text are shown, within the columns; only the first line is marked first. */
  lemma FormatIsFaithful(line: ChatLine, cols: nat, isSpace: char -> bool)
    ensures var indent := HangingIndentation(line.name, cols);
            var lines := Format(line, cols, isSpace);
            && (lines == [] <==> indent >= cols)
            && (lines != [] ==> LinesText(lines) == Decorated(line.name) + line.text)
            && WellLaid(lines, cols, indent)
  {
    var indent := HangingIndentation(line.name, cols);
    if indent < cols {
      var pieces := NamePieces(line.name);
      var start := Layout([], [], 0);
      PutKeeps(pieces, start, cols, indent);
      var named := Put(pieces, start, cols, indent);
      PutTextKeeps(line.text, named, cols, indent, isSpace);
      var st := PutText(line.text, named, cols, indent, isSpace);
      EndLineText(st, indent);
      EndLineSound(st, cols, indent);
      NamePiecesText(line.name);
    }
  }

  lemma Join3(a: string, b: string, c: string)
    ensures [] + [] + (a + (b + (c + []))) == a + b + c
  {
  }

  /** A text is cut where it ends, behind the last space that fits, or, without a space, where the line is full. */
  lemma CutsAtWords(text: string, room: nat, isSpace: char -> bool)
    requires text != [] && room > 0
    ensures var n := FragLength(text, room, isSpace);
            || n == |text|
            || (isSpace(text[n - 1]) && forall i :: n <= i < room && i < |text| ==> !isSpace(text[i]))
            || (n == room && forall i :: 0 < i < room ==> !isSpace(text[i]))
  {
  }

  lemma NamePiecesText(name: string)
    ensures LayoutText(Layout([], [], 0)) + PiecesText(NamePieces(name)) == Decorated(name)
  {
    var pieces := NamePieces(name);
    if name != [] {
      assert pieces[1..] == [Piece(name, false), Piece("> ", false)];
      assert pieces[1..][1..] == [Piece("> ", false)];
      assert pieces[1..][1..][1..] == [];
      assert PiecesText(pieces[1..][1..]) == "> " + [];
      assert PiecesText(pieces[1..]) == name + ("> " + []);
      Join3("<", name, "> ");
    }
  }
}
