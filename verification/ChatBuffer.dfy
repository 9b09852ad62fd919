/** The chat buffer: raw lines, and their formatted lines kept in step with them. */
module ChatBuffers {
  import opened ChatLayout

  const INT_MAX := 0x7FFF_FFFF

  /** A fragment waiting to be placed carries INT_MAX as its column when a new line must follow. */
  function PieceOf(f: Fragment): Piece {
    Piece(f.text, f.column == INT_MAX)
  }

  function PiecesOf(frags: seq<Fragment>): seq<Piece> {
    seq(|frags|, i requires 0 <= i < |frags| => PieceOf(frags[i]))
  }

  /** The working variables of formatting hold the layout `st`; the lines before it are `base`. */
  ghost predicate Holds(base: seq<Line>, destination: seq<Line>, nextLine: Line, outColumn: nat, st: Layout) {
    destination == base + st.done && nextLine == Line(st.current, st.done == []) && outColumn == st.column
  }

  /** Places one fragment, or as much of it as fits; what is left of it comes next. */
  method PlaceFragment(frags: seq<Fragment>, destination: seq<Line>, nextLine: Line, outColumn: nat, cols: nat,
                       indent: nat, ghost base: seq<Line>, ghost st: Layout)
    returns (frags': seq<Fragment>, destination': seq<Line>, nextLine': Line, outColumn': nat, ghost st': Layout)
    requires frags != [] && indent < cols && outColumn < cols && Holds(base, destination, nextLine, outColumn, st)
    ensures outColumn' < cols && Holds(base, destination', nextLine', outColumn', st')
    ensures Put(PiecesOf(frags'), st', cols, indent) == Put(PiecesOf(frags), st, cols, indent)
    ensures Size(PiecesOf(frags')) < Size(PiecesOf(frags)) ||
            (Size(PiecesOf(frags')) == Size(PiecesOf(frags)) && |frags'| < |frags|)
  {
    var frag := frags[0];
    var markNewline := frag.column == INT_MAX;
    var rest := frags[1..];
    var room := cols - outColumn;
    assert PiecesOf(frags)[1..] == PiecesOf(rest);
    var placed := if |frag.text| <= room then frag.text else frag.text[..room];
    nextLine' := nextLine.(fragments := nextLine.fragments + [Fragment(placed, outColumn)]);
    outColumn', st' := outColumn + |placed|, Add(st, placed);
    if |frag.text| <= room {
      frags' := rest;
    } else {
      frags' := [Fragment(frag.text[room..], 0)] + rest;
      assert PiecesOf(frags') == [Piece(frag.text[room..], false)] + PiecesOf(rest);
    }
    destination' := destination;
    if outColumn' == cols || markNewline {
      destination' := destination' + [nextLine'];
      nextLine' := Line([], false);
      outColumn', st' := indent, EndLine(st', indent);
    }
  }

  method PlaceFragments(frags: seq<Fragment>, destination: seq<Line>, nextLine: Line, outColumn: nat, cols: nat,
                        indent: nat, ghost base: seq<Line>, ghost st: Layout)
    returns (destination': seq<Line>, nextLine': Line, outColumn': nat)
    requires indent < cols && outColumn < cols && Holds(base, destination, nextLine, outColumn, st)
    ensures Holds(base, destination', nextLine', outColumn', Put(PiecesOf(frags), st, cols, indent))
  {
    destination', nextLine', outColumn' := destination, nextLine, outColumn;
    ghost var now := st;
    var nextFrags := frags;
    while nextFrags != []
      invariant outColumn' < cols && Holds(base, destination', nextLine', outColumn', now)
      invariant Put(PiecesOf(nextFrags), now, cols, indent) == Put(PiecesOf(frags), st, cols, indent)
      decreases Size(PiecesOf(nextFrags)), |nextFrags|
    {
      nextFrags, destination', nextLine', outColumn', now :=
        PlaceFragment(nextFrags, destination', nextLine', outColumn', cols, indent, base, now);
    }
  }

  /** The length of the next fragment of the text. */
  method FragmentLength(text: string, inPos: nat, remainingInOutput: nat, isSpace: char -> bool)
    returns (fragLength: nat)
    requires inPos < |text| && remainingInOutput > 0
    ensures fragLength == FragLength(text[inPos..], remainingInOutput, isSpace)
  {
    fragLength := 0;
    var spacePos := 0;
    var remainingInInput := |text| - inPos;
    ghost var rest := text[inPos..];
    while fragLength < remainingInInput && fragLength < remainingInOutput
      invariant fragLength <= remainingInInput && fragLength <= remainingInOutput
      invariant spacePos == LastSpace(rest, fragLength, isSpace)
    {
      if isSpace(text[inPos + fragLength]) {
        spacePos := fragLength;
      }
      fragLength := fragLength + 1;
    }
    if spacePos != 0 && fragLength < remainingInInput {
      fragLength := spacePos + 1;
    }
  }

  /** The pieces, and then the `rest` of the text, are still to be placed and lead to `result`. */
  ghost predicate Pending(rest: string, pieces: seq<Piece>, st: Layout, cols: nat, indent: nat, isSpace: char -> bool,
                          result: Layout) {
    && indent < cols && st.column < cols
    && PutText(rest, Put(pieces, st, cols, indent), cols, indent, isSpace) == result
  }

  lemma TakeText(rest: string, st: Layout, cols: nat, indent: nat, isSpace: char -> bool, result: Layout, head: string,
                 tail: string)
    requires Pending(rest, [], st, cols, indent, isSpace, result) && rest == head + tail && rest != []
    requires |head| == FragLength(rest, cols - st.column, isSpace)
    ensures Pending(tail, [Piece(head, true)], st, cols, indent, isSpace, result)
  {
    PutTextStep(rest, st, cols, indent, isSpace);
    assert rest[..|head|] == head && rest[|head|..] == tail;
  }

  lemma PutDone(rest: string, pieces: seq<Piece>, st: Layout, cols: nat, indent: nat, isSpace: char -> bool,
                result: Layout)
    requires Pending(rest, pieces, st, cols, indent, isSpace, result)
    ensures Pending(rest, [], Put(pieces, st, cols, indent), cols, indent, isSpace, result)
    ensures rest == [] ==> Put(pieces, st, cols, indent) == result
  {
  }

  method NextFragment(text: string, inPos: nat, room: nat, isSpace: char -> bool)
    returns (fragment: string, inPos': nat)
    requires inPos < |text| && room > 0
    ensures inPos < inPos' <= |text| && text[inPos..] == fragment + text[inPos'..]
    ensures |fragment| == FragLength(text[inPos..], room, isSpace)
  {
    var fragLength := FragmentLength(text, inPos, room, isSpace);
    fragment, inPos' := text[inPos..inPos + fragLength], inPos + fragLength;
  }

  lemma MarkedPiece(fragment: string)
    ensures PiecesOf([Fragment(fragment, INT_MAX)]) == [Piece(fragment, true)]
  {
  }

  /** Places all waiting fragments. */
  method PlaceAll(frags: seq<Fragment>, destination: seq<Line>, nextLine: Line, outColumn: nat, cols: nat, indent: nat,
                  ghost base: seq<Line>, ghost st: Layout, ghost rest: string, ghost isSpace: char -> bool,
                      ghost result: Layout)
    returns (destination': seq<Line>, nextLine': Line, outColumn': nat, ghost st': Layout)
    requires outColumn < cols && Holds(base, destination, nextLine, outColumn, st)
    requires Pending(rest, PiecesOf(frags), st, cols, indent, isSpace, result)
    ensures outColumn' < cols && Holds(base, destination', nextLine', outColumn', st')
    ensures Pending(rest, [], st', cols, indent, isSpace, result) && (rest == [] ==> st' == result)
  {
    destination', nextLine', outColumn' :=
        PlaceFragments(frags, destination, nextLine, outColumn, cols, indent, base, st);
    PutDone(rest, PiecesOf(frags), st, cols, indent, isSpace, result);
    st' := Put(PiecesOf(frags), st, cols, indent);
  }

  /** Cuts the next fragment off the text, to be followed by a new line. */
  method TakeFragment(text: string, inPos: nat, room: nat, isSpace: char -> bool,
                      ghost st: Layout, ghost cols: nat, ghost indent: nat, ghost result: Layout)
    returns (nextFrags: seq<Fragment>, inPos': nat)
    requires inPos < |text| && Pending(text[inPos..], [], st, cols, indent, isSpace, result) && room == cols - st.column
    ensures inPos < inPos' <= |text| && Pending(text[inPos'..], PiecesOf(nextFrags), st, cols, indent, isSpace, result)
  {
    var fragment;
    fragment, inPos' := NextFragment(text, inPos, room, isSpace);
    MarkedPiece(fragment);
    nextFrags := [Fragment(fragment, INT_MAX)];
    TakeText(text[inPos..], st, cols, indent, isSpace, result, fragment, text[inPos'..]);
  }

  method LayOut(text: string, frags: seq<Fragment>, cols: nat, indent: nat, destination: seq<Line>,
                isSpace: char -> bool)
    returns (destination': seq<Line>, nextLine: Line, ghost st: Layout)
    requires indent < cols
    ensures st == PutText(text, Put(PiecesOf(frags), Layout([], [], 0), cols, indent), cols, indent, isSpace)
    ensures exists outColumn: nat :: Holds(destination, destination', nextLine, outColumn, st)
  {
    destination' := destination;
    nextLine := Line([], true);
    st := Layout([], [], 0);
    var outColumn: nat, inPos: nat, nextFrags := 0, 0, frags;
    ghost var result := PutText(text, Put(PiecesOf(frags), st, cols, indent), cols, indent, isSpace);
    assert text[0..] == text;
    while nextFrags != [] || inPos < |text|
      invariant inPos <= |text| && outColumn < cols && Holds(destination, destination', nextLine, outColumn, st)
      invariant Pending(text[inPos..], PiecesOf(nextFrags), st, cols, indent, isSpace, result)
      decreases |text| - inPos, |nextFrags|
    {
      destination', nextLine, outColumn, st :=
          PlaceAll(nextFrags, destination', nextLine, outColumn, cols, indent, destination, st,
                                                        text[inPos..], isSpace, result);
      nextFrags := [];
      NoPieces();
      if inPos < |text| {
        nextFrags, inPos := TakeFragment(text, inPos, cols - outColumn, isSpace, st, cols, indent, result);
      }
    }
    NoPieces();
    PutDone(text[inPos..], [], st, cols, indent, isSpace, result);
  }

  lemma NoPieces()
    ensures PiecesOf([]) == []
  {
  }

  method FormatChatLine(line: ChatLine, cols: nat, destination: seq<Line>, isSpace: char -> bool)
    returns (destination': seq<Line>, numAdded: nat)
    ensures destination' == destination + Format(line, cols, isSpace) && numAdded == |Format(line, cols, isSpace)|
  {
    var nextFrags: seq<Fragment> := [];
    if line.name != [] {
      nextFrags := [Fragment("<", 0), Fragment(line.name, 0), Fragment("> ", 0)];
    }
    assert PiecesOf(nextFrags) == NamePieces(line.name);
    var nameSanitized := Sanitized(line.name);
    var indent :=
      if line.name == [] then 0
      else if |nameSanitized| + 3 <= cols / 2 then |line.name| + 3
      else 2;
    if indent >= cols {
      return destination, 0;
    }
    var nextLine;
    ghost var st;
    destination', nextLine, st := LayOut(line.text, nextFrags, cols, indent, destination, isSpace);
    if destination' == destination || nextLine.fragments != [] {
      destination' := destination' + [nextLine];
    }
    numAdded := |destination'| - |destination|;
  }

  // ---------------------------------------------------------------------------
  // The buffer
  // ---------------------------------------------------------------------------

  function FormatAll(lines: seq<ChatLine>, cols: nat, isSpace: char -> bool): seq<Line> {
    if lines == [] then [] else Format(lines[0], cols, isSpace) + FormatAll(lines[1..], cols, isSpace)
  }

  lemma {:induction false} FormatAllJoin(a: seq<ChatLine>, b: seq<ChatLine>, cols: nat, isSpace: char -> bool)
    ensures FormatAll(a + b, cols, isSpace) == FormatAll(a, cols, isSpace) + FormatAll(b, cols, isSpace)
  {
    if a == [] {
      assert a + b == b;
      assert [] + FormatAll(b, cols, isSpace) == FormatAll(b, cols, isSpace);
    } else {
      assert (a + b)[1..] == a[1..] + b;
      FormatAllJoin(a[1..], b, cols, isSpace);
      JoinLines(Format(a[0], cols, isSpace), FormatAll(a[1..], cols, isSpace), FormatAll(b, cols, isSpace));
    }
  }

  lemma JoinLines(a: seq<Line>, b: seq<Line>, c: seq<Line>)
    ensures a + (b + c) == a + b + c
  {
  }

  /** The window is wide enough to show something of the message. */
  predicate Shown(line: ChatLine, cols: nat) {
    HangingIndentation(line.name, cols) < cols
  }

  ghost predicate AllShown(lines: seq<ChatLine>, cols: nat) {
    forall l :: l in lines ==> Shown(l, cols)
  }

  ghost predicate NoneShown(lines: seq<ChatLine>, cols: nat) {
    forall l :: l in lines ==> !Shown(l, cols)
  }

  /** A new message appends its lines. */
  lemma FormatAppended(lines: seq<ChatLine>, line: ChatLine, cols: nat, isSpace: char -> bool)
    ensures FormatAll(lines + [line], cols, isSpace) == FormatAll(lines, cols, isSpace) + Format(line, cols, isSpace)
  {
    FormatAllJoin(lines, [line], cols, isSpace);
    assert FormatAll([line], cols, isSpace) == Format(line, cols, isSpace) + [] == Format(line, cols, isSpace);
  }

  /** Three columns suffice, unless a name hides characters behind a NUL. */
  lemma ThreeColumnsSuffice(name: string, cols: nat)
    requires cols >= 3 && Sanitized(name) == name
    ensures HangingIndentation(name, cols) < cols
  {
  }

  /**
    In a window of one or two columns a message with a name has no formatted
    line, so the first formatted line need not belong to the oldest message.
   */
  lemma NarrowWindowsHideNames(named: ChatLine, next: ChatLine, cols: nat, isSpace: char -> bool)
    requires named.name != [] && next.name == [] && 0 < cols <= 2
    ensures FormatAll([named, next], cols, isSpace) == FormatAll([next], cols, isSpace) != []
  {
    FormatIsFaithful(named, cols, isSpace);
    FormatIsFaithful(next, cols, isSpace);
    assert [named, next][1..] == [next];
    assert Format(named, cols, isSpace) == [];
    assert [] + FormatAll([next], cols, isSpace) == FormatAll([next], cols, isSpace);
  }

  /** Where the lines of message `k` begin. */
  function Offset(lines: seq<ChatLine>, k: nat, cols: nat, isSpace: char -> bool): nat
    requires k <= |lines|
  {
    |FormatAll(lines[..k], cols, isSpace)|
  }

  // ---------------------------------------------------------------------------
  // Groups of lines
  // ---------------------------------------------------------------------------

  /** A first line and others that are not first. */
  predicate IsGroup(f: seq<Line>) {
    f != [] && f[0].first && forall i :: 0 < i < |f| ==> !f[i].first
  }

  predicate StartsGroup(f: seq<Line>) {
    f != [] ==> f[0].first
  }

  /** The lines of a message that is shown are a group; others have none. */
  lemma MessageShape(line: ChatLine, cols: nat, isSpace: char -> bool)
    ensures if Shown(line, cols) then IsGroup(Format(line, cols, isSpace)) else Format(line, cols, isSpace) == []
  {
    FormatIsFaithful(line, cols, isSpace);
  }

  /** The next first line from `i` on. */
  function NextFirst(formatted: seq<Line>, i: nat): (k: nat)
    requires i <= |formatted|
    ensures i <= k <= |formatted| && (k < |formatted| ==> formatted[k].first)
    decreases |formatted| - i
  {
    if i == |formatted| || formatted[i].first then i else NextFirst(formatted, i + 1)
  }

  /** Where the first `n` groups end. */
  function GroupsEnd(formatted: seq<Line>, n: nat): (end: nat)
    requires StartsGroup(formatted)
    ensures end <= |formatted| && (end < |formatted| ==> formatted[end].first)
  {
    if n == 0 then 0
    else
      var end := GroupsEnd(formatted, n - 1);
      if end < |formatted| then NextFirst(formatted, end + 1) else end
  }

  lemma {:induction false} NextFirstSkips(f: seq<Line>, rest: seq<Line>, i: nat)
    requires IsGroup(f) && StartsGroup(rest) && 0 < i <= |f|
    ensures NextFirst(f + rest, i) == |f|
    decreases |f| - i
  {
    if i < |f| {
      NextFirstSkips(f, rest, i + 1);
    }
  }

  lemma {:induction false} NextFirstShift(f: seq<Line>, rest: seq<Line>, i: nat)
    requires i <= |rest|
    ensures NextFirst(f + rest, |f| + i) == |f| + NextFirst(rest, i)
    decreases |rest| - i
  {
    if i < |rest| {
      assert (f + rest)[|f| + i] == rest[i];
      if !rest[i].first {
        NextFirstShift(f, rest, i + 1);
      }
    }
  }

  /** Behind one group, one group fewer is to be passed. */
  lemma {:induction false} GroupsEndShift(f: seq<Line>, rest: seq<Line>, n: nat)
    requires IsGroup(f) && StartsGroup(rest) && n > 0
    ensures GroupsEnd(f + rest, n) == |f| + GroupsEnd(rest, n - 1)
  {
    if n == 1 {
      NextFirstSkips(f, rest, 1);
      assert GroupsEnd(f + rest, 0) == 0;
    } else {
      GroupsEndShift(f, rest, n - 1);
      var end := GroupsEnd(rest, n - 2);
      if end < |rest| {
        NextFirstShift(f, rest, end + 1);
      }
    }
  }

  lemma {:induction false} AllStartsGroup(lines: seq<ChatLine>, cols: nat, isSpace: char -> bool)
    ensures StartsGroup(FormatAll(lines, cols, isSpace))
  {
    if lines != [] {
      MessageShape(lines[0], cols, isSpace);
      AllStartsGroup(lines[1..], cols, isSpace);
    }
  }

  /** What follows the first `n` messages that are shown. */
  function AfterShown(lines: seq<ChatLine>, n: nat, cols: nat): seq<ChatLine> {
    if n == 0 || lines == [] then lines
    else AfterShown(lines[1..], if Shown(lines[0], cols) then n - 1 else n, cols)
  }

  lemma OneGroupFewer(f: seq<Line>, rest: seq<Line>, n: nat, all: seq<Line>)
    requires IsGroup(f) && StartsGroup(rest) && n > 0 && all == f + rest
    ensures StartsGroup(all) && all[GroupsEnd(all, n)..] == rest[GroupsEnd(rest, n - 1)..]
  {
    GroupsEndShift(f, rest, n);
  }

  /** Dropping groups of lines drops messages that are shown. */
  lemma {:induction false} GroupsAreMessages(lines: seq<ChatLine>, n: nat, cols: nat, isSpace: char -> bool,
                                             all: seq<Line>)
    requires all == FormatAll(lines, cols, isSpace)
    ensures StartsGroup(all)
    ensures all[GroupsEnd(all, n)..] == FormatAll(AfterShown(lines, n, cols), cols, isSpace)
    decreases |lines|
  {
    AllStartsGroup(lines, cols, isSpace);
    if n == 0 || lines == [] {
      NoGroups(n);
    } else {
      var f, rest := MessageThenRest(lines, cols, isSpace, all);
      var m := if Shown(lines[0], cols) then n - 1 else n;
      GroupsAreMessages(lines[1..], m, cols, isSpace, rest);
      if Shown(lines[0], cols) {
        OneGroupFewer(f, rest, n, all);
      }
      assert AfterShown(lines, n, cols) == AfterShown(lines[1..], m, cols);
    }
  }

  lemma MessageThenRest(lines: seq<ChatLine>, cols: nat, isSpace: char -> bool, all: seq<Line>)
    returns (f: seq<Line>, rest: seq<Line>)
    requires lines != [] && all == FormatAll(lines, cols, isSpace)
    ensures rest == FormatAll(lines[1..], cols, isSpace) && StartsGroup(rest) && all == f + rest
    ensures if Shown(lines[0], cols) then IsGroup(f) else all == rest
  {
    f, rest := Format(lines[0], cols, isSpace), FormatAll(lines[1..], cols, isSpace);
    AllStartsGroup(lines[1..], cols, isSpace);
    MessageShape(lines[0], cols, isSpace);
  }

  lemma {:induction false} NoGroups(n: nat)
    ensures GroupsEnd([], n) == 0
  {
    if n > 0 {
      NoGroups(n - 1);
    }
  }

  // ---------------------------------------------------------------------------
  // When dropping groups drops the right messages
  // ---------------------------------------------------------------------------

  function ShownCount(lines: seq<ChatLine>, cols: nat): nat {
    if lines == [] then 0 else (if Shown(lines[0], cols) then 1 else 0) + ShownCount(lines[1..], cols)
  }

  function Firsts(formatted: seq<Line>): nat {
    if formatted == [] then 0 else (if formatted[0].first then 1 else 0) + Firsts(formatted[1..])
  }

  lemma {:induction false} FirstsJoin(a: seq<Line>, b: seq<Line>)
    ensures Firsts(a + b) == Firsts(a) + Firsts(b)
  {
    if a == [] {
      assert a + b == b;
    } else {
      assert (a + b)[1..] == a[1..] + b;
      FirstsJoin(a[1..], b);
    }
  }

  lemma {:induction false} NoFirsts(f: seq<Line>)
    requires forall i :: 0 <= i < |f| ==> !f[i].first
    ensures Firsts(f) == 0
  {
    if f != [] {
      NoFirsts(f[1..]);
    }
  }

  lemma {:induction false} FirstsAreShown(lines: seq<ChatLine>, cols: nat, isSpace: char -> bool)
    ensures Firsts(FormatAll(lines, cols, isSpace)) == ShownCount(lines, cols)
  {
    if lines != [] {
      var f := Format(lines[0], cols, isSpace);
      MessageShape(lines[0], cols, isSpace);
      if f != [] {
        NoFirsts(f[1..]);
      }
      FirstsJoin(f, FormatAll(lines[1..], cols, isSpace));
      FirstsAreShown(lines[1..], cols, isSpace);
    }
  }

  lemma {:induction false} ShownCountIs(lines: seq<ChatLine>, cols: nat)
    ensures ShownCount(lines, cols) <= |lines|
    ensures ShownCount(lines, cols) == |lines| <==> AllShown(lines, cols)
    ensures ShownCount(lines, cols) == 0 <==> NoneShown(lines, cols)
  {
    if lines != [] {
      ShownCountIs(lines[1..], cols);
      assert lines == [lines[0]] + lines[1..];
    }
  }

  lemma {:induction false} ShownCountSplit(lines: seq<ChatLine>, n: nat, cols: nat)
    requires n <= |lines|
    ensures ShownCount(lines, cols) == ShownCount(lines[..n], cols) + ShownCount(lines[n..], cols)
  {
    if n == 0 {
      assert lines[0..] == lines;
    } else {
      ShownCountSplit(lines[1..], n - 1, cols);
      assert lines[..n][1..] == lines[1..][..n - 1] && lines[n..] == lines[1..][n - 1..];
    }
  }

  lemma {:induction false} AfterShownCount(lines: seq<ChatLine>, n: nat, cols: nat)
    ensures ShownCount(AfterShown(lines, n, cols), cols) ==
            if n <= ShownCount(lines, cols) then ShownCount(lines, cols) - n else 0
    decreases |lines|
  {
    if n > 0 && lines != [] {
      AfterShownCount(lines[1..], if Shown(lines[0], cols) then n - 1 else n, cols);
    }
  }

  lemma {:induction false} AfterAllShown(lines: seq<ChatLine>, n: nat, cols: nat)
    requires n <= |lines| && AllShown(lines[..n], cols)
    ensures AfterShown(lines, n, cols) == lines[n..]
  {
    if n > 0 {
      assert lines[..n][0] == lines[0] && lines[..n][1..] == lines[1..][..n - 1];
      AfterAllShown(lines[1..], n - 1, cols);
    }
  }

  lemma NothingFormatted(lines: seq<ChatLine>, cols: nat, isSpace: char -> bool)
    requires NoneShown(lines, cols)
    ensures FormatAll(lines, cols, isSpace) == []
  {
    if lines != [] {
      MessageShape(lines[0], cols, isSpace);
      NothingFormatted(lines[1..], cols, isSpace);
    }
  }

  /**
    Dropping `n` groups leaves the lines of the messages behind the first `n`
    exactly if those were all shown, or nothing of the others is.
   */
  lemma DroppingKeepsInSync(lines: seq<ChatLine>, n: nat, cols: nat, isSpace: char -> bool)
    requires n <= |lines|
    ensures StartsGroup(FormatAll(lines, cols, isSpace))
    ensures var all := FormatAll(lines, cols, isSpace);
            all[GroupsEnd(all, n)..] == FormatAll(lines[n..], cols, isSpace) <==>
            AllShown(lines[..n], cols) || NoneShown(lines[n..], cols)
  {
    var after := AfterShown(lines, n, cols);
    GroupsAreMessages(lines, n, cols, isSpace, FormatAll(lines, cols, isSpace));
    FirstsAreShown(after, cols, isSpace);
    FirstsAreShown(lines[n..], cols, isSpace);
    AfterShownCount(lines, n, cols);
    ShownCountSplit(lines, n, cols);
    ShownCountIs(lines[..n], cols);
    ShownCountIs(lines[n..], cols);
    if AllShown(lines[..n], cols) {
      AfterAllShown(lines, n, cols);
    } else if NoneShown(lines[n..], cols) {
      ShownCountIs(after, cols);
      NothingFormatted(after, cols, isSpace);
      NothingFormatted(lines[n..], cols, isSpace);
    }
  }

  function Top(count: nat, rows: nat): int {
    if rows == 0 then 0 else if count <= rows then count - rows else 0
  }

  function Bottom(count: nat, rows: nat): int {
    if rows == 0 then 0 else count - rows
  }

  function Clamp(scroll: int, top: int, bottom: int): int {
    var s := if scroll < top then top else scroll;
    if s > bottom then bottom else s
  }

  /**
    At the bottom the last line is in the last row. At the top the first line is
    in the first row, unless all lines fit; then there is nowhere to scroll.
   */
  lemma EndsOfView(count: nat, rows: nat)
    requires rows > 0
    ensures Bottom(count, rows) + (rows - 1) == count - 1
    ensures if count > rows then Top(count, rows) == 0 else Top(count, rows) == Bottom(count, rows)
    ensures Top(count, rows) <= Bottom(count, rows)
  {
  }

  /** Clamping moves a position no further than it must. */
  lemma ClampIsNearest(scroll: int, top: int, bottom: int, other: int)
    requires top <= other <= bottom
    ensures top <= Clamp(scroll, top, bottom) <= bottom
    ensures top <= scroll <= bottom ==> Clamp(scroll, top, bottom) == scroll
    ensures scroll <= other ==> scroll <= Clamp(scroll, top, bottom) <= other
    ensures other <= scroll ==> other <= Clamp(scroll, top, bottom) <= scroll
  {
  }

  /** How many of the oldest lines are older than `maxAge`, up to the first that is not. */
  function TooOld(lines: seq<ChatLine>, maxAge: real): (n: nat)
    ensures n <= |lines| && (n < |lines| ==> lines[n].age <= maxAge)
    ensures forall i :: 0 <= i < n ==> lines[i].age > maxAge
  {
    if lines == [] || lines[0].age <= maxAge then 0 else 1 + TooOld(lines[1..], maxAge)
  }

  /** The number of messages that begin before line `n`. */
  function FirstsBefore(formatted: seq<Line>, n: nat): nat
    requires n <= |formatted|
  {
    if n == 0 then 0 else FirstsBefore(formatted, n - 1) + if formatted[n - 1].first then 1 else 0
  }

  class ChatBuffer {
    const isSpace: char -> bool
    var scrollback: nat
    var unformatted: seq<ChatLine>
    var formatted: seq<Line>
    var cols: nat
    var rows: nat
    var scroll: int
    var linesModified: bool

    /** The formatted lines are whole groups, and there are none without a window. */
    ghost predicate Valid()
      reads this
    {
      && (rows == 0 <==> cols == 0) && (rows == 0 ==> formatted == [])
      && StartsGroup(formatted) && scroll <= |formatted|
    }

    /** The formatted lines are exactly the messages formatted one after the other. */
    ghost predicate InSync()
      reads this
    {
      formatted == if rows > 0 then FormatAll(unformatted, cols, isSpace) else []
    }

    ghost predicate AtBottom()
      reads this
    {
      scroll == Bottom(|formatted|, rows)
    }

    ghost predicate InRange()
      reads this
    {
      Top(|formatted|, rows) <= scroll <= Bottom(|formatted|, rows)
    }

    constructor (scrollback: nat, isSpace: char -> bool)
      ensures Valid() && unformatted == [] && rows == 0 && InRange() && this.scrollback == if scrollback == 0 then 1
              else scrollback
    {
      this.isSpace := isSpace;
      this.scrollback := if scrollback == 0 then 1 else scrollback;
      unformatted, formatted, cols, rows, scroll, linesModified := [], [], 0, 0, 0, true;
    }

    method ScrollAbsolute(scroll: int)
      requires Valid()
      modifies `scroll
      ensures Valid() && InRange() && this.scroll == Clamp(scroll, Top(|formatted|, rows), Bottom(|formatted|, rows))
    {
      var top := Top(|formatted|, rows);
      var bottom := Bottom(|formatted|, rows);
      this.scroll := scroll;
      if this.scroll < top {
        this.scroll := top;
      }
      if this.scroll > bottom {
        this.scroll := bottom;
      }
    }

    /** Counts the groups of lines that go with the oldest `count` messages; every group starts at a first line. */
    method CountOldest(count: nat) returns (delUnformatted: nat, delFormatted: nat)
      requires Valid()
      ensures delUnformatted == if count < |unformatted| then count else |unformatted|
      ensures delFormatted == GroupsEnd(formatted, delUnformatted)
    {
      delUnformatted, delFormatted := 0, 0;
      var left := count;
      while left > 0 && delUnformatted < |unformatted|
        invariant delUnformatted <= |unformatted| && delUnformatted + left == count
        invariant delFormatted == GroupsEnd(formatted, delUnformatted)
      {
        delUnformatted := delUnformatted + 1;
        if delFormatted < |formatted| {
          assert formatted[delFormatted].first;
          delFormatted := SkipGroup(delFormatted);
        }
        left := left - 1;
      }
    }

    method SkipGroup(delFormatted: nat) returns (next: nat)
      requires delFormatted < |formatted|
      ensures next == NextFirst(formatted, delFormatted + 1)
    {
      next := delFormatted + 1;
      while next < |formatted| && !formatted[next].first
        invariant next <= |formatted| && NextFirst(formatted, next) == NextFirst(formatted, delFormatted + 1)
      {
        next := next + 1;
      }
    }

    /** Takes the oldest messages and as many groups of lines off the buffer. */
    method DropOldest(delUnformatted: nat, delFormatted: nat)
      requires Valid() && delUnformatted <= |unformatted| && delFormatted == GroupsEnd(formatted, delUnformatted)
      modifies `unformatted, `formatted
      ensures unformatted == old(unformatted)[delUnformatted..] && formatted == old(formatted)[delFormatted..]
      ensures StartsGroup(formatted)
      ensures old(InSync()) ==>
                (InSync() <==>
                   rows == 0 || AllShown(old(unformatted)[..delUnformatted], cols) || NoneShown(unformatted, cols))
    {
      if InSync() && rows > 0 {
        DroppingKeepsInSync(unformatted, delUnformatted, cols, isSpace);
      }
      unformatted := unformatted[delUnformatted..];
      formatted := formatted[delFormatted..];
    }

    /**
      Drops the oldest messages and as many groups of lines; the lines stay in
      step with the messages exactly if no dropped message was hidden, or all
      that remain are.
     */
    method DeleteOldest(count: nat)
      requires Valid()
      modifies `unformatted, `formatted, `scroll, `linesModified
      ensures Valid() && InRange()
      ensures var n := if count < |old(unformatted)| then count else |old(unformatted)|;
              && unformatted == old(unformatted)[n..]
              && formatted == old(formatted)[GroupsEnd(old(formatted), n)..]
              && (old(InSync()) ==>
                    (InSync() <==> rows == 0 || AllShown(old(unformatted)[..n], cols) || NoneShown(unformatted, cols)))
              && linesModified == (old(linesModified) || n > 0)
              && (old(AtBottom()) ==> AtBottom())
              && (!old(AtBottom()) ==> scroll == Clamp(old(scroll) - (|old(formatted)| - |formatted|),
                                                       Top(|formatted|, rows), Bottom(|formatted|, rows)))
    {
      var atBottom := scroll == Bottom(|formatted|, rows);
      var delUnformatted, delFormatted := CountOldest(count);
      DropOldest(delUnformatted, delFormatted);
      if delUnformatted > 0 {
        linesModified := true;
      }
      if atBottom {
        scroll := Bottom(|formatted|, rows);
      } else {
        var wanted := scroll - delFormatted;
        scroll := 0;
        ScrollAbsolute(wanted);
      }
    }

    method Append(line: ChatLine)
      requires Valid()
      modifies `unformatted, `formatted, `scroll
      ensures Valid() && unformatted == old(unformatted) + [line]
      ensures formatted == old(formatted) + if rows > 0 then Format(line, cols, isSpace) else []
      ensures old(InSync()) ==> InSync()
      ensures old(AtBottom()) ==> AtBottom()
      ensures old(InRange()) ==> InRange()
    {
      unformatted := unformatted + [line];
      if rows > 0 {
        FormatAppended(old(unformatted), line, cols, isSpace);
        MessageShape(line, cols, isSpace);
        var scrolledAtBottom := scroll == Bottom(|formatted|, rows);
        var numAdded;
        formatted, numAdded := FormatChatLine(line, cols, formatted, isSpace);
        if scrolledAtBottom {
          scroll := scroll + numAdded;
        }
      }
    }

    /** A new line appears below; the oldest lines give way, and a view at the bottom stays there. */
    method AddLine(line: ChatLine)
      requires Valid()
      modifies `unformatted, `formatted, `scroll, `linesModified
      ensures Valid() && linesModified
      ensures var all := old(unformatted) + [line];
              var n := if |all| > scrollback then |all| - scrollback else 0;
              && unformatted == all[n..]
              && (old(InSync()) ==>
                    (InSync() <==> rows == 0 || AllShown(all[..n], cols) || NoneShown(unformatted, cols)))
      ensures old(AtBottom()) ==> AtBottom()
      ensures old(InRange()) ==> InRange()
    {
      linesModified := true;
      Append(line);
      if |unformatted| > scrollback {
        DeleteOldest(|unformatted| - scrollback);
      }
    }

    method Scroll(rows: int)
      requires Valid()
      modifies `scroll
      ensures Valid() && InRange() &&
              scroll == Clamp(old(scroll) + rows, Top(|formatted|, this.rows), Bottom(|formatted|, this.rows))
    {
      ScrollAbsolute(scroll + rows);
    }

    method ScrollBottom()
      requires Valid()
      modifies `scroll
      ensures Valid() && AtBottom()
    {
      scroll := Bottom(|formatted|, rows);
    }

    /** The number of messages that begin above the view. */
    method FirstsAbove() returns (k: nat)
      requires Valid()
      ensures k == if scroll > 0 then FirstsBefore(formatted, scroll) else 0
    {
      k := 0;
      var i := 0;
      while i < scroll
        invariant 0 <= i && (i <= scroll || i == 0) && i <= |formatted| && k == FirstsBefore(formatted, i)
      {
        if formatted[i].first {
          k := k + 1;
        }
        i := i + 1;
      }
    }

    /** Formats everything anew; `offset` is where message `k` begins, if there is one. */
    method FormatEverything(cols: nat, k: nat) returns (lines: seq<Line>, offset: nat)
      ensures lines == FormatAll(unformatted, cols, isSpace)
      ensures offset == if k < |unformatted| then Offset(unformatted, k, cols, isSpace) else 0
    {
      lines, offset := [], 0;
      for i := 0 to |unformatted|
        invariant lines == FormatAll(unformatted[..i], cols, isSpace)
        invariant offset == if k < i then Offset(unformatted, k, cols, isSpace) else 0
      {
        if i == k {
          offset := |lines|;
        }
        assert unformatted[..i + 1] == unformatted[..i] + [unformatted[i]];
        FormatAppended(unformatted[..i], unformatted[i], cols, isSpace);
        var added;
        lines, added := FormatChatLine(unformatted[i], cols, lines, isSpace);
      }
      assert unformatted[..|unformatted|] == unformatted;
    }

    /**
      A new window size. A view at the bottom stays there. Otherwise the view
      goes to the message that begins next, if the columns changed and there is
      one, and else to the top.
     */
    method Reformat(cols: nat, rows: nat)
      requires Valid()
      modifies `formatted, `cols, `rows, `scroll
      ensures Valid() && (old(InSync()) || cols != old(this.cols) ==> InSync())
      ensures cols == 0 || rows == 0 ==> this.rows == 0 && scroll == 0
      ensures cols > 0 && rows > 0 ==> this.cols == cols && this.rows == rows
      ensures cols > 0 && rows > 0 && (cols, rows) == old((this.cols, this.rows)) ==> scroll == old(scroll)
      ensures cols > 0 && rows > 0 && (cols, rows) != old((this.cols, this.rows)) ==>
                if old(AtBottom()) then AtBottom()
                else
                  var k := if old(scroll) > 0 then FirstsBefore(old(formatted), old(scroll)) else 0;
                  var restore := if cols != old(this.cols) && k < |unformatted|
                      then Offset(unformatted, k, cols, isSpace) else 0;
                  scroll == Clamp(restore, Top(|formatted|, rows), Bottom(|formatted|, rows))
      ensures cols == old(this.cols) && cols > 0 && rows > 0 && rows != old(this.rows) && !old(AtBottom()) ==>
                (scroll == old(scroll) <==> old(scroll) == Clamp(0, Top(|formatted|, rows), Bottom(|formatted|, rows)))
    {
      if cols == 0 || rows == 0 {
        this.cols, this.rows, scroll, formatted := 0, 0, 0, [];
      } else if cols != this.cols || rows != this.rows {
        var restoreScrollUnformatted, restoreScrollFormatted := 0, 0;
        var atBottom := scroll == Bottom(|formatted|, this.rows);
        if !atBottom {
          restoreScrollUnformatted := FirstsAbove();
        }
        if cols != this.cols {
          formatted, restoreScrollFormatted := FormatEverything(cols, restoreScrollUnformatted);
        }
        AllStartsGroup(unformatted, cols, isSpace);
        this.cols, this.rows, scroll := cols, rows, 0;
        if atBottom {
          ScrollBottom();
        } else {
          ScrollAbsolute(restoreScrollFormatted);
        }
      }
    }

    /** The view does not return to the bottom: a window with rows then shows new lines from its top. */
    method Clear()
      modifies `unformatted, `formatted, `scroll, `linesModified
      requires Valid()
      ensures Valid() && InSync() && unformatted == [] && linesModified
      ensures InRange() <==> rows == 0
    {
      unformatted, formatted, scroll, linesModified := [], [], 0, true;
    }

    method DeleteByAge(maxAge: real)
      requires Valid()
      modifies `unformatted, `formatted, `scroll, `linesModified
      ensures Valid() && InRange() && (old(AtBottom()) ==> AtBottom())
      ensures unformatted == old(unformatted)[TooOld(old(unformatted), maxAge)..]
    {
      var count := 0;
      while count < |unformatted| && unformatted[count].age > maxAge
        invariant count <= |unformatted|
        invariant forall i :: 0 <= i < count ==> unformatted[i].age > maxAge
      {
        count := count + 1;
      }
      TooOldIs(unformatted, count, maxAge);
      DeleteOldest(count);
    }

    method Resize(scrollback: nat)
      requires Valid()
      modifies `scrollback, `unformatted, `formatted, `scroll, `linesModified
      ensures Valid() && this.scrollback == scrollback && (old(AtBottom()) ==> AtBottom())
      ensures unformatted == if |old(unformatted)| > scrollback
              then old(unformatted)[|old(unformatted)| - scrollback..] else old(unformatted)
    {
      this.scrollback := scrollback;
      if |unformatted| > scrollback {
        DeleteOldest(|unformatted| - scrollback);
      }
    }

    /** Row 0 is the top of the window. */
    method GetFormattedLine(row: nat) returns (line: Line)
      requires Valid()
      ensures line == if 0 <= scroll + row < |formatted| then formatted[scroll + row] else Line([], true)
    {
      var index := scroll + row;
      if index >= 0 && index < |formatted| {
        return formatted[index];
      }
      return Line([], true);
    }
  }

  lemma {:induction false} TooOldIs(lines: seq<ChatLine>, n: nat, maxAge: real)
    requires n <= |lines| && forall i :: 0 <= i < n ==> lines[i].age > maxAge
    requires n < |lines| ==> lines[n].age <= maxAge
    ensures TooOld(lines, maxAge) == n
  {
    if n > 0 {
      TooOldIs(lines[1..], n - 1, maxAge);
    }
  }
}
