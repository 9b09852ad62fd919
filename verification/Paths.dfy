/** Path strings on a POSIX system, against lists of components. */
module Paths {
  import opened Options

  predicate IsDirDelimiter(c: char) {
    c == '/'
  }

  /** Where the last run of non-delimiters starts. */
  function LastStart(path: string): (k: nat)
    ensures k <= |path|
    ensures k > 0 ==> IsDirDelimiter(path[k - 1])
    ensures forall i :: k <= i < |path| ==> !IsDirDelimiter(path[i])
  {
    if path == [] || IsDirDelimiter(path[|path| - 1]) then |path| else LastStart(path[..|path| - 1])
  }

  /** The path without its trailing delimiters. */
  function TrimEnd(path: string): (r: string)
    ensures r <= path
    ensures r != [] ==> !IsDirDelimiter(r[|r| - 1])
    ensures forall i :: |r| <= i < |path| ==> IsDirDelimiter(path[i])
  {
    if path == [] || !IsDirDelimiter(path[|path| - 1]) then path else TrimEnd(path[..|path| - 1])
  }

  /** The non-empty names between delimiters. */
  function Components(path: string): seq<string>
    decreases |path|
  {
    if path == [] then []
    else if IsDirDelimiter(path[|path| - 1]) then Components(path[..|path| - 1])
    else Components(path[..LastStart(path)]) + [path[LastStart(path)..]]
  }

  predicate StartsAtDelimiter(path: string) {
    path == [] || IsDirDelimiter(path[0])
  }

  predicate EndsAtDelimiter(path: string) {
    path == [] || IsDirDelimiter(path[|path| - 1])
  }

  predicate IsName(s: string) {
    s != [] && forall c :: c in s ==> !IsDirDelimiter(c)
  }

  predicate AllDelimiters(s: string) {
    forall c :: c in s ==> IsDirDelimiter(c)
  }

  lemma {:induction false} LastStartIs(path: string, k: nat)
    requires k <= |path| && (k > 0 ==> IsDirDelimiter(path[k - 1]))
    requires forall i :: k <= i < |path| ==> !IsDirDelimiter(path[i])
    ensures LastStart(path) == k
  {
  }

  /** A path that does not end in delimiters ends in a name, unless it is empty. */
  lemma NameAt(t: string, start: nat)
    requires start == LastStart(t) && (t != [] ==> !IsDirDelimiter(t[|t| - 1]))
    ensures EndsAtDelimiter(t[..start]) && (IsName(t[start..]) || (t[start..] == [] && t[..start] == []))
  {
    NoneFrom(t, start);
    assert start > 0 ==> t[..start][start - 1] == t[start - 1];
  }

  lemma NoneFrom(t: string, start: nat)
    requires start <= |t| && forall i :: start <= i < |t| ==> !IsDirDelimiter(t[i])
    ensures forall c :: c in t[start..] ==> !IsDirDelimiter(c)
  {
  }

  lemma SplitName(b: string) returns (head: string, name: string)
    requires b != [] && !IsDirDelimiter(b[|b| - 1])
    ensures b == head + name && IsName(name) && EndsAtDelimiter(head)
  {
    var k := LastStart(b);
    NameAt(b, k);
    head, name := b[..k], b[k..];
  }

  lemma LastDelimiter(path: string, before: string, d: char)
    requires path == before + [d] && IsDirDelimiter(d)
    ensures Components(path) == Components(before)
  {
    assert path[..|path| - 1] == before;
  }

  lemma JoinAt(a: string, head: string, tail: string)
    requires (EndsAtDelimiter(a) || StartsAtDelimiter(head + tail)) && tail != []
    ensures a + (head + tail) == a + head + tail
    ensures EndsAtDelimiter(a) || StartsAtDelimiter(head)
    ensures EndsAtDelimiter(head) && !IsDirDelimiter(tail[0]) ==> EndsAtDelimiter(a + head)
  {
    if head == [] {
      assert head + tail == tail && a + head == a;
    } else {
      assert (head + tail)[0] == head[0];
    }
  }

  /** What the end of `b` adds to its components it also adds to those of a path that `b` is joined to. */
  lemma JoinStep(a: string, b: string) returns (head: string, last: seq<string>)
    requires b != [] && (EndsAtDelimiter(a) || StartsAtDelimiter(b))
    ensures |head| < |b| && (EndsAtDelimiter(a) || StartsAtDelimiter(head))
    ensures Components(b) == Components(head) + last
    ensures Components(a + b) == Components(a + head) + last
  {
    if IsDirDelimiter(b[|b| - 1]) {
      var d := b[|b| - 1];
      head, last := b[..|b| - 1], [];
      JoinAt(a, head, [d]);
      LastDelimiter(b, head, d);
      LastDelimiter(a + b, a + head, d);
    } else {
      var name;
      head, name := SplitName(b);
      last := [name];
      JoinAt(a, head, name);
      LastComponent(b, head, name);
      LastComponent(a + b, a + head, name);
    }
  }

  lemma Regroup(a: seq<string>, b: seq<string>, c: seq<string>)
    ensures a + b + c == a + (b + c)
  {
  }

  /** Paths joined at a delimiter have the components of both. */
  lemma {:induction false} ComponentsJoin(a: string, b: string)
    requires EndsAtDelimiter(a) || StartsAtDelimiter(b)
    ensures Components(a + b) == Components(a) + Components(b)
    decreases |b|
  {
    if b == [] {
      assert a + b == a;
    } else {
      var head, last := JoinStep(a, b);
      ComponentsJoin(a, head);
      Regroup(Components(a), Components(head), last);
    }
  }

  lemma LastComponent(path: string, before: string, name: string)
    requires path == before + name && IsName(name) && EndsAtDelimiter(before)
    ensures Components(path) == Components(before) + [name]
  {
    LastStartIs(path, |before|);
    assert path[..|before|] == before && path[|before|..] == name;
  }

  lemma {:induction false} DelimitersHaveNone(s: string)
    requires AllDelimiters(s)
    ensures Components(s) == []
    decreases |s|
  {
    if s != [] {
      DelimitersHaveNone(s[..|s| - 1]);
    }
  }

  lemma NameIsComponent(s: string)
    requires IsName(s)
    ensures Components(s) == [s]
  {
    LastStartIs(s, 0);
    assert s[..0] == [] && s[0..] == s;
  }

  lemma NameThenRest(name: string, rest: string)
    requires IsName(name) && StartsAtDelimiter(rest)
    ensures Components(name + rest) == [name] + Components(rest)
  {
    ComponentsJoin(name, rest);
    NameIsComponent(name);
  }

  lemma DelimitersThenRest(d: string, rest: string)
    requires AllDelimiters(d)
    ensures Components(d + rest) == Components(rest)
  {
    ComponentsJoin(d, rest);
    DelimitersHaveNone(d);
  }

  lemma RestThenDelimiters(rest: string, d: string)
    requires AllDelimiters(d)
    ensures Components(rest + d) == Components(rest)
  {
    ComponentsJoin(rest, d);
    DelimitersHaveNone(d);
  }

  /** An absolute path of the given names. */
  function Joined(names: seq<string>): string {
    if names == [] then "" else Joined(names[..|names| - 1]) + "/" + names[|names| - 1]
  }

  /** Names that are written with slashes are found again. */
  lemma {:induction false} JoinedComponents(names: seq<string>)
    requires forall i :: 0 <= i < |names| ==> names[i] != "" && '/' !in names[i]
    ensures Components(Joined(names)) == names
  {
    if names != [] {
      var n := |names| - 1;
      var rest, last := Joined(names[..n]), names[n];
      JoinedComponents(names[..n]);
      LastDelimiter(rest + "/", rest, '/');
      LastComponent(rest + "/" + last, rest + "/", last);
      assert names == names[..n] + [last];
    }
  }

  // ---------------------------------------------------------------------------
  // "." and ".."
  // ---------------------------------------------------------------------------

  predicate IsDot(c: string) {
    c == "."
  }

  predicate IsDotDot(c: string) {
    c == ".."
  }

  /** From left to right: names are pushed, ".." pops and fails on an empty stack. */
  function Stack(cs: seq<string>): Option<seq<string>> {
    if cs == [] then Some([])
    else
      var c := cs[|cs| - 1];
      match Stack(cs[..|cs| - 1])
      case None => None
      case Some(st) =>
        if IsDot(c) then Some(st)
        else if !IsDotDot(c) then Some(st + [c])
        else if st == [] then None
        else Some(st[..|st| - 1])
  }

  /** A dot says nothing, two dots take back a name, and there is nothing to take back at the top. */
  lemma DotsTakeBack(cs: seq<string>, name: string)
    requires name != "." && name != ".."
    ensures Stack(cs + ["."]) == Stack(cs)
    ensures Stack(cs).Some? ==> Stack(cs + [name]) == Some(Stack(cs).value + [name])
    ensures Stack(cs + [name] + [".."]) == Stack(cs)
    ensures Stack(cs) == Some([]) || Stack(cs).None? ==> Stack(cs + [".."]).None?
  {
    StackPush(cs, ".");
    StackPush(cs, name);
    StackPush(cs, "..");
    StackPush(cs + [name], "..");
    if Stack(cs).Some? {
      var st := Stack(cs).value;
      assert (st + [name])[..|st|] == st;
    }
  }

  lemma StackPush(cs: seq<string>, c: string)
    ensures Stack(cs + [c]) ==
            match Stack(cs)
            case None => None
            case Some(st) =>
              if IsDot(c) then Some(st)
              else if !IsDotDot(c) then Some(st + [c])
              else if st == [] then None
              else Some(st[..|st| - 1])
  {
    assert (cs + [c])[..|cs|] == cs;
  }

  /** From right to left: `count` names are still to be dropped, `kept` are those behind. */
  function FromRight(cs: seq<string>, count: nat, kept: seq<string>): Option<seq<string>> {
    if cs == [] then if count == 0 then Some(kept) else None
    else
      var c := cs[|cs| - 1];
      var rest := cs[..|cs| - 1];
      if IsDot(c) then FromRight(rest, count, kept)
      else if IsDotDot(c) then FromRight(rest, count + 1, kept)
      else if count != 0 then FromRight(rest, count - 1, kept)
      else FromRight(rest, 0, [c] + kept)
  }

  /** Counting from the right is evaluating a stack from the left. */
  lemma {:induction false} FromRightIsStack(cs: seq<string>, count: nat, kept: seq<string>)
    ensures FromRight(cs, count, kept) ==
            match Stack(cs)
            case None => None
            case Some(st) => if |st| < count then None else Some(st[..|st| - count] + kept)
    decreases |cs|
  {
    if cs == [] {
      assert [][..0] + kept == kept;
    } else {
      var c := cs[|cs| - 1];
      var rest := cs[..|cs| - 1];
      if IsDot(c) {
        FromRightIsStack(rest, count, kept);
      } else if IsDotDot(c) {
        FromRightIsStack(rest, count + 1, kept);
        if Stack(rest).Some? && Stack(rest).value != [] {
          var st := Stack(rest).value;
          assert |st| > count ==> st[..|st| - 1][..|st| - 1 - count] == st[..|st| - (count + 1)];
        }
      } else if count != 0 {
        FromRightIsStack(rest, count - 1, kept);
        if Stack(rest).Some? {
          var st := Stack(rest).value;
          assert |st| >= count - 1 ==> (st + [c])[..|st| + 1 - count] == st[..|st| - (count - 1)];
        }
      } else {
        FromRightIsStack(rest, 0, [c] + kept);
        if Stack(rest).Some? {
          var st := Stack(rest).value;
          assert (st + [c])[..|st| + 1] + kept == st[..|st|] + ([c] + kept);
        }
      }
    }
  }

  predicate Rooted(path: string) {
    path != [] && IsDirDelimiter(path[0])
  }

  /** The processed end `right` of the path, the unread start `left`, and what is left to evaluate. */
  ghost predicate Scanning(path: string, left: string, right: string, count: nat) {
    && FromRight(Components(left), count, Components(right)) == Stack(Components(path))
    && (right != [] ==> EndsAtDelimiter(left))
    && (left != [] && right != [] ==> !IsDirDelimiter(right[0]))
    && (left + right != [] ==> Rooted(left + right) == Rooted(path))
    && (count != 0 && left != [] ==> Components(left) != [])
  }

  /** The last name of `left`, what is before it and the delimiters behind it. */
  ghost predicate SplitsInto(left: string, a: string, c: string, d: string) {
    && left == a + c + d && left != []
    && EndsAtDelimiter(a) && AllDelimiters(d)
    && (IsName(c) || (c == [] && a == []))
  }

  lemma SplitComponents(left: string, a: string, c: string, d: string)
    requires SplitsInto(left, a, c, d)
    ensures c == [] ==> Components(left) == []
    ensures c != [] ==> Components(left) == Components(a) + [c]
    ensures |a| < |left|
  {
    RestThenDelimiters(a + c, d);
    if c != [] {
      LastComponent(a + c, a, c);
    } else {
      assert a + c == [];
    }
  }

  lemma KeepOne(left: string, right: string, a: string, c: string, d: string)
    requires SplitsInto(left, a, c, d) && (right != [] ==> EndsAtDelimiter(left))
    requires !IsDot(c) && !IsDotDot(c)
    ensures FromRight(Components(left), 0, Components(right)) == FromRight(Components(a), 0, Components(c + d + right))
  {
    SplitComponents(left, a, c, d);
    DelimitersThenRest(d, right);
    assert c + d + right == c + (d + right);
    if c == [] {
      assert c + d + right == d + right;
    } else {
      assert d == [] ==> right == [];
      NameThenRest(c, d + right);
      var cs := Components(left);
      assert cs[..|cs| - 1] == Components(a) && cs[|cs| - 1] == c;
    }
  }

  /** A step from one pair of halves to another that evaluates to the same. */
  lemma MoveOn(path: string, left: string, right: string, count: nat, left': string, right': string, count': nat)
    requires Scanning(path, left, right, count) && left + right != []
    requires FromRight(Components(left'), count', Components(right')) == FromRight(Components(left), count,
        Components(right))
    requires right' != [] ==> EndsAtDelimiter(left')
    requires left' != [] && right' != [] ==> !IsDirDelimiter(right'[0])
    requires left' + right' != [] ==> Rooted(left' + right') == Rooted(left + right)
    requires count' != 0 && left' != [] ==> Components(left') != []
    ensures Scanning(path, left', right', count')
  {
  }

  lemma KeepName(path: string, left: string, right: string, a: string, c: string, d: string)
    requires Scanning(path, left, right, 0) && SplitsInto(left, a, c, d)
    requires !IsDot(c) && !IsDotDot(c)
    ensures Scanning(path, a, c + d + right, 0)
  {
    var right' := c + d + right;
    KeepOne(left, right, a, c, d);
    assert a + right' == left + right;
    assert c != [] ==> c[0] in c && right'[0] == c[0];
    MoveOn(path, left, right, 0, a, right', 0);
  }

  /** How many names are still to be dropped after dropping `c`. */
  function CountAfter(c: string, count: nat): nat
    requires IsDot(c) || IsDotDot(c) || count != 0
  {
    if IsDot(c) then count else if IsDotDot(c) then count + 1 else count - 1
  }

  /** Dropping `c` leads on if the new halves have the components of the old ones around it. */
  lemma DropTo(path: string, left: string, right: string, count: nat, a: string, c: string, d: string, left': string,
               right': string)
    requires Scanning(path, left, right, count) && SplitsInto(left, a, c, d)
    requires IsDot(c) || IsDotDot(c) || count != 0
    requires Components(left') == Components(a) && Components(right') == Components(right)
    requires right' != [] ==> EndsAtDelimiter(left')
    requires left' != [] ==> Components(left') != [] && (right' != [] ==> !IsDirDelimiter(right'[0]))
    requires left' + right' != [] ==> Rooted(left' + right') == Rooted(left + right)
    ensures c != [] && Scanning(path, left', right', CountAfter(c, count))
  {
    DropOne(left, right, count, a, c, d);
    MoveOn(path, left, right, count, left', right', CountAfter(c, count));
  }

  lemma RootedIs(first: string, rest: string)
    requires first != []
    ensures Rooted(first + rest) == Rooted(first)
  {
  }

  lemma DropFirst(path: string, left: string, right: string, count: nat, c: string, d: string)
    requires Scanning(path, left, right, count) && SplitsInto(left, [], c, d)
    requires IsDot(c) || IsDotDot(c) || count != 0
    ensures c != [] && Scanning(path, [], right, CountAfter(c, count))
  {
    DropOne(left, right, count, [], c, d);
    assert [] + right == right;
    assert left[0] == c[0];
    RootedIs(left, right);
    DropTo(path, left, right, count, [], c, d, [], right);
  }

  lemma DropRooted(path: string, left: string, right: string, count: nat, a: string, c: string, d: string,
                   slash: string)
    requires Scanning(path, left, right, count) && SplitsInto(left, a, c, d)
    requires IsDot(c) || IsDotDot(c) || count != 0
    requires a != [] && TrimEnd(a) == [] && |slash| == 1 && AllDelimiters(slash)
    ensures c != [] && Scanning(path, [], slash + right, CountAfter(c, count))
  {
    TrimEndComponents(a);
    DelimitersThenRest(slash, right);
    assert [] + (slash + right) == slash + right;
    assert slash[0] in slash && left[0] == a[0];
    RootedIs(left, right);
    RootedIs(slash, right);
    DropTo(path, left, right, count, a, c, d, [], slash + right);
  }

  lemma DropInner(path: string, left: string, right: string, count: nat, a: string, c: string, d: string,
                  before: string, slash: string)
    requires Scanning(path, left, right, count) && SplitsInto(left, a, c, d)
    requires IsDot(c) || IsDotDot(c) || count != 0
    requires before == TrimEnd(a) && before != [] && |slash| == 1 && AllDelimiters(slash)
    ensures c != [] && |before| < |a| && Scanning(path, before + slash, right, CountAfter(c, count))
  {
    TrimEndComponents(a);
    RestThenDelimiters(before, slash);
    assert slash[0] in slash && before[0] == a[0] == left[0];
    RootedIs(left, right);
    RootedIs(before + slash, right);
    RootedIs(before, slash);
    DropTo(path, left, right, count, a, c, d, before + slash, right);
  }

  lemma DropOne(left: string, right: string, count: nat, a: string, c: string, d: string)
    requires SplitsInto(left, a, c, d) && (count != 0 ==> Components(left) != [])
    requires IsDot(c) || IsDotDot(c) || count != 0
    ensures c != []
    ensures FromRight(Components(left), count, Components(right)) == FromRight(Components(a), CountAfter(c, count),
                                                                               Components(right))
  {
    SplitComponents(left, a, c, d);
    var cs := Components(left);
    assert cs[..|cs| - 1] == Components(a) && cs[|cs| - 1] == c;
  }

  lemma TrimEndComponents(path: string)
    ensures Components(TrimEnd(path)) == Components(path)
    ensures TrimEnd(path) != [] ==> Components(path) != []
  {
    var r := TrimEnd(path);
    assert path == r + path[|r|..];
    RestThenDelimiters(r, path[|r|..]);
  }

  predicate Plain(cs: seq<string>) {
    forall c :: c in cs ==> !IsDot(c) && !IsDotDot(c)
  }

  /** The last name of a non-empty `left` by its positions. */
  lemma SplitAt(left: string, end: nat, start: nat)
    requires left != [] && end == |TrimEnd(left)| && start == LastStart(left[..end])
    ensures start <= end && SplitsInto(left, left[..start], left[start..end], left[end..])
  {
    var t := left[..end];
    assert t == TrimEnd(left);
    Slices(left, start, end);
    NameAt(t, start);
    DelimitersAt(left, end);
  }

  lemma Slices(s: string, i: nat, j: nat)
    requires i <= j <= |s|
    ensures s == s[..i] + s[i..j] + s[j..] && s[..j][..i] == s[..i] && s[..j][i..] == s[i..j]
  {
  }

  lemma DelimitersAt(left: string, end: nat)
    requires end == |TrimEnd(left)|
    ensures AllDelimiters(left[end..])
  {
  }

  /** The positions of the last name before `pos`. */
  method FindLastName(path: string, pos: nat) returns (componentEnd: nat, componentStart: nat)
    requires 0 < pos <= |path|
    ensures componentStart <= componentEnd <= pos
    ensures SplitsInto(path[..pos], path[..componentStart], path[componentStart..componentEnd], path[componentEnd..pos])
  {
    var p: nat := SkipDelimitersBack(path, pos);
    componentEnd := p;
    while p != 0 && !IsDirDelimiter(path[p - 1])
      invariant p <= componentEnd <= pos
      invariant forall i :: p <= i < componentEnd ==> !IsDirDelimiter(path[i])
    {
      p := p - 1;
    }
    componentStart := p;
    var left := path[..pos];
    assert left[..componentEnd] == path[..componentEnd];
    LastStartIs(left[..componentEnd], p);
    SplitAt(left, componentEnd, componentStart);
    assert left[..p] == path[..p] && left[p..componentEnd] == path[p..componentEnd] &&
        left[componentEnd..] == path[componentEnd..pos];
  }

  method SkipDelimitersBack(path: string, pos: nat) returns (p: nat)
    requires pos <= |path|
    ensures p <= pos && path[..p] == TrimEnd(path[..pos])
  {
    p := pos;
    while p != 0 && IsDirDelimiter(path[p - 1])
      invariant p <= pos
      invariant forall i :: p <= i < pos ==> IsDirDelimiter(path[i])
    {
      p := p - 1;
    }
    TrimEndIs(path[..pos], p);
  }

  lemma {:induction false} TrimEndIs(path: string, p: nat)
    requires p <= |path| && (p > 0 ==> !IsDirDelimiter(path[p - 1]))
    requires forall i :: p <= i < |path| ==> IsDirDelimiter(path[i])
    ensures TrimEnd(path) == path[..p]
    decreases |path|
  {
    if p < |path| {
      TrimEndIs(path[..|path| - 1], p);
      assert path[..|path| - 1][..p] == path[..p];
    } else {
      assert path[..p] == path;
    }
  }

  /** What remains of the unread start when the name behind `a` is cut out. */
  function LeftOf(a: string): string {
    if TrimEnd(a) == [] then [] else TrimEnd(a) + ['/']
  }

  function RightOf(a: string, right: string): string {
    if a != [] && TrimEnd(a) == [] then ['/'] + right else right
  }

  lemma DropName(path: string, left: string, right: string, count: nat, a: string, c: string, d: string)
    requires Scanning(path, left, right, count) && SplitsInto(left, a, c, d)
    requires IsDot(c) || IsDotDot(c) || count != 0
    ensures Scanning(path, LeftOf(a), RightOf(a, right), CountAfter(c, count)) && |LeftOf(a)| < |left|
  {
    SplitComponents(left, a, c, d);
    if a == [] {
      DropFirst(path, left, right, count, c, d);
    } else if TrimEnd(a) == [] {
      DropRooted(path, left, right, count, a, c, d, ['/']);
    } else {
      DropInner(path, left, right, count, a, c, d, TrimEnd(a), ['/']);
    }
  }

  /** Cuts out the name at `start` with its delimiters; what was before `pos` is still unread. */
  method CutOut(path: string, start: nat, componentWithDelimEnd: nat) returns (path': string, pos: nat)
    requires start <= componentWithDelimEnd <= |path|
    ensures pos <= |path'|
    ensures path'[..pos] == LeftOf(path[..start])
    ensures path'[pos..] == RightOf(path[..start], path[componentWithDelimEnd..])
  {
    pos := SkipDelimitersBack(path, start);
    if start == 0 {
      path' := path[componentWithDelimEnd..];
    } else {
      path' := path[..pos] + ['/'] + path[componentWithDelimEnd..];
    }
    if pos > 0 {
      pos := pos + 1;
    }
  }

  /** Handles the last component before `pos`. */
  method HandleComponent(path: string, pos: nat, dotdotCount: nat, ghost path0: string)
    returns (path': string, pos': nat, dotdotCount': nat)
    requires 0 < pos <= |path| && Scanning(path0, path[..pos], path[pos..], dotdotCount)
    ensures pos' <= |path'| && pos' < pos && Scanning(path0, path'[..pos'], path'[pos'..], dotdotCount')
    ensures Plain(Components(path[..pos])) && dotdotCount == 0 ==>
              dotdotCount' == 0 && path' == path && Plain(Components(path[..pos']))
  {
    var componentEnd, componentStart := FindLastName(path, pos);
    var component := path[componentStart..componentEnd];
    ghost var a, d := path[..componentStart], path[componentEnd..pos];
    SplitPlain(path[..pos], a, component, d);
    var removeThisComponent;
    removeThisComponent, dotdotCount' := Classify(component, dotdotCount);
    if removeThisComponent {
      DropName(path0, path[..pos], path[pos..], dotdotCount, a, component, d);
      path', pos' := CutOut(path, componentStart, pos);
      assert |path'[..pos']| == pos';
    } else {
      KeepName(path0, path[..pos], path[pos..], a, component, d);
      path', pos' := path, componentStart;
      assert path[pos'..] == component + d + path[pos..];
    }
  }

  method Classify(component: string, dotdotCount: nat) returns (remove: bool, dotdotCount': nat)
    ensures remove <==> IsDot(component) || IsDotDot(component) || dotdotCount != 0
    ensures dotdotCount' == if remove then CountAfter(component, dotdotCount) else 0
  {
    remove, dotdotCount' := false, dotdotCount;
    if IsDot(component) {
      remove := true;
    } else if IsDotDot(component) {
      remove := true;
      dotdotCount' := dotdotCount + 1;
    } else if dotdotCount != 0 {
      remove := true;
      dotdotCount' := dotdotCount - 1;
    }
  }

  lemma SplitPlain(left: string, a: string, c: string, d: string)
    requires SplitsInto(left, a, c, d)
    ensures |a| < |left|
    ensures Plain(Components(left)) ==> !IsDot(c) && !IsDotDot(c) && Plain(Components(a))
  {
    SplitComponents(left, a, c, d);
    if c != [] {
      assert c in Components(left);
    }
  }

  /**
    The components of the result are what a stack leaves of the components of
    the argument; it is empty if the stack underflows. The result has a leading
    delimiter like the argument and no trailing one, and a path without "." and
    ".." only loses its trailing delimiters.
   */
  method RemoveRelativePathComponents(path0: string) returns (r: string)
    ensures Stack(Components(path0)) == None ==> r == []
    ensures Stack(Components(path0)).Some? ==> Components(r) == Stack(Components(path0)).value
    ensures r != [] ==> Rooted(r) == Rooted(path0) && !IsDirDelimiter(r[|r| - 1])
    ensures Plain(Components(path0)) ==> r == TrimEnd(path0)
  {
    var path, pos: nat, dotdotCount: nat := path0, |path0|, 0;
    ScanningStarts(path0);
    assert path[..pos] == path0 && path[pos..] == [];
    while pos != 0
      invariant pos <= |path| && Scanning(path0, path[..pos], path[pos..], dotdotCount)
      invariant Plain(Components(path0)) ==> dotdotCount == 0 && path == path0 && Plain(Components(path[..pos]))
    {
      path, pos, dotdotCount := HandleComponent(path, pos, dotdotCount, path0);
    }
    assert path[..0] == [] && path[0..] == path && [] + path == path;
    if dotdotCount > 0 {
      return [];
    }
    pos := SkipDelimitersBack(path, |path|);
    assert path[..|path|] == path;
    TrimEndComponents(path);
    r := path[..pos];
  }

  lemma ScanningStarts(path: string)
    ensures Scanning(path, path, [], 0)
  {
    FromRightIsStack(Components(path), 0, []);
    match Stack(Components(path))
    case None =>
    case Some(st) => assert st[..|st|] + [] == st;
    assert path + [] == path;
  }

  // ---------------------------------------------------------------------------
  // Prefixes
  // ---------------------------------------------------------------------------

  /** The components of the prefix begin those of the path, and both or neither start at a delimiter or are empty. */
  predicate Matches(path: string, prefix: string) {
    StartsAtDelimiter(path) == StartsAtDelimiter(prefix) && Components(prefix) <= Components(path)
  }

  function FirstEnd(s: string): (k: nat)
    ensures k <= |s| && (k < |s| ==> IsDirDelimiter(s[k]))
    ensures forall i :: 0 <= i < k ==> !IsDirDelimiter(s[i])
  {
    if s == [] || IsDirDelimiter(s[0]) then 0 else 1 + FirstEnd(s[1..])
  }

  lemma FirstComponent(s: string)
    requires !StartsAtDelimiter(s)
    ensures var k := FirstEnd(s); k > 0 && Components(s) == [s[..k]] + Components(s[k..])
  {
    var k := FirstEnd(s);
    assert s == s[..k] + s[k..];
    NameThenRest(s[..k], s[k..]);
  }

  lemma SkipDelimiters(path: string, prefix: string, p: nat, q: nat)
    requires p <= |path| && q <= |prefix| && AllDelimiters(path[..p]) && AllDelimiters(prefix[..q])
    ensures Components(prefix) <= Components(path) <==> Components(prefix[q..]) <= Components(path[p..])
  {
    assert path == path[..p] + path[p..] && prefix == prefix[..q] + prefix[q..];
    DelimitersThenRest(path[..p], path[p..]);
    DelimitersThenRest(prefix[..q], prefix[q..]);
  }

  lemma SkipCommon(path: string, prefix: string, n: nat)
    requires 0 < n <= |path| && n <= |prefix| && path[..n] == prefix[..n] && IsName(path[..n])
    requires StartsAtDelimiter(path[n..]) || StartsAtDelimiter(prefix[n..])
    ensures Matches(path, prefix) == Matches(path[n..], prefix[n..])
  {
    var name := path[..n];
    assert path == name + path[n..] && prefix == name + prefix[n..];
    assert !IsDirDelimiter(name[0]);
    if StartsAtDelimiter(path[n..]) && StartsAtDelimiter(prefix[n..]) {
      NameThenRest(name, path[n..]);
      NameThenRest(name, prefix[n..]);
      PrefixTail(name, Components(prefix[n..]), Components(path[n..]));
    } else {
      FirstComponent(path);
      FirstComponent(prefix);
      FirstEndFrom(path, n);
      FirstEndFrom(prefix, n);
      assert |path[..FirstEnd(path)]| != |prefix[..FirstEnd(prefix)]|;
      DifferentHeads(path[..FirstEnd(path)], Components(path[FirstEnd(path)..]), prefix[..FirstEnd(prefix)],
                     Components(prefix[FirstEnd(prefix)..]));
    }
  }

  lemma FirstEndFrom(s: string, n: nat)
    requires n <= |s| && forall i :: 0 <= i < n ==> !IsDirDelimiter(s[i])
    ensures StartsAtDelimiter(s[n..]) ==> FirstEnd(s) == n
    ensures !StartsAtDelimiter(s[n..]) ==> FirstEnd(s) > n
  {
    if StartsAtDelimiter(s[n..]) && n < |s| {
      assert IsDirDelimiter(s[n..][0]);
    }
  }

  lemma PrefixTail<T>(x: T, a: seq<T>, b: seq<T>)
    ensures [x] + a <= [x] + b <==> a <= b
  {
    if [x] + a <= [x] + b {
      forall i | 0 <= i < |a|
        ensures a[i] == b[i]
      {
        assert ([x] + a)[i + 1] == ([x] + b)[i + 1];
      }
    }
  }

  lemma DifferentHeads(x: string, a: seq<string>, y: string, b: seq<string>)
    requires x != y
    ensures !([y] + b <= [x] + a)
  {
    assert ([y] + b)[0] == y && ([x] + a)[0] == x;
  }

  lemma DifferAt(path: string, prefix: string, n: nat)
    requires n < |path| && n < |prefix| && path[n] != prefix[n]
    requires forall i :: 0 <= i <= n ==> !IsDirDelimiter(path[i]) && !IsDirDelimiter(prefix[i])
    ensures !Matches(path, prefix)
  {
    FirstComponent(path);
    FirstComponent(prefix);
    var x, y := path[..FirstEnd(path)], prefix[..FirstEnd(prefix)];
    assert x[n] == path[n] && y[n] == prefix[n];
    DifferentHeads(x, Components(path[FirstEnd(path)..]), y, Components(prefix[FirstEnd(prefix)..]));
  }

  method SkipDelimitersForward(path: string, pos: nat) returns (p: nat)
    requires pos <= |path|
    ensures pos <= p <= |path| && AllDelimiters(path[pos..p])
    ensures p < |path| ==> !IsDirDelimiter(path[p])
    ensures pos < |path| && IsDirDelimiter(path[pos]) ==> p > pos
  {
    p := pos;
    while p < |path| && IsDirDelimiter(path[p])
      invariant pos <= p <= |path|
      invariant forall i :: pos <= i < p ==> IsDirDelimiter(path[i])
    {
      p := p + 1;
    }
  }

  /** Compares characters pairwise up to a delimiter or the end of either string. */
  method CompareNames(path: string, prefix: string, p: nat, q: nat) returns (same: bool, len: nat)
    requires p < |path| && q < |prefix| && !IsDirDelimiter(path[p]) && !IsDirDelimiter(prefix[q])
    ensures !same ==> !Matches(path[p..], prefix[q..])
    ensures same ==> 0 < len && p + len <= |path| && q + len <= |prefix|
    ensures same ==> Matches(path[p..], prefix[q..]) == Matches(path[p + len..], prefix[q + len..])
  {
    len := 0;
    ghost var a, b := path[p..], prefix[q..];
    while len == 0 || (p + len < |path| && !IsDirDelimiter(path[p + len]) && q + len < |prefix| &&
                       !IsDirDelimiter(prefix[q + len]))
      invariant p + len <= |path| && q + len <= |prefix|
      decreases |path| - p - len
      invariant forall i :: 0 <= i < len ==> a[i] == b[i] && !IsDirDelimiter(a[i])
    {
      assert a[len] == path[p + len] && b[len] == prefix[q + len];
      if path[p + len] != prefix[q + len] {
        DifferAt(a, b, len);
        return false, len;
      }
      len := len + 1;
    }
    assert a[..len] == b[..len];
    assert a[len..] == path[p + len..] && b[len..] == prefix[q + len..];
    SkipCommon(a, b, len);
    return true, len;
  }

  lemma SkippedBoth(a: string, b: string, p: nat, q: nat, a': string, b': string)
    requires p <= |a| && q <= |b| && AllDelimiters(a[..p]) && AllDelimiters(b[..q])
    requires StartsAtDelimiter(a) && StartsAtDelimiter(b)
    requires a' == a[p..] && b' == b[q..]
    requires a' != [] ==> !StartsAtDelimiter(a')
    requires b' != [] ==> !StartsAtDelimiter(b')
    ensures b' == [] ==> Matches(a, b)
    ensures b' != [] && a' == [] ==> !Matches(a, b)
    ensures b' != [] && a' != [] ==> Matches(a, b) == Matches(a', b')
  {
    SkipDelimiters(a, b, p, q);
    if b' != [] {
      FirstComponent(b');
    }
  }

  lemma Skipped(path: string, p: nat, p': nat)
    requires p <= p' <= |path| && AllDelimiters(path[p..p'])
    requires p' < |path| ==> !IsDirDelimiter(path[p'])
    ensures AllDelimiters(path[p..][..p' - p]) && path[p'..] == path[p..][p' - p..]
    ensures path[p'..] != [] ==> !StartsAtDelimiter(path[p'..])
    ensures path[p'..] == [] <==> p' == |path|
  {
    assert path[p..][..p' - p] == path[p..p'];
  }

  method SkipBoth(path: string, prefix: string, p: nat, q: nat) returns (p': nat, q': nat)
    requires p <= |path| && q <= |prefix| && StartsAtDelimiter(path[p..]) && StartsAtDelimiter(prefix[q..])
    ensures p <= p' <= |path| && q <= q' <= |prefix|
    ensures p < |path| ==> p < p'
    ensures q' == |prefix| ==> Matches(path[p..], prefix[q..])
    ensures q' < |prefix| && p' == |path| ==> !Matches(path[p..], prefix[q..])
    ensures q' < |prefix| && p' < |path| ==> Matches(path[p..], prefix[q..]) == Matches(path[p'..], prefix[q'..])
  {
    p' := SkipDelimitersForward(path, p);
    q' := SkipDelimitersForward(prefix, q);
    Skipped(path, p, p');
    Skipped(prefix, q, q');
    SkippedBoth(path[p..], prefix[q..], p' - p, q' - q, path[p'..], prefix[q'..]);
  }

  /** Skips delimiters or a common name in both, unless the answer is known. */
  method CompareAt(path: string, prefix: string, p: nat, q: nat) returns (answer: Option<bool>, p': nat, q': nat)
    requires p <= |path| && q <= |prefix|
    ensures answer.Some? ==> answer.value == Matches(path[p..], prefix[q..])
    ensures answer.None? ==> p < p' <= |path| && q <= q' <= |prefix|
    ensures answer.None? ==> Matches(path[p'..], prefix[q'..]) == Matches(path[p..], prefix[q..])
  {
    p', q' := p, q;
    var delim1 := p == |path| || IsDirDelimiter(path[p]);
    var delim2 := q == |prefix| || IsDirDelimiter(prefix[q]);
    if delim1 != delim2 {
      return Some(false), p, q;
    }
    if delim1 {
      p', q' := SkipBoth(path, prefix, p, q);
      answer := if q' == |prefix| then Some(true) else if p' == |path| then Some(false) else None;
    } else {
      var same, len := CompareNames(path, prefix, p, q);
      if same {
        answer, p', q' := None, p + len, q + len;
      } else {
        answer := Some(false);
      }
    }
  }

  method PathStartsWith(path: string, prefix: string) returns (r: bool)
    ensures r <==> if prefix == [] then path == [] else Matches(path, prefix)
  {
    if prefix == [] {
      return path == [];
    }
    var p: nat, q: nat := 0, 0;
    assert path[0..] == path && prefix[0..] == prefix;
    while true
      invariant p <= |path| && q <= |prefix|
      invariant Matches(path[p..], prefix[q..]) == Matches(path, prefix)
      decreases |path| - p
    {
      var answer, p', q' := CompareAt(path, prefix, p, q);
      if answer.Some? {
        return answer.value;
      }
      p, q := p', q';
    }
  }
}
