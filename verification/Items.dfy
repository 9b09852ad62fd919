/**
  Items as the crafting code sees them, and the test whether an item name
  satisfies the name in a recipe slot.
 */
module Items {
  import opened Numbers

  type Metadata = map<string, string>

  datatype ItemStack = ItemStack(name: string, count: u16, wear: u16, metadata: Metadata)

  datatype CraftMethod = Normal | Cooking | Fuel

  datatype CraftInput = CraftInput(method_: CraftMethod, width: nat, items: seq<ItemStack>) {
    /** True if every stack is empty. */
    predicate Empty() {
      forall i :: 0 <= i < |items| ==> items[i].count == 0
    }

    function Names(): (names: seq<string>)
      ensures |names| == |items|
      ensures forall i :: 0 <= i < |items| ==> names[i] == items[i].name
    {
      seq(|items|, i requires 0 <= i < |items| => items[i].name)
    }
  }

  /** A stack loses its name with its last item, so an unnamed stack and an empty stack are the same. */
  ghost predicate CleanStacks(input: CraftInput) {
    forall i :: 0 <= i < |input.items| ==> (input.items[i].name == "" <==> input.items[i].count == 0)
  }

  /**
    The registered items: `groups` holds the group ratings of every known item
    and `aliases` renames. `nameOf` is the name that an item string denotes
    once parsed.
   */
  datatype ItemDefs = ItemDefs(
    aliases: map<string, string>,
    groups: map<string, map<string, int>>,
    nameOf: string -> string)
  {
    function GetAlias(name: string): string {
      if name in aliases then aliases[name] else name
    }

    predicate IsKnown(name: string) {
      GetAlias(name) in groups
    }

    /** The rating of a known item in a group, 0 when it is not in the group. */
    function Rating(name: string, group: string): int
      requires IsKnown(name)
    {
      var g := groups[GetAlias(name)];
      if group in g then g[group] else 0
    }

    function NamesOf(itemstrings: seq<string>): (names: seq<string>)
      ensures |names| == |itemstrings|
      ensures forall i :: 0 <= i < |names| ==> names[i] == nameOf(itemstrings[i])
    {
      seq(|itemstrings|, i requires 0 <= i < |itemstrings| => nameOf(itemstrings[i]))
    }
  }

  predicate IsItem(name: string) {
    name != ""
  }

  predicate IsGroupRecipe(name: string) {
    "group:" <= name
  }

  predicate IsPlainRecipe(name: string) {
    !IsGroupRecipe(name)
  }

  predicate HasGroupItem(recipe: seq<string>) {
    exists i :: 0 <= i < |recipe| && IsGroupRecipe(recipe[i])
  }

  // ---------------------------------------------------------------------------
  // Comma-separated group lists
  // ---------------------------------------------------------------------------

  function FirstComma(s: string): (n: nat)
    ensures n <= |s|
    ensures n < |s| ==> s[n] == ','
    ensures forall i :: 0 <= i < n ==> s[i] != ','
  {
    if s == "" || s[0] == ',' then 0 else 1 + FirstComma(s[1..])
  }

  /**
    The groups a group slot asks for. An empty list still asks for one, empty,
    group; a trailing comma asks for nothing more.
   */
  function GroupList(s: string): (r: seq<string>)
    ensures r != []
    decreases |s|
  {
    var n := FirstComma(s);
    if n + 1 >= |s| then [s[..n]] else [s[..n]] + GroupList(s[n + 1..])
  }

  ghost predicate InAllGroups(idef: ItemDefs, name: string, wanted: seq<string>)
    requires idef.IsKnown(name)
  {
    forall i :: 0 <= i < |wanted| ==> idef.Rating(name, wanted[i]) != 0
  }

  ghost predicate InListedGroups(idef: ItemDefs, name: string, s: string)
    requires idef.IsKnown(name)
  {
    InAllGroups(idef, name, GroupList(s))
  }

  /** A slot accepts its own name; a group slot accepts every known item in all of its groups. */
  ghost predicate Matches(idef: ItemDefs, inp: string, rec: string) {
    || inp == rec
    || (IsGroupRecipe(rec) && idef.IsKnown(inp) && InListedGroups(idef, inp, rec[6..]))
  }

  lemma PlainMatches(idef: ItemDefs, inp: string, rec: string)
    requires IsPlainRecipe(rec)
    ensures Matches(idef, inp, rec) <==> inp == rec
  {
  }

  lemma InAllGroupsCons(idef: ItemDefs, name: string, first: string, rest: seq<string>)
    requires idef.IsKnown(name)
    ensures InAllGroups(idef, name, [first] + rest) <==> idef.Rating(name, first) != 0 && InAllGroups(idef, name, rest)
  {
    var all := [first] + rest;
    assert all[0] == first;
    assert forall i :: 0 <= i < |rest| ==> all[i + 1] == rest[i];
  }

  lemma InLastGroup(idef: ItemDefs, name: string, s: string, n: nat)
    requires idef.IsKnown(name) && n == FirstComma(s) && n + 1 >= |s|
    ensures InListedGroups(idef, name, s) <==> idef.Rating(name, s[..n]) != 0
  {
    var all := GroupList(s);
    assert |all| == 1 && all[0] == s[..n];
  }

  lemma InMoreGroups(idef: ItemDefs, name: string, s: string, n: nat, rest: string)
    requires idef.IsKnown(name) && n == FirstComma(s) && n + 1 < |s| && rest == s[n + 1..]
    ensures InListedGroups(idef, name, s) <==> idef.Rating(name, s[..n]) != 0 && InListedGroups(idef, name, rest)
  {
    InAllGroupsCons(idef, name, s[..n], GroupList(rest));
  }

  function Listed(groups: seq<string>): string
    requires groups != []
  {
    if |groups| == 1 then groups[0] else groups[0] + "," + Listed(groups[1..])
  }

  lemma {:induction false} FirstCommaIs(s: string, n: nat)
    requires n < |s| && s[n] == ',' && forall i :: 0 <= i < n ==> s[i] != ','
    ensures FirstComma(s) == n
  {
  }

  lemma NoCommaIsOne(s: string)
    requires ',' !in s
    ensures GroupList(s) == [s]
  {
    assert FirstComma(s) == |s| && s[..|s|] == s;
  }

  lemma CommaSplits(first: string, s: string, rest: string)
    requires ',' !in first && rest != [] && s == first + [','] + rest
    ensures GroupList(s) == [first] + GroupList(rest)
  {
    var n := |first|;
    assert s[n] == ',' && s[..n] == first && s[n + 1..] == rest;
    FirstCommaIs(s, n);
  }

  /** A list written with commas is read as it was, unless its last name is empty. */
  lemma {:induction false} ListedGroups(groups: seq<string>)
    requires groups != [] && (forall i :: 0 <= i < |groups| ==> ',' !in groups[i])
    requires |groups| == 1 || groups[|groups| - 1] != ""
    ensures GroupList(Listed(groups)) == groups
  {
    if |groups| == 1 {
      NoCommaIsOne(groups[0]);
    } else {
      ListedEnds(groups[1..]);
      ListedGroups(groups[1..]);
      CommaSplits(groups[0], Listed(groups), Listed(groups[1..]));
    }
  }

  lemma {:induction false} ListedEnds(groups: seq<string>)
    requires groups != [] && groups[|groups| - 1] != ""
    ensures Listed(groups) != ""
  {
    if |groups| > 1 {
      ListedEnds(groups[1..]);
    }
  }

  /** A group slot accepts what is known and rated other than 0 in every one of the groups it lists. */
  lemma GroupSlotMatches(idef: ItemDefs, inp: string, groups: seq<string>)
    requires groups != [] && (forall i :: 0 <= i < |groups| ==> ',' !in groups[i])
    requires |groups| == 1 || groups[|groups| - 1] != ""
    ensures var rec := "group:" + Listed(groups);
            Matches(idef, inp, rec) <==>
            || inp == rec
            || (idef.GetAlias(inp) in idef.groups &&
                forall g :: g in groups ==>
                  g in idef.groups[idef.GetAlias(inp)] && idef.groups[idef.GetAlias(inp)][g] != 0)
  {
    var rec := "group:" + Listed(groups);
    assert rec[6..] == Listed(groups);
    ListedGroups(groups);
  }

  /** The tokenizer loop over a group list, leaving at the first group the item is not in. */
  method CheckGroups(idef: ItemDefs, name: string, list: string) returns (r: bool)
    requires idef.IsKnown(name)
    ensures r <==> InListedGroups(idef, name, list)
  {
    var rest, more := list, true;
    while more
      invariant more ==> (InListedGroups(idef, name, list) <==> InListedGroups(idef, name, rest))
      invariant !more ==> InListedGroups(idef, name, list)
      decreases |rest|, more
    {
      var n := FirstComma(rest);
      if n + 1 < |rest| {
        InMoreGroups(idef, name, rest, n, rest[n + 1..]);
      } else {
        InLastGroup(idef, name, rest, n);
      }
      if idef.Rating(name, rest[..n]) == 0 {
        return false;
      }
      more := n + 1 < |rest|;
      if more {
        rest := rest[n + 1..];
      }
    }
    return true;
  }

  method ItemMatchesRecipe(idef: ItemDefs, inp: string, rec: string) returns (r: bool)
    ensures r <==> Matches(idef, inp, rec)
  {
    if inp == rec {
      return true;
    }
    r := IsGroupRecipe(rec) && idef.IsKnown(inp);
    if r {
      r := CheckGroups(idef, inp, rec[6..]);
    }
  }
}
