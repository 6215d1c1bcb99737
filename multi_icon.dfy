/** An icon library: a list of named icons, looked up by name without
    regard to case, with the index of the icon that is selected for
    saving. */
module MultiIcons {
  import opened Wrappers
  import SingleIcons

  type SingleIcon = SingleIcons.SingleIcon

  /** A letter folded to lower case; names are compared by their folded
      forms. Only the ASCII letters are folded. */
  function Lower(c: char): char
  {
    if 'A' <= c <= 'Z' then (c as int + 32) as char else c
  }

  function ToLower(s: string): (t: string)
    ensures |t| == |s|
    ensures forall i | 0 <= i < |s| :: t[i] == Lower(s[i])
  {
    if s == [] then [] else [Lower(s[0])] + ToLower(s[1..])
  }

  /** Folding twice is folding once. */
  lemma ToLowerIdempotent(s: string)
    ensures ToLower(ToLower(s)) == ToLower(s)
  {
    var t := ToLower(s);
    assert forall i | 0 <= i < |s| :: ToLower(t)[i] == t[i];
  }

  /** Two names that differ only in the case of their letters. */
  predicate SameName(a: string, b: string)
  {
    ToLower(a) == ToLower(b)
  }

  /** A name and its folded form are the same name. */
  lemma FoldedIsSameName(s: string)
    ensures SameName(ToLower(s), s)
  {
    ToLowerIdempotent(s);
  }

  /** The first position whose name is the same as `name`, or -1. */
  function FindName(names: seq<string>, name: string): (i: int)
    ensures -1 <= i < |names|
    ensures i == -1 <==> forall j | 0 <= j < |names| :: !SameName(names[j], name)
    ensures i >= 0 ==> SameName(names[i], name) && forall j | 0 <= j < i :: !SameName(names[j], name)
  {
    if names == [] then -1
    else if SameName(names[0], name) then 0
    else
      var k := FindName(names[1..], name);
      if k == -1 then -1 else k + 1
  }

  /** No two names of the list are the same. */
  predicate Unique(names: seq<string>)
  {
    forall i, j | 0 <= i < j < |names| :: !SameName(names[i], names[j])
  }

  /** In a list without duplicates the found name is the only one that is
      the same as `name`. */
  lemma FoundIsOnly(names: seq<string>, name: string, j: int)
    requires Unique(names) && 0 <= j < |names| && SameName(names[j], name)
    ensures FindName(names, name) == j
  {
    var i := FindName(names, name);
    assert 0 <= i < j ==> !SameName(names[i], names[j]);
  }

  /** Removing one entry from a list without duplicates leaves none. */
  lemma RemoveUnique(names: seq<string>, k: nat)
    requires Unique(names) && k < |names|
    ensures Unique(names[..k] + names[k + 1..])
  {
    var r := names[..k] + names[k + 1..];
    forall i, j | 0 <= i < j < |r|
      ensures !SameName(r[i], r[j])
    {
      assert r[i] == names[if i < k then i else i + 1];
      assert r[j] == names[if j < k then j else j + 1];
    }
  }

  /** The names of a list of icons, in order. */
  ghost function NamesOf(list: seq<SingleIcon>): (names: seq<string>)
    reads list
    ensures |names| == |list|
  {
    seq(|list|, i requires 0 <= i < |list| reads list => list[i].name)
  }

  /** Removing the entry found for a name from a list without duplicates
      leaves no entry with that name, and still no duplicates. */
  lemma RemoveFound(names: seq<string>, name: string, k: nat)
    requires Unique(names) && k < |names| && FindName(names, name) == k
    ensures var r := names[..k] + names[k + 1..];
      Unique(r) && forall j | 0 <= j < |r| :: !SameName(r[j], name)
  {
    var r := names[..k] + names[k + 1..];
    RemoveUnique(names, k);
    forall j | 0 <= j < |r|
      ensures !SameName(r[j], name)
    {
      var o := if j < k then j else j + 1;
      assert r[j] == names[o];
      if SameName(names[o], name) {
        FoundIsOnly(names, name, o);
      }
    }
  }

  /** Why an operation throws: a name already in use, a selected index
      past the end, a name to select that is not there, or a library with
      no selection to save. */
  datatype Error = IconNameAlreadyExist | ArgumentOutOfRange | SelectedNameDoesNotExist | InvalidIconSelection

  class MultiIcon {
    var icons: seq<SingleIcon>
    var selectedIndex: int

    /** The names of the icons, in order. */
    ghost function Names(): (names: seq<string>)
      reads this`icons, icons
      ensures |names| == |icons|
    {
      NamesOf(icons)
    }

    /** An empty library with nothing selected. */
    constructor()
      ensures icons == [] && selectedIndex == -1
    {
      icons := [];
      selectedIndex := -1;
    }

    /** A library of one icon, selected by its name, which always finds
        the icon itself. */
    constructor FromIcon(icon: SingleIcon)
      ensures icons == [icon] && selectedIndex == 0
    {
      icons := [icon];
      selectedIndex := -1;
      new;
      var err := SetSelectedName(icon.name);
      assert SameName(Names()[0], icon.name);
    }

    /** `IndexOf`: the first icon whose name is the same as `name` up to
        case, or -1. */
    method IndexOf(name: string) returns (index: int)
      ensures index == FindName(Names(), name)
    {
      var key := ToLower(name);
      var i := 0;
      while i < |icons|
        invariant 0 <= i <= |icons|
        invariant forall j | 0 <= j < i :: !SameName(Names()[j], name)
      {
        if ToLower(icons[i].name) == key {
          FoundIsFirst(Names(), name, i);
          return i;
        }
        i := i + 1;
      }
      return -1;
    }

    /** `Contains`: some icon has the name, up to case. */
    method Contains(name: string) returns (found: bool)
      ensures found <==> exists j | 0 <= j < |icons| :: SameName(Names()[j], name)
    {
      var index := IndexOf(name);
      found := index != -1;
    }

    /** `Add(string)`: a name that is already in use, up to case, is
        refused and nothing changes; otherwise a new icon with that name
        and no sub-images is appended and returned. */
    method Add(name: string) returns (r: Result<SingleIcon, Error>)
      modifies this
      ensures selectedIndex == old(selectedIndex)
      ensures r.Failure? <==> exists j | 0 <= j < |old(icons)| :: SameName(old(Names())[j], name)
      ensures r.Failure? ==> r.error == IconNameAlreadyExist && icons == old(icons)
      ensures r.Success? ==>
        fresh(r.value) && r.value.name == name && r.value.images == [] && icons == old(icons) + [r.value]
      ensures r.Success? ==> Names() == old(Names()) + [name]
      ensures Unique(old(Names())) ==> Unique(Names())
    {
      var taken := Contains(name);
      if taken {
        return Failure(IconNameAlreadyExist);
      }
      ghost var names := Names();
      var icon := new SingleIcons.SingleIcon(name);
      icons := icons + [icon];
      assert Names() == names + [name];
      return Success(icon);
    }

    /** `Remove(string)`: no icon with the name, up to case, leaves the
        list as it is; otherwise the first such icon is removed, the others
        keeping their order. The selected index is left as it was, even
        when it now points past the end. */
    method Remove(name: string)
      modifies this
      ensures selectedIndex == old(selectedIndex)
      ensures var k := FindName(old(Names()), name);
        && (k == -1 ==> icons == old(icons))
        && (k != -1 ==> icons == old(icons)[..k] + old(icons)[k + 1..])
      ensures Unique(old(Names())) ==> Unique(Names())
      ensures Unique(old(Names())) ==> forall j | 0 <= j < |icons| :: !SameName(Names()[j], name)
    {
      var index := IndexOf(name);
      if index != -1 {
        ghost var names := Names();
        icons := icons[..index] + icons[index + 1..];
        assert Names() == names[..index] + names[index + 1..];
        if Unique(names) {
          RemoveFound(names, name, index);
        }
      }
    }

    /** The `SelectedIndex` setter: an index at or past the end throws and
        nothing changes; any other, negative ones included, is taken. */
    method SetSelectedIndex(value: int) returns (err: Option<Error>)
      modifies this
      ensures icons == old(icons)
      ensures err.Some? <==> value >= |icons|
      ensures err.Some? ==> err.value == ArgumentOutOfRange && selectedIndex == old(selectedIndex)
      ensures err.None? ==> selectedIndex == value
    {
      if value >= |icons| {
        return Some(ArgumentOutOfRange);
      }
      selectedIndex := value;
      return None;
    }

    /** The `SelectedName` getter: the selected icon's name, or nothing
        when the index is outside the list. */
    function SelectedName(): (r: Option<string>)
      reads this, icons
      ensures r.Some? <==> 0 <= selectedIndex < |icons|
      ensures r.Some? ==> r.value == Names()[selectedIndex]
    {
      if selectedIndex < 0 || selectedIndex >= |icons| then None else Some(icons[selectedIndex].name)
    }

    /** The `SelectedName` setter: selects the first icon whose name is
        the same up to case; with no such icon it throws and the selection
        stays as it was. */
    method SetSelectedName(value: string) returns (err: Option<Error>)
      modifies this
      ensures icons == old(icons)
      ensures err.None? <==> exists j | 0 <= j < |icons| :: SameName(Names()[j], value)
      ensures err.Some? ==> err.value == SelectedNameDoesNotExist && selectedIndex == old(selectedIndex)
      ensures err.None? ==> selectedIndex == FindName(Names(), value)
      ensures err.None? ==> SelectedName().Some? && SameName(SelectedName().value, value)
    {
      var key := ToLower(value);
      var i := 0;
      while i < |icons|
        invariant 0 <= i <= |icons| && icons == old(icons) && selectedIndex == old(selectedIndex)
        invariant forall j | 0 <= j < i :: !SameName(Names()[j], value)
      {
        if ToLower(icons[i].name) == key {
          FoundIsFirst(Names(), value, i);
          selectedIndex := i;
          assert SameName(Names()[i], value);
          return None;
        }
        i := i + 1;
      }
      return Some(SelectedNameDoesNotExist);
    }

    /** The check `Save` makes before writing: only an index of -1 counts
        as no selection. */
    function SaveError(): (err: Option<Error>)
      reads this
      ensures err.Some? <==> selectedIndex == -1
      ensures err.Some? ==> err.value == InvalidIconSelection
    {
      if selectedIndex == -1 then Some(InvalidIconSelection) else None
    }
  }

  /** A match with no match before it is the one `FindName` finds. */
  lemma FoundIsFirst(names: seq<string>, name: string, i: int)
    requires 0 <= i < |names| && SameName(names[i], name)
    requires forall j | 0 <= j < i :: !SameName(names[j], name)
    ensures FindName(names, name) == i
  {
  }
}
