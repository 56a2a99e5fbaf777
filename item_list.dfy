/** A named list of text entries being typed in a form: the role list of a role session
    (src/modules/admin/AdminRoleTab.jsx) and the item list of a random-pick category
    (src/modules/admin/AdminRandomPickTab.jsx) are edited and checked the same way. */
module ItemList {
  import opened Wrappers
  import opened Text
  import Sorting

  predicate NonBlank(s: string) {
    !IsBlank(s)
  }

  /** `items.filter(item => item.trim())`: the entries that are not blank, in their order. */
  function ValidItems(items: seq<string>): (r: seq<string>)
    ensures forall x :: x in r <==> x in items && !IsBlank(x)
    ensures |r| <= |items|
  {
    Sorting.FilterMembers(items, NonBlank);
    Sorting.Filter(items, NonBlank)
  }

  /** Validity keeps order: the valid entries of two lists one after the other are those of the
      first followed by those of the second, and an added empty entry is dropped. */
  lemma ValidItemsAppend(a: seq<string>, b: seq<string>)
    ensures ValidItems(a + b) == ValidItems(a) + ValidItems(b)
    ensures ValidItems(a + [""]) == ValidItems(a)
  {
    Sorting.FilterAppend(a, b, NonBlank);
    Sorting.FilterAppend(a, [""], NonBlank);
    assert IsBlank("");
    assert Sorting.Filter([""], NonBlank) == [];
  }

  /** `items.filter((_, i) => i !== index)`. */
  function RemovedAt(items: seq<string>, index: int): (r: seq<string>)
    ensures 0 <= index < |items| ==> |r| == |items| - 1
    ensures 0 <= index < |items| ==> forall j :: 0 <= j < |r| ==> r[j] == (if j < index then items[j] else items[j + 1])
    ensures !(0 <= index < |items|) ==> r == items
  {
    if 0 <= index < |items| then items[..index] + items[index + 1..] else items
  }

  /** A form with a name and a list of entries. */
  class ItemForm {
    var name: string
    var items: seq<string>

    /** A create form starts with an empty name and one empty entry. */
    constructor ()
      ensures name == "" && items == [""]
    {
      name, items := "", [""];
    }

    /** Adding an entry: one empty entry at the end, which changes nothing that is saved. */
    method AddItem()
      modifies this
      ensures items == old(items) + [""] && name == old(name)
      ensures ValidItems(items) == ValidItems(old(items))
    {
      items := items + [""];
      ValidItemsAppend(old(items), []);
    }

    /** Removing an entry: only the entry at `index` goes; the others keep their order. */
    method RemoveItem(index: int)
      modifies this
      ensures items == RemovedAt(old(items), index) && name == old(name)
      ensures multiset(items) <= multiset(old(items))
    {
      if 0 <= index < |items| {
        assert items == items[..index] + [items[index]] + items[index + 1..];
      }
      items := RemovedAt(items, index);
    }

    /** Typing into an entry: only the entry at `index` changes. */
    method UpdateItem(index: nat, value: string)
      requires index < |items|
      modifies this
      ensures |items| == |old(items)| && items[index] == value
      ensures forall j :: 0 <= j < |items| && j != index ==> items[j] == old(items)[j]
      ensures name == old(name)
    {
      items := items[index := value];
    }

    /** The checks before saving: a name that is not blank, then at least one entry that is
        not blank; what is saved is the valid entries. */
    function Checked(noName: string, noItems: string): (r: Result<seq<string>, string>)
      reads this
      ensures r.Ok? <==> !IsBlank(name) && exists x :: x in items && !IsBlank(x)
      ensures r.Ok? ==> r.value == ValidItems(items) && r.value != []
      ensures IsBlank(name) ==> r == Err(noName)
      ensures !IsBlank(name) && r.Err? ==> r == Err(noItems)
    {
      if IsBlank(name) then Err(noName)
      else
        var valid := ValidItems(items);
        if valid == [] then Err(noItems) else Ok(valid)
    }
  }
}
