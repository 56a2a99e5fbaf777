/** The teacher's random-pick tab (src/modules/admin/AdminRandomPickTab.jsx): categories of
    items to draw from, created, edited, deleted and switched on or off. The list shown is the
    `random_pick_categories` table, newest first; every database answer is an input. */
module AdminRandomPick {
  import opened Wrappers
  import opened Text
  import Sorting
  import ItemList

  /** A row of `random_pick_categories`. */
  datatype Category = Category(id: int, name: string, items: seq<string>, isActive: bool)

  /** Which section of the tab is open. */
  datatype Section = Closed | CreateSection | EditSection

  const NoCategoryName := "카테고리 이름을 입력하세요"
  const NoItems := "최소 1개 이상의 아이템을 입력하세요"
  const SaveFailedPrefix := "저장 실패: "
  const EditFailedPrefix := "수정 실패: "

  /** Category ids are the table's key. */
  predicate UniqueIds(cats: seq<Category>) {
    forall i, j :: 0 <= i < j < |cats| ==> cats[i].id != cats[j].id
  }

  function Ids(cats: seq<Category>): set<int> {
    set c | c in cats :: c.id
  }

  /** `.update({ category_name, items }).eq('id', id)`. */
  function Edited(cats: seq<Category>, id: int, name: string, items: seq<string>): (r: seq<Category>)
    ensures |r| == |cats|
    ensures forall i :: 0 <= i < |r| ==> r[i].id == cats[i].id && r[i].isActive == cats[i].isActive
    ensures forall i :: 0 <= i < |r| ==> (r[i].name, r[i].items) == if cats[i].id == id then (name, items) else (cats[i].name, cats[i].items)
  {
    seq(|cats|, i requires 0 <= i < |cats| =>
      if cats[i].id == id then cats[i].(name := name, items := items) else cats[i])
  }

  /** `.update({ is_active: active }).eq('id', id)`. */
  function WithActive(cats: seq<Category>, id: int, active: bool): (r: seq<Category>)
    ensures |r| == |cats|
    ensures forall i :: 0 <= i < |r| ==> r[i] == if cats[i].id == id then cats[i].(isActive := active) else cats[i]
  {
    seq(|cats|, i requires 0 <= i < |cats| => if cats[i].id == id then cats[i].(isActive := active) else cats[i])
  }

  /** `.delete().eq('id', id)`: the other categories, in order. */
  function Without(cats: seq<Category>, id: int): (r: seq<Category>)
    ensures forall c :: c in r <==> c in cats && c.id != id
    ensures |r| <= |cats|
  {
    Sorting.FilterMembers(cats, (c: Category) => c.id != id);
    Sorting.Filter(cats, (c: Category) => c.id != id)
  }

  /** Switching a category twice, each time from the flag shown, gives back the list. */
  lemma ToggleTwice(cats: seq<Category>, k: nat)
    requires k < |cats| && UniqueIds(cats)
    ensures var once := WithActive(cats, cats[k].id, !cats[k].isActive);
      && once[k].isActive == !cats[k].isActive
      && WithActive(once, once[k].id, !once[k].isActive) == cats
  {
    var once := WithActive(cats, cats[k].id, !cats[k].isActive);
    var twice := WithActive(once, once[k].id, !once[k].isActive);
    assert forall i :: 0 <= i < |cats| ==> twice[i] == cats[i] by {
      forall i | 0 <= i < |cats| ensures twice[i] == cats[i] {
        if i != k {
          assert cats[i].id != cats[k].id;
        }
      }
    }
  }

  /** Two lists with the same id at every position have the same ids, unique alike. */
  lemma SameIds(a: seq<Category>, b: seq<Category>)
    requires |a| == |b| && forall i :: 0 <= i < |a| ==> a[i].id == b[i].id
    ensures Ids(a) == Ids(b) && (UniqueIds(a) <==> UniqueIds(b))
  {
    forall x | x in Ids(a) ensures x in Ids(b) {
      var c :| c in a && c.id == x;
      var i :| 0 <= i < |a| && a[i] == c;
      assert b[i] in b;
    }
    forall x | x in Ids(b) ensures x in Ids(a) {
      var c :| c in b && c.id == x;
      var i :| 0 <= i < |b| && b[i] == c;
      assert a[i] in a;
    }
  }

  /** Edits and switches keep the ids of the table. */
  lemma KeysKept(cats: seq<Category>, id: int, name: string, items: seq<string>, active: bool)
    requires UniqueIds(cats)
    ensures UniqueIds(Edited(cats, id, name, items)) && Ids(Edited(cats, id, name, items)) == Ids(cats)
    ensures UniqueIds(WithActive(cats, id, active)) && Ids(WithActive(cats, id, active)) == Ids(cats)
  {
    SameIds(cats, Edited(cats, id, name, items));
    SameIds(cats, WithActive(cats, id, active));
  }

  predicate DifferentIds(a: Category, b: Category) {
    a.id != b.id
  }

  /** Deleting keeps the ids unique and loses only the deleted one. */
  lemma DeleteKeepsKeys(cats: seq<Category>, id: int)
    requires UniqueIds(cats)
    ensures UniqueIds(Without(cats, id)) && Ids(Without(cats, id)) == Ids(cats) - {id}
  {
    assert Sorting.SortedBy(cats, DifferentIds);
    Sorting.FilterSorted(cats, (c: Category) => c.id != id, DifferentIds);
    var r := Without(cats, id);
    assert Sorting.SortedBy(r, DifferentIds);
    assert forall i, j :: 0 <= i < j < |r| ==> DifferentIds(r[i], r[j]);
    forall x | x in Ids(cats) - {id} ensures x in Ids(r) {
      var c :| c in cats && c.id == x;
      assert c in r;
    }
  }

  /** The state of the tab. */
  class PickTab {
    var categories: seq<Category>
    var expanded: Section
    var editing: Option<Category>

    predicate Valid()
      reads this
    {
      UniqueIds(categories)
    }

    constructor (categories: seq<Category>)
      requires UniqueIds(categories)
      ensures Valid() && this.categories == categories && expanded == Closed && editing.None?
    {
      this.categories := categories;
      expanded, editing := Closed, None;
    }

    /** A section header: opens that section, or closes it when it is the one open. */
    method ToggleSection(section: Section)
      requires section != Closed
      modifies this
      ensures expanded == if old(expanded) == section then Closed else section
      ensures categories == old(categories) && editing == old(editing)
    {
      expanded := if expanded == section then Closed else section;
    }

    /** saveCategory: a form with a name and at least one item that is not blank is stored as a
        new active category with its valid items, shown first; the form is reset and the
        section closed. A failed insert reports the error and changes nothing. */
    method SaveCategory(form: ItemList.ItemForm, newId: int, insertError: Option<string>)
      returns (r: Result<Category, string>)
      requires Valid() && newId !in Ids(categories)
      modifies this, form
      ensures Valid()
      ensures var c := old(form.Checked(NoCategoryName, NoItems));
        && (c.Err? ==> r == Err(c.error))
        && (c.Ok? && insertError.Some? ==> r == Err(SaveFailedPrefix + insertError.value))
        && (c.Ok? && insertError.None? ==> r == Ok(Category(newId, old(form.name), c.value, true)))
      ensures r.Ok? ==> categories == [r.value] + old(categories) && form.name == "" && form.items == [""] && expanded == Closed
      ensures r.Err? ==> categories == old(categories) && form.name == old(form.name) && form.items == old(form.items)
                         && expanded == old(expanded)
      ensures editing == old(editing)
    {
      var c := form.Checked(NoCategoryName, NoItems);
      if c.Err? {
        return Err(c.error);
      }
      if insertError.Some? {
        return Err(SaveFailedPrefix + insertError.value);
      }
      r := Ok(Category(newId, form.name, c.value, true));
      assert forall i :: 0 <= i < |categories| ==> categories[i] in categories;
      categories := [r.value] + categories;
      form.name, form.items := "", [""];
      expanded := Closed;
    }

    /** startEdit: the edit form gets the category's name and a copy of its items. */
    method StartEdit(form: ItemList.ItemForm, category: Category)
      modifies this, form
      ensures editing == Some(category) && form.name == category.name && form.items == category.items
      ensures expanded == EditSection && categories == old(categories)
    {
      editing := Some(category);
      form.name, form.items := category.name, category.items;
      expanded := EditSection;
    }

    /** saveEdit: a form that passes the checks gives the category being edited the form's
        name and valid items; the editing ends and the section closes. Otherwise nothing
        changes. */
    method SaveEdit(form: ItemList.ItemForm, updateError: Option<string>) returns (r: Result<seq<string>, string>)
      requires Valid() && editing.Some?
      modifies this
      ensures Valid()
      ensures var c := form.Checked(NoCategoryName, NoItems);
        && (c.Err? ==> r == c)
        && (c.Ok? && updateError.Some? ==> r == Err(EditFailedPrefix + updateError.value))
        && (c.Ok? && updateError.None? ==> r == c)
      ensures r.Ok? ==> categories == Edited(old(categories), old(editing).value.id, form.name, r.value)
                        && editing.None? && expanded == Closed
      ensures r.Err? ==> categories == old(categories) && editing == old(editing) && expanded == old(expanded)
    {
      var c := form.Checked(NoCategoryName, NoItems);
      if c.Err? {
        return c;
      }
      if updateError.Some? {
        return Err(EditFailedPrefix + updateError.value);
      }
      KeysKept(categories, editing.value.id, form.name, c.value, true);
      categories := Edited(categories, editing.value.id, form.name, c.value);
      editing, expanded := None, Closed;
      return c;
    }

    /** deleteCategory: after confirmation and a successful delete, exactly that category is
        gone and the others keep their order. */
    method DeleteCategory(id: int, confirmed: bool, deleteOk: bool)
      requires Valid()
      modifies this
      ensures Valid()
      ensures confirmed && deleteOk ==> categories == Without(old(categories), id) && Ids(categories) == Ids(old(categories)) - {id}
      ensures !(confirmed && deleteOk) ==> categories == old(categories)
      ensures expanded == old(expanded) && editing == old(editing)
    {
      if confirmed && deleteOk {
        DeleteKeepsKeys(categories, id);
        categories := Without(categories, id);
      }
    }

    /** toggleActive: the category gets the opposite of the flag it was shown with; the other
        categories are as they were. */
    method ToggleActive(category: Category, updateOk: bool)
      requires Valid()
      modifies this
      ensures Valid()
      ensures updateOk ==> categories == WithActive(old(categories), category.id, !category.isActive)
      ensures !updateOk ==> categories == old(categories)
      ensures expanded == old(expanded) && editing == old(editing)
    {
      if updateOk {
        KeysKept(categories, category.id, "", [], !category.isActive);
        categories := WithActive(categories, category.id, !category.isActive);
      }
    }
  }
}
