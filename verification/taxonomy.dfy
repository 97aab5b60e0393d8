/** Genre categories and genres as the submission form sees them, and the
    form's genre-selection helpers. A selection is a duplicate-free sequence
    of genre ids in insertion order, the model of a JavaScript `Set`. */
module Taxonomy {
  import opened Basics

  datatype Category = Category(id: int, name: string, sortOrder: Option<int>)

  /** A genre; `categoryId` is the foreign key to its category. */
  datatype Genre = Genre(id: int, name: string, sortOrder: Option<int>, isActive: Option<bool>, categoryId: Option<int>)

  /** The category tab selected when the categories arrive: the first one's
      id, or none when there are no categories. */
  function InitialActiveCategory(cats: seq<Category>): (r: Option<int>)
    ensures r.None? <==> |cats| == 0
    ensures r.Some? ==> r.value == cats[0].id
  {
    if |cats| == 0 then None else Some(cats[0].id)
  }

  /** A tab counts as selected only when there is one and its id is not 0:
      the page tests the id for truthiness, and 0 is falsy. */
  predicate TabSelected(active: Option<int>) {
    active.Some? && active.value != 0
  }

  /** `visibleGenres`: the genres of the selected category, in load order;
      none at all when no (truthy) tab is selected. A genre without a
      category never matches. */
  function VisibleGenres(gs: seq<Genre>, active: Option<int>): (r: seq<Genre>)
    ensures !TabSelected(active) ==> r == []
    ensures forall g :: multiset(r)[g] == (if TabSelected(active) && g.categoryId == active then multiset(gs)[g] else 0)
  {
    if !TabSelected(active) || |gs| == 0 then []
    else
      assert gs == [gs[0]] + gs[1..];
      (if gs[0].categoryId == active then [gs[0]] else []) + VisibleGenres(gs[1..], active)
  }

  /** The visible genres of one genre: itself when it belongs to the
      selected category, otherwise nothing. */
  lemma VisibleGenresOne(g: Genre, active: Option<int>)
    ensures VisibleGenres([g], active) == if TabSelected(active) && g.categoryId == active then [g] else []
  {
    assert [g][1..] == [];
  }

  /** The visible genres keep load order: those of a list followed by more
      genres are those of the first part followed by those of the rest. With
      `VisibleGenresOne` this fixes the visible list of every load. */
  lemma {:induction false} VisibleGenresConcat(a: seq<Genre>, b: seq<Genre>, active: Option<int>)
    ensures VisibleGenres(a + b, active) == VisibleGenres(a, active) + VisibleGenres(b, active)
    decreases |a|
  {
    if TabSelected(active) && |a| > 0 {
      var head := if a[0].categoryId == active then [a[0]] else [];
      assert (a + b)[0] == a[0];
      assert (a + b)[1..] == a[1..] + b;
      assert VisibleGenres(a + b, active) == head + VisibleGenres(a[1..] + b, active);
      assert VisibleGenres(a, active) == head + VisibleGenres(a[1..], active);
      VisibleGenresConcat(a[1..], b, active);
      AppendAssoc(head, VisibleGenres(a[1..], active), VisibleGenres(b, active));
    } else if |a| == 0 {
      assert a + b == b;
      assert VisibleGenres(a, active) == [];
    } else {
      assert VisibleGenres(a + b, active) == [] && VisibleGenres(a, active) == [] && VisibleGenres(b, active) == [];
    }
  }

  lemma AppendAssoc<T>(x: seq<T>, y: seq<T>, z: seq<T>)
    ensures x + (y + z) == (x + y) + z
  {
  }

  /** No genre after index `i` has the id of `gs[i]`. */
  predicate LastWithId(gs: seq<Genre>, i: nat)
    requires i < |gs|
  {
    forall j :: i < j < |gs| ==> gs[j].id != gs[i].id
  }

  /** The name a genre id maps to in the page's id-to-name map, built from
      the genres in load order: for repeated ids the last genre wins. */
  function NameOf(gs: seq<Genre>, id: int): (r: Option<string>)
    ensures r.None? <==> forall i :: 0 <= i < |gs| ==> gs[i].id != id
    ensures r.Some? ==> exists i :: 0 <= i < |gs| && gs[i].id == id && gs[i].name == r.value && LastWithId(gs, i)
  {
    if |gs| == 0 then None
    else if gs[|gs| - 1].id == id then Some(gs[|gs| - 1].name)
    else NameOf(gs[..|gs| - 1], id)
  }

  /** The selected id has a genre whose name is not empty. */
  predicate Named(gs: seq<Genre>, id: int) {
    NameOf(gs, id).Some? && NameOf(gs, id).value != ""
  }

  /** The preview of the selection: the name of each selected id, in
      selection order; ids without a genre, and genres with an empty name,
      are dropped. */
  function SelectedNames(sel: seq<int>, gs: seq<Genre>): (r: seq<string>)
    ensures |r| <= |sel|
    ensures forall n :: n in r <==> n != "" && exists k :: 0 <= k < |sel| && NameOf(gs, sel[k]) == Some(n)
  {
    if |sel| == 0 then []
    else
      var rest := SelectedNames(sel[1..], gs);
      assert forall k :: 1 <= k < |sel| ==> sel[k] == sel[1..][k - 1];
      (if Named(gs, sel[0]) then [NameOf(gs, sel[0]).value] else []) + rest
  }

  /** The preview of one id: its name when it is named, otherwise nothing. */
  lemma SelectedNamesOne(id: int, gs: seq<Genre>)
    ensures SelectedNames([id], gs) == if Named(gs, id) then [NameOf(gs, id).value] else []
  {
    assert [id][1..] == [];
  }

  /** The preview keeps selection order: the preview of a selection followed
      by more ids is the preview of the first part followed by that of the
      rest. With `SelectedNamesOne` this fixes the preview of every
      selection. */
  lemma {:induction false} SelectedNamesConcat(a: seq<int>, b: seq<int>, gs: seq<Genre>)
    ensures SelectedNames(a + b, gs) == SelectedNames(a, gs) + SelectedNames(b, gs)
    decreases |a|
  {
    if |a| > 0 {
      assert (a + b)[0] == a[0];
      assert (a + b)[1..] == a[1..] + b;
      SelectedNamesConcat(a[1..], b, gs);
    } else {
      assert a + b == b;
    }
  }

  /** When every selected id names a genre with a non-empty name, the preview
      lists one name per selected id, in selection order. */
  lemma {:induction false} SelectedNamesComplete(sel: seq<int>, gs: seq<Genre>)
    requires forall k :: 0 <= k < |sel| ==> NameOf(gs, sel[k]).Some? && NameOf(gs, sel[k]).value != ""
    ensures |SelectedNames(sel, gs)| == |sel|
    ensures forall k :: 0 <= k < |sel| ==> SelectedNames(sel, gs)[k] == NameOf(gs, sel[k]).value
  {
    if |sel| > 0 {
      SelectedNamesComplete(sel[1..], gs);
    }
  }

  /** `toggleGenre`: removes the id when selected, otherwise appends it. */
  function Toggle(sel: seq<int>, id: int): (r: seq<int>)
    ensures NoDup(sel) ==> NoDup(r)
    ensures forall x :: x in r <==> if x == id then id !in sel else x in sel
    ensures id !in sel ==> r == sel + [id]
    ensures NoDup(sel) && id in sel ==> r == sel[..IndexOf(sel, id)] + sel[IndexOf(sel, id) + 1..]
  {
    if id in sel then
      if NoDup(sel) then RemoveKeepsOrder(sel, id); Remove(sel, id) else Remove(sel, id)
    else sel + [id]
  }

  /** Toggling the same id twice restores the selection as a set, and exactly
      (order included) when the id was not selected before. */
  lemma ToggleTwice(sel: seq<int>, id: int)
    ensures forall x :: x in Toggle(Toggle(sel, id), id) <==> x in sel
    ensures id !in sel ==> Toggle(Toggle(sel, id), id) == sel
  {
    if id !in sel {
      RemoveLast(sel, id);
    }
  }

  lemma {:induction false} RemoveLast(sel: seq<int>, id: int)
    requires id !in sel
    ensures Remove(sel + [id], id) == sel
  {
    if |sel| > 0 {
      assert (sel + [id])[1..] == sel[1..] + [id];
      RemoveLast(sel[1..], id);
    }
  }
}
