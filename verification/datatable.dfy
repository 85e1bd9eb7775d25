/** The `DataTable` component as a state machine: one immutable state, one function per
    user event, and the derived filtered and page views. */
module DataTable {
  import opened Wrappers
  import opened Seqs
  import opened Text
  import opened Paging
  import opened Roster
  import opened Form

  /** Everything the component keeps between renders. `editId` is the record in inline
      edit mode (`false` in the component when there is none). */
  datatype State = State(
    data: seq<Record>,
    editId: Option<Id>,
    form: Draft,
    search: string,
    page: Page,
    errors: Errors)

  /** The state at mount: page 1 of an empty roster, no editor, an empty form. */
  function Init(): (r: State)
    ensures r.data == [] && r.search == "" && r.page == 1
    ensures Rows(r) == [] && Buttons(r) == 0 && PageInRange(r)
    ensures r.editId.None? && r.form == EmptyDraft && r.errors == map[]
  {
    State([], None, EmptyDraft, "", 1, map[])
  }

  /** `filteredItems`: the records whose name matches the search term; with an empty
      term, the whole roster. */
  function Rows(s: State): (r: seq<Record>)
    ensures |r| <= |s.data|
    ensures forall k :: 0 <= k < |r| ==> r[k] in s.data
    ensures forall x :: x in r <==> x in s.data && NameMatches(s.search, x)
    ensures s.search == "" ==> r == s.data
  {
    FilteredEmptyTerm(s.data);
    Filtered(s.data, s.search)
  }

  /** `filteredData`: the filtered rows from position `(page - 1) * PageSize` on, at most
      a page of them, cut short only by the end of the filtered rows, and none when the
      page is past the last button. */
  function Visible(s: State): (r: seq<Record>)
    ensures |r| <= PageSize
    ensures forall k :: 0 <= k < |r| ==> r[k] in Rows(s)
    ensures forall k :: 0 <= k < |r| ==>
      (s.page - 1) * PageSize + k < |Rows(s)| && r[k] == Rows(s)[(s.page - 1) * PageSize + k]
    ensures s.page <= Buttons(s) ==> (s.page - 1) * PageSize + |r| == Min(s.page * PageSize, |Rows(s)|)
    ensures r == [] <==> s.page > Buttons(s)
  {
    PageView(Rows(s), s.page)
  }

  /** The number of page buttons rendered: the fewest pages that hold every filtered
      row, so none when nothing matches. */
  function Buttons(s: State): (n: nat)
    ensures n * PageSize >= |Rows(s)|
    ensures n > 0 ==> (n - 1) * PageSize < |Rows(s)|
    ensures n == 0 <==> Rows(s) == []
  {
    PageCount(|Rows(s)|)
  }

  /** The current page is one of the buttons, or page 1 when there are none. */
  predicate PageInRange(s: State) {
    s.page <= Max(1, Buttons(s))
  }

  /** Typing in the search box. The page-reset effect depends on the term, so it fires
      only when the term actually changes. */
  function Search(s: State, term: string): (r: State)
    ensures r.search == term
    ensures term != s.search ==> r.page == 1
    ensures term == s.search ==> r == s
    ensures r == s.(search := term, page := r.page)
  {
    if term == s.search then s else s.(search := term, page := 1)
  }

  /** `paginate(p)`: page `p` becomes current. */
  function Paginate(s: State, p: Page): (r: State)
    ensures r.page == p
    ensures r == s.(page := p)
  {
    s.(page := p)
  }

  /** Clicking page button `p`. The buttons lie outside the table, so the document's
      click listener also ends inline editing on the same click. */
  function PageClick(s: State, p: Page): (r: State)
    ensures r.page == p && r.editId.None?
    ensures r == s.(page := p, editId := None)
  {
    Paginate(ClickOutside(s), p)
  }

  /** Editing input `f` of the add form: the field takes the new text and that field's
      error message is blanked (its key stays, with an empty message). */
  function InputChange(s: State, f: Field, v: string): (r: State)
    ensures r.form.Get(f) == v
    ensures forall g :: g != f ==> r.form.Get(g) == s.form.Get(g)
    ensures r.errors.Keys == s.errors.Keys + {f}
    ensures !Shown(r.errors, f)
    ensures forall g :: g != f && g in s.errors ==> r.errors[g] == s.errors[g]
    ensures r == s.(form := r.form, errors := r.errors)
  {
    s.(form := s.form.With(f, v), errors := s.errors[f := ""])
  }

  /** Clicking ADD with `newId` as the fresh id. When validation passes, the draft
      becomes a record at the end of the roster and the form is emptied; the error map
      is left as it is. Otherwise only the error map changes, to the validation result. */
  function AddClick(s: State, newId: Id): (r: State)
    ensures Validate(s.form) == map[] ==>
      && |r.data| == |s.data| + 1
      && r.data[..|s.data|] == s.data
      && r.data[|s.data|] == Record(newId, s.form.name, s.form.gender, Years(DigitsValue(s.form.age)))
      && r == s.(data := r.data, form := EmptyDraft)
    ensures Validate(s.form) != map[] ==> r == s.(errors := Validate(s.form))
  {
    var formErrors := Validate(s.form);
    if |formErrors| == 0 then
      var age := AgeNumber(s.form.age);
      var item := Record(newId, s.form.name, s.form.gender, Years(age.value));
      s.(data := s.data + [item], form := EmptyDraft)
    else
      s.(errors := formErrors)
  }

  /** Clicking ADD. The button lies outside the table, so the click also ends inline
      editing; apart from that it is `AddClick`. */
  function AddButtonClick(s: State, newId: Id): (r: State)
    ensures r.editId.None?
    ensures r.(editId := s.editId) == AddClick(s, newId)
  {
    AddClick(ClickOutside(s), newId)
  }

  /** The Edit button of record `id`; it lies inside the table, so it opens the editor
      without the click listener closing it. */
  function StartEdit(s: State, id: Id): (r: State)
    ensures r.editId == Some(id)
    ensures r == s.(editId := Some(id))
  {
    s.(editId := Some(id))
  }

  /** A click outside the table ends inline editing. */
  function ClickOutside(s: State): (r: State)
    ensures r.editId.None?
    ensures r == s.(editId := None)
  {
    s.(editId := None)
  }

  /** `handleEdit` proceeds only when `editId` is set, truthy, and equal to `id`
      (an id of 0 is falsy in JavaScript). */
  predicate EditAllowed(editId: Option<Id>, id: Id)
    ensures EditAllowed(editId, id) ==> editId == Some(id)
    ensures editId == Some(id) && id != 0 ==> EditAllowed(editId, id)
  {
    editId.Some? && editId.value != 0 && editId.value == id
  }

  /** An inline cell commit for record `id`. */
  function Edit(s: State, id: Id, p: Patch): (r: State)
    ensures !EditAllowed(s.editId, id) ==> r == s
    ensures r == s.(data := r.data)
    ensures |r.data| == |s.data|
    ensures forall i :: 0 <= i < |s.data| ==> r.data[i].id == s.data[i].id
    ensures forall i :: 0 <= i < |s.data| && s.data[i].id != id ==> r.data[i] == s.data[i]
    ensures forall i :: 0 <= i < |s.data| && s.data[i].id == id && EditAllowed(s.editId, id) ==>
      r.data[i] == Merge(s.data[i], p)
  {
    if !EditAllowed(s.editId, id) then s
    else
      var updated := seq(|s.data|, i requires 0 <= i < |s.data| =>
        if s.data[i].id == id then Merge(s.data[i], p) else s.data[i]);
      s.(data := updated)
  }

  /** Clicking Delete on record `id`: every record with that id leaves the roster, the
      rest keep their order, and the page steps back by one when the current page
      showed a single row and is not page 1. */
  function Delete(s: State, id: Id): (r: State)
    ensures forall k :: 0 <= k < |r.data| ==> r.data[k] in s.data && r.data[k].id != id
    ensures forall i :: 0 <= i < |s.data| && s.data[i].id != id ==> s.data[i] in r.data
    ensures |r.data| + |Filter(s.data, HasId(id))| == |s.data|
    ensures r.page == s.page - 1 <==> |Visible(s)| == 1 && s.page != 1
    ensures r.page == s.page || r.page == s.page - 1
    ensures r == s.(data := r.data, page := r.page)
  {
    var page: Page := if |Visible(s)| == 1 && s.page != 1 then s.page - 1 else s.page;
    FilterComplement(s.data, HasId(id), OtherId(id));
    s.(data := Filter(s.data, OtherId(id)), page := page)
  }
}
