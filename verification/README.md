# Student roster table, modelled in Dafny

This project models the state bookkeeping of the `DataTable` React component of a small
"Student Management System": a roster of `{id, name, gender, age}` records, an add form
with validation, a case-insensitive search on names, pages of three rows, inline editing
guarded by the one active editor, and deletion with a correction of the current page.

React keeps the component's state in several `useState` hooks, and every handler computes
new values and replaces the old ones. The model keeps all of it in one immutable record,
`DataTable.State`, with one pure function per user event:

| event | function |
|---|---|
| typing in the search box (with the page-reset effect folded in) | `DataTable.Search` |
| clicking a page button (`paginate`, and the click ends inline editing) | `DataTable.PageClick` |
| typing in an add-form input | `DataTable.InputChange` |
| clicking ADD (`handleAddClick`, and the click ends inline editing) | `DataTable.AddButtonClick` |
| clicking a row's Edit button | `DataTable.StartEdit` |
| any other click outside the table, such as into the form or the search box | `DataTable.ClickOutside` |
| a cell losing focus in edit mode | `DataTable.Edit` |
| clicking a row's Delete button | `DataTable.Delete` |

The page buttons and ADD lie outside the table, so the document's capture-phase click
listener (lines 37-46 of `src/DataTable.jsx`) ends inline editing on the same click.
`DataTable.PageClick` and `DataTable.AddButtonClick` are therefore `DataTable.ClickOutside`
followed by the handler, `DataTable.Paginate` or `DataTable.AddClick`. The Edit and Delete
buttons lie inside the table, so their clicks leave the editor as it is.

The derived views are `DataTable.Rows` (the filtered records), `DataTable.Visible` (the
rows of the current page) and `DataTable.Buttons` (the number of page buttons).

Modules:

- `Wrappers`: `Option`.
- `Seqs`: the order-preserving `Filter` that models `Array.prototype.filter`, with its
  characterisation as a selection of ascending positions and its algebra (append,
  commutation, complement).
- `Text`: ASCII lower-casing, substring search (`includes`), ECMAScript `trim`, and the
  decimal reading of the age input.
- `Paging`: page count and page slice for pages of three rows.
- `Roster`: records, inline-edit patches, the name filter, id uniqueness.
- `Form`: the add form's fields, draft and `validateForm`.
- `DataTable`: the component state and its events.
- `TableProperties`: properties relating several events or views, and worked scenarios.

Behaviour of the component worth knowing, as the model has it:

- A successful add leaves the error map as it was. A message is blanked only when the
  user types in its field (line 60).
- Delete steps the page back when the current page shows exactly one row and is not
  page 1 (lines 100-101). It does not check that the deleted record is that row; only
  visible rows have a Delete button, so in use it is.
- The search resets the page only when the term changes, since the reset is an effect
  that depends on the term (lines 24-26).
- Gender is validated as free text, blank or not (line 66), not as one of the options of
  the select.
- Inline edits are not validated (lines 88-97). `TableProperties.EditSkipsValidation`
  shows an edit that blanks a valid record's name.
- Only Delete corrects the current page. `TableProperties.EditCanStrandPage` shows an
  edit that renames the only row of page 2 out of the search and leaves page 2 empty.
  `TableProperties.DeleteKeepsPageInRange` proves that deleting a visible row keeps the
  page within the buttons when ids are unique.

## Model

| member | source | states |
|---|---|---|
| Seqs.Filter | src/DataTable.jsx:18-20 | the result keeps only elements the predicate accepts, keeps every accepted element, and is no longer than the input |
| Seqs.FilterSelects | src/DataTable.jsx:18-20 | the filter result is the input read at strictly ascending positions, and those positions are exactly the accepted ones |
| Seqs.FilterIsSubsequence | src/DataTable.jsx:18-20 | the filter result is a subsequence of the input |
| Seqs.FilterAppend | src/DataTable.jsx:18-20 | filtering a concatenation is the concatenation of the filtered parts |
| Seqs.FilterCommutes | src/DataTable.jsx:18-20 | two filters give the same result in either order |
| Seqs.FilterComplement | src/DataTable.jsx:103 | a predicate and its negation split the input: their result lengths add up to the input length |
| Seqs.FilterSameKeep | src/DataTable.jsx:18-20 | filters with pointwise-equal predicates give equal results |
| Seqs.FilterAll | src/DataTable.jsx:18-20 | a filter that accepts every element returns the input unchanged |
| Text.LowerChar | src/DataTable.jsx:19 | lower-casing leaves no ASCII capital, maps capitals to small letters and leaves every other character alone |
| Text.Lower | src/DataTable.jsx:19 | `toLowerCase`: same length, each character lower-cased on its own |
| Text.LowerIdempotent | src/DataTable.jsx:19 | lower-casing a lower-cased string changes nothing |
| Text.Contains | src/DataTable.jsx:19 | `includes`: the empty needle is always included, and a needle longer than the name never is |
| Text.ContainsIff | src/DataTable.jsx:19 | `includes` holds exactly when the needle occurs at some position of the name |
| Text.TrimStart | src/DataTable.jsx:65-66 | the result is a suffix of the input, does not start with white space, and everything removed is white space |
| Text.TrimEnd | src/DataTable.jsx:65-66 | the result is a prefix of the input, does not end with white space, and everything removed is white space |
| Text.Trim | src/DataTable.jsx:65-66 | `trim` returns a stretch of the input with only white space before and after it and none at either of its own ends, and gives the empty string exactly when the input is all white space |
| Text.TrimmedAtEnds | src/DataTable.jsx:65-66 | removing leading and then trailing white space leaves a stretch of the input framed by white space on both sides |
| Text.AgeNumber | src/DataTable.jsx:67 | the number the age check coerces the text to: a number exactly when the text is a digit run with an optional minus sign; a minus sign gives a value of at most 0 |
| Text.ParseShow | src/DataTable.jsx:67 | reading back the numeral of any integer gives that integer |
| Text.ShowDigitsValue | src/DataTable.jsx:67 | a digit run without leading zeros is the numeral of the value it reads as |
| Text.ParseCanonical | src/DataTable.jsx:67 | a digit run without leading zeros parses to its value and that value's numeral is the run itself |
| Paging.PageCount | src/DataTable.jsx:216-217 | the button count is the least count whose pages hold all rows, so it is ceil(n / 3) and 0 exactly when nothing matches |
| Paging.PageView | src/DataTable.jsx:13-21 | page p holds at most 3 rows, row k of it is filtered row 3(p-1)+k, it ends at min(3p, n), and it is empty exactly when p is past the last button |
| Paging.PageOf | src/DataTable.jsx:13-21 | filtered row i is shown on page i/3+1, at position i mod 3, and that page has a button |
| Paging.PagesFromSuffix | src/DataTable.jsx:13-21 | pages p onwards, read in order, are exactly the filtered rows from 3(p-1) onwards |
| Paging.PagesCover | src/DataTable.jsx:216-228 | reading all pages in order gives back the filtered rows: nothing lost, repeated or reordered |
| Roster.Merge | src/DataTable.jsx:93-95 | an edited record keeps its id, takes every field the edit supplies and keeps every field it does not |
| Roster.Filtered | src/DataTable.jsx:18-20 | the filtered view holds only roster records whose lower-cased name contains the lower-cased term, and every such record |
| Roster.FilteredSelects | src/DataTable.jsx:18-20 | the filtered view is the roster read at exactly the matching positions, in roster order |
| Roster.NameMatchesIff | src/DataTable.jsx:19 | a record matches exactly when the lower-cased term occurs in its lower-cased name; the empty term matches every record |
| Roster.FilteredIgnoresCase | src/DataTable.jsx:19 | searching for the lower-cased term gives the same rows as the term itself |
| Roster.FilteredEmptyTerm | src/DataTable.jsx:18-20 | the empty search keeps the whole roster |
| Roster.UniqueIdsAtMostOne | src/DataTable.jsx:99-105 | with unique ids, at most one record carries a given id |
| Form.Draft.With | src/DataTable.jsx:59 | setting one input changes that field to the new text and no other field |
| Form.Fails | src/DataTable.jsx:65-68 | the name fails exactly when all white space, likewise the gender, and the age passes exactly when it is an unsigned digit run of positive value |
| Form.Validate | src/DataTable.jsx:63-70 | a name error exactly when the name is all white space, a gender error exactly when the gender is, an age error exactly unless the age is a positive digit run, each with its message, and no errors exactly when all three pass |
| Form.ValidateIsPerField | src/DataTable.jsx:58-70 | changing one input leaves the verdict on the other two inputs unchanged |
| DataTable.Init | src/DataTable.jsx:6-11 | the mount state is page 1 of an empty roster with an empty search term, no buttons, no editor, an empty form and no errors |
| DataTable.Rows | src/DataTable.jsx:18-20 | a record is a filtered row exactly when it is in the roster and its name matches the search term; an empty search shows the whole roster |
| DataTable.Visible | src/DataTable.jsx:13-21 | the current page shows the filtered rows from position (page - 1) * 3 on, at most 3 of them and fewer only at the end of the filtered rows, and none exactly when the page is past the last button |
| DataTable.Buttons | src/DataTable.jsx:216-217 | the button count is the fewest pages of 3 that hold every filtered row, `Math.ceil(n / 3)`, so none exactly when nothing matches |
| DataTable.EditAllowed | src/DataTable.jsx:89-91 | a commit passes the guard only when `editId` is that record's id, and always then unless the id is the falsy 0 |
| DataTable.Search | src/DataTable.jsx:24-26 | the term is stored; a changed term resets the page to 1; the same term changes nothing; nothing else changes |
| DataTable.Paginate | src/DataTable.jsx:52 | the clicked page becomes current and nothing else changes |
| DataTable.PageClick | src/DataTable.jsx:37-52 | a page-button click makes the page current and ends inline editing, nothing else changes |
| DataTable.InputChange | src/DataTable.jsx:58-61 | the typed field takes the text, the other fields keep theirs; that field's error key is kept with an empty message so no error shows, and other errors are unchanged |
| DataTable.AddClick | src/DataTable.jsx:72-86 | on a passing draft exactly one record with the new id and the draft's name, gender and age is appended and the form empties, errors untouched; on a failing draft only the errors change, to the validation result |
| DataTable.AddButtonClick | src/DataTable.jsx:37-46 | clicking ADD ends inline editing and otherwise does exactly what `handleAddClick` does |
| DataTable.StartEdit | src/DataTable.jsx:195-199 | the clicked record becomes the one in edit mode and nothing else changes |
| DataTable.ClickOutside | src/DataTable.jsx:37-45 | no record is in edit mode afterwards and nothing else changes |
| DataTable.Edit | src/DataTable.jsx:88-97 | a commit for a record other than the active editor's changes nothing; otherwise length, order and ids are kept, records of other ids are unchanged and records of that id take the patch |
| DataTable.Delete | src/DataTable.jsx:99-105 | every record with the id is removed and every other record kept; the page drops by one exactly when the page showed one row and was not page 1, and otherwise stays |
| TableProperties.SearchKeepsPageInRange | src/DataTable.jsx:24-26 | a search keeps the current page within the buttons |
| TableProperties.PaginateShowsRows | src/DataTable.jsx:216-228 | clicking a rendered button lands on a page with one to three rows, within the buttons |
| TableProperties.AddExtendsRows | src/DataTable.jsx:72-86 | after an add the filtered view is the old one, followed by the new record when it was created and matches the search |
| TableProperties.AddKeepsPageInRange | src/DataTable.jsx:72-86 | an add keeps the current page within the buttons |
| TableProperties.AddKeepsRecordsValid | src/DataTable.jsx:63-86 | every record the add form creates has a non-blank name and gender and a positive age |
| TableProperties.AddKeepsIdsUnique | src/DataTable.jsx:75-81 | an add with a fresh id keeps ids unique |
| TableProperties.EditSessionGuard | src/DataTable.jsx:43-91 | after Edit is clicked only commits for that record go through, none for id 0; after a click outside the table, a page-button click included, no commit does |
| TableProperties.EditIdempotent | src/DataTable.jsx:88-97 | committing the same value twice equals committing it once |
| TableProperties.EditKeepsIdsUnique | src/DataTable.jsx:93-95 | an edit keeps ids unique |
| TableProperties.EditSkipsValidation | src/DataTable.jsx:88-97 | an edit can blank the name of a valid record |
| TableProperties.EditCanStrandPage | src/DataTable.jsx:88-97 | an edit can leave the current page past the last button, showing no rows |
| TableProperties.DeleteKeepsOrder | src/DataTable.jsx:103 | after a delete the roster is the old one read at exactly the positions of other ids, in order |
| TableProperties.DeleteKeepsIdsUnique | src/DataTable.jsx:103 | a delete keeps ids unique |
| TableProperties.DeleteRows | src/DataTable.jsx:18-20 | after a delete the filtered rows are the old filtered rows without that id |
| TableProperties.DeleteRemovesOneRow | src/DataTable.jsx:99-105 | with unique ids, deleting a row of the current page removes exactly one filtered row |
| TableProperties.RemoveOne | src/DataTable.jsx:103 | removing an id that one record carries, and no other, shortens the rows by exactly one |
| TableProperties.DeleteKeepsPageInRange | src/DataTable.jsx:99-105 | with unique ids, deleting a row of the current page keeps the page within the buttons |
| TableProperties.ValidDraftPasses | src/DataTable.jsx:63-70 | the draft ("Alice", "female", "20") passes validation with age 20 |
| TableProperties.AddScenario | src/DataTable.jsx:72-86 | adding that draft to the empty table creates exactly that record, empties the form and leaves no errors |
| TableProperties.NegativeAgeErrors | src/DataTable.jsx:63-70 | the draft ("Bob", "male", "-5") fails on the age alone |
| TableProperties.NegativeAgeScenario | src/DataTable.jsx:72-86 | adding that draft leaves the roster empty and reports only "Valid age is required" |
| TableProperties.FourRecordsVisible | src/DataTable.jsx:13-21 | with four records and no search term, page 2 shows the fourth record alone |
| TableProperties.FourRecordsOneId | src/DataTable.jsx:103 | exactly one of the four records carries id 4 |
| TableProperties.DeleteScenario | src/DataTable.jsx:99-105 | with four records and page 2 showing the fourth, deleting it leaves three records and page 1 |

## Left out

- Rendering (JSX, CSS, the table markup and button styles, lines 107-243) is not modelled; only the values it reads are.
- Focusing the first cell of the record entering edit mode (lines 29-34) is a DOM side effect with no effect on state.
- Registering and removing the click listener and its capture-phase ordering (lines 37-50) are browser plumbing; only their effect is modelled, as `DataTable.ClickOutside`, which the page-button and ADD clicks include. A click into a form input or the search box is `DataTable.ClickOutside` followed by the typing events.
- CSV export (lines 234-240) is a wrapper around a library that is not part of this model, with a locale-dependent timestamp in its file name.
- The new record's id comes from the clock (`Date.now()`, line 76); `DataTable.AddClick` takes it as a parameter, and uniqueness is assumed only where a lemma says so.
- `parseInt` of an edited age cell (line 189) is not modelled; the edit supplies its result as an `Age`, `NaN` when nothing was parsed.
- An edit patch never carries an `id`, because no call site in the component supplies one.
- `DataTable.AddClick` stores the parsed age (`Years(n)`) where the component stores the form's text; the text it accepts is a digit run, so the two carry the same number.
- Text.AgeNumber: reads only decimal integer numerals with an optional minus sign; JavaScript's number coercion also accepts fractions, exponents and surrounding white space (so "1.5" passes the component's age check but not the model's).
- Text.LowerChar: maps only the ASCII capitals, each to its own small letter; `toLowerCase` follows the full Unicode case mapping.
- React's scheduling of state updates and effects is not modelled; each event yields its final state at once, with the page reset folded into the search.
