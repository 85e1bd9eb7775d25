/** Properties of the table's events that relate several calls or several views:
    the page invariant, id uniqueness, record validity, and worked scenarios. */
module TableProperties {
  import opened Wrappers
  import opened Seqs
  import opened Text
  import opened Paging
  import opened Roster
  import opened Form
  import opened DataTable

  /** A search keeps the page in range: a new term resets it to page 1, the same term
      changes nothing. */
  lemma SearchKeepsPageInRange(s: State, term: string)
    requires PageInRange(s)
    ensures PageInRange(Search(s, term))
  {
  }

  /** Clicking a rendered button lands on a page that shows at least one row. */
  lemma PaginateShowsRows(s: State, p: Page)
    requires p <= Buttons(s)
    ensures PageInRange(PageClick(s, p))
    ensures 1 <= |Visible(PageClick(s, p))| <= PageSize
  {
  }

  /** After an add the filtered view is the old one, followed by the new record when the
      record was created and its name matches the search. */
  lemma AddExtendsRows(s: State, newId: Id)
    ensures var r := AddClick(s, newId);
      Rows(r) == Rows(s) + (if |r.data| > |s.data| && NameMatches(s.search, r.data[|s.data|]) then [r.data[|s.data|]] else [])
  {
    var r := AddClick(s, newId);
    if |r.data| > |s.data| {
      var item := r.data[|s.data|];
      assert r.data == s.data + [item];
      assert r.search == s.search;
      FilterAppend(s.data, [item], MatchesTerm(s.search));
      assert Filter([item], MatchesTerm(s.search)) == (if NameMatches(s.search, item) then [item] else []);
    } else {
      assert r.data == s.data && r.search == s.search;
    }
  }

  /** An add never strands the current page: rows only grow. */
  lemma AddKeepsPageInRange(s: State, newId: Id)
    requires PageInRange(s)
    ensures PageInRange(AddClick(s, newId))
  {
    AddExtendsRows(s, newId);
  }

  /** Every record that the add form creates passes validation: when all records were
      valid before an add, they all are after it. */
  lemma AddKeepsRecordsValid(s: State, newId: Id)
    requires forall i :: 0 <= i < |s.data| ==> ValidRecord(s.data[i])
    ensures var r := AddClick(s, newId);
      forall i :: 0 <= i < |r.data| ==> ValidRecord(r.data[i])
  {
    var r := AddClick(s, newId);
    if Validate(s.form) == map[] {
      forall i | 0 <= i < |r.data| ensures ValidRecord(r.data[i]) {
        if i < |s.data| {
          assert r.data[i] == r.data[..|s.data|][i];
        }
      }
    }
  }

  /** An add with a fresh id keeps ids unique. */
  lemma AddKeepsIdsUnique(s: State, newId: Id)
    requires UniqueIds(s.data)
    requires forall i :: 0 <= i < |s.data| ==> s.data[i].id != newId
    ensures UniqueIds(AddClick(s, newId).data)
  {
    var r := AddClick(s, newId);
    if Validate(s.form) == map[] {
      forall i, j | 0 <= i < j < |r.data| ensures r.data[i].id != r.data[j].id {
        assert r.data[i] == r.data[..|s.data|][i];
        if j < |s.data| {
          assert r.data[j] == r.data[..|s.data|][j];
        }
      }
    }
  }

  /** The Edit button opens exactly one editor: afterwards only commits for that record
      go through (none if its id is the falsy 0), and after a click outside the table,
      such as a page button, none do. */
  lemma EditSessionGuard(s: State, id: Id, other: Id, p: Patch)
    ensures EditAllowed(StartEdit(s, id).editId, other) <==> other == id && id != 0
    ensures Edit(ClickOutside(s), other, p) == ClickOutside(s)
    ensures other != id ==> Edit(StartEdit(s, id), other, p) == StartEdit(s, id)
    ensures forall q: Page :: Edit(PageClick(StartEdit(s, id), q), other, p) == PageClick(StartEdit(s, id), q)
  {
  }

  /** Committing the same cell value twice is the same as committing it once. */
  lemma EditIdempotent(s: State, id: Id, p: Patch)
    ensures Edit(Edit(s, id, p), id, p) == Edit(s, id, p)
  {
    var once := Edit(s, id, p);
    var twice := Edit(once, id, p);
    assert twice.data == once.data;
  }

  /** An edit keeps ids, so it keeps them unique. */
  lemma EditKeepsIdsUnique(s: State, id: Id, p: Patch)
    requires UniqueIds(s.data)
    ensures UniqueIds(Edit(s, id, p).data)
  {
  }

  /** Inline edits are not validated: an edit can blank the name of a record that was
      valid, which the add form would have refused. */
  lemma EditSkipsValidation()
    ensures var s := State([Record(7, "Ann", "female", Years(20))], Some(7), EmptyDraft, "", 1, map[]);
      && ValidRecord(s.data[0])
      && !ValidRecord(Edit(s, 7, Patch(Some(" "), None, None)).data[0])
  {
    var s := State([Record(7, "Ann", "female", Years(20))], Some(7), EmptyDraft, "", 1, map[]);
    assert !AllWhitespace("Ann") by { assert !IsWhitespace("Ann"[0]); }
    assert !AllWhitespace("female") by { assert !IsWhitespace("female"[0]); }
  }

  /** Four records named "a", the last of them alone on page 2 of the search for "a". */
  function StrandExample(): State {
    State([Record(1, "a", "m", Years(1)), Record(2, "a", "m", Years(1)),
           Record(3, "a", "m", Years(1)), Record(4, "a", "m", Years(1))],
          Some(4), EmptyDraft, "a", 2, map[])
  }

  lemma StrandExampleRows()
    ensures Rows(StrandExample()) == StrandExample().data
  {
    var s := StrandExample();
    forall i | 0 <= i < |s.data| ensures MatchesTerm("a")(s.data[i]) {
      assert Lower(s.data[i].name) == "a";
      assert "a" <= "a";
    }
    FilterAll(s.data, MatchesTerm("a"));
  }

  lemma StrandExampleRowsAfterEdit()
    ensures Rows(Edit(StrandExample(), 4, Patch(Some("b"), None, None))) == StrandExample().data[..3]
  {
    var s := StrandExample();
    var r := Edit(s, 4, Patch(Some("b"), None, None));
    var renamed := Record(4, "b", "m", Years(1));
    assert r.data == s.data[..3] + [renamed];
    assert !NameMatches("a", renamed) by {
      assert Lower("b") == "b";
      assert "b"[0] != "a"[0];
      assert "b"[1..] == [];
    }
    forall i | 0 <= i < 3 ensures MatchesTerm("a")(s.data[..3][i]) {
      assert Lower(s.data[i].name) == "a";
      assert "a" <= "a";
    }
    FilterAll(s.data[..3], MatchesTerm("a"));
    FilterAppend(s.data[..3], [renamed], MatchesTerm("a"));
  }

  /** The page is only corrected on delete: an edit that renames the sole row of the
      last page out of the search leaves the current page past the last button. */
  lemma EditCanStrandPage()
    ensures var s := StrandExample();
      && PageInRange(s) && |Visible(s)| == 1
      && var r := Edit(s, 4, Patch(Some("b"), None, None));
      && !PageInRange(r) && Visible(r) == []
  {
    StrandExampleRows();
    StrandExampleRowsAfterEdit();
  }

  /** Delete keeps the surviving records in their original order: the new roster is the
      old one read at exactly the positions whose id differs. */
  lemma DeleteKeepsOrder(s: State, id: Id) returns (idx: seq<nat>)
    ensures SelectedAt(Delete(s, id).data, s.data, OtherId(id), idx)
  {
    idx := FilterSelects(s.data, OtherId(id));
  }

  /** Ids stay unique after a delete. */
  lemma DeleteKeepsIdsUnique(s: State, id: Id)
    requires UniqueIds(s.data)
    ensures UniqueIds(Delete(s, id).data)
  {
    var r := Delete(s, id);
    var idx := DeleteKeepsOrder(s, id);
    forall i, j | 0 <= i < j < |r.data| ensures r.data[i].id != r.data[j].id {
      assert idx[i] < idx[j];
    }
  }

  /** After a delete the filtered rows are the old filtered rows without that id. */
  lemma DeleteRows(s: State, id: Id)
    ensures Rows(Delete(s, id)) == Filter(Rows(s), OtherId(id))
  {
    FilterCommutes(s.data, OtherId(id), MatchesTerm(s.search));
  }

  /** With unique ids, deleting a row of the current page removes exactly one
      filtered row. */
  lemma DeleteRemovesOneRow(s: State, id: Id)
    requires UniqueIds(s.data)
    requires exists k :: 0 <= k < |Visible(s)| && Visible(s)[k].id == id
    ensures |Rows(Delete(s, id))| == |Rows(s)| - 1
  {
    var f := Rows(s);
    DeleteRows(s, id);
    assert |Filter(f, HasId(id))| <= 1 by {
      FilterCommutes(s.data, HasId(id), MatchesTerm(s.search));
      UniqueIdsAtMostOne(s.data, id);
    }
    var k :| 0 <= k < |Visible(s)| && Visible(s)[k].id == id;
    RemoveOne(f, Visible(s)[k]);
  }

  /** Removing the id of a record that occurs in `f`, when at most one record of `f`
      carries that id, shortens `f` by exactly one. */
  lemma RemoveOne(f: seq<Record>, x: Record)
    requires x in f && |Filter(f, HasId(x.id))| <= 1
    ensures |Filter(f, OtherId(x.id))| == |f| - 1
  {
    FilterComplement(f, HasId(x.id), OtherId(x.id));
    var i :| 0 <= i < |f| && f[i] == x;
    assert f[i] in Filter(f, HasId(x.id));
  }

  /** Deleting a row of the current page keeps the page in range: removing the sole
      row of a later page moves back one page, and every other delete leaves at least
      one row on the current page. */
  lemma DeleteKeepsPageInRange(s: State, id: Id)
    requires PageInRange(s)
    requires UniqueIds(s.data)
    requires exists k :: 0 <= k < |Visible(s)| && Visible(s)[k].id == id
    ensures PageInRange(Delete(s, id))
  {
    DeleteRemovesOneRow(s, id);
    var n, v := |Rows(s)|, |Visible(s)|;
    assert 1 <= v && s.page <= PageCount(n);
    assert (s.page - 1) * PageSize + v == Min(s.page * PageSize, n);
  }

  /** A draft with a name, a gender and a positive age passes validation. */
  lemma ValidDraftPasses()
    ensures var d := Draft("Alice", "female", "20");
      Validate(d) == map[] && DigitsValue(d.age) == 20
  {
    var d := Draft("Alice", "female", "20");
    assert !AllWhitespace(d.name) by { assert !IsWhitespace(d.name[0]); }
    assert !AllWhitespace(d.gender) by { assert !IsWhitespace(d.gender[0]); }
    assert DigitsValue(d.age) == 20 by {
      assert d.age[..1] == "2";
      assert "2"[..0] == "";
    }
  }

  /** Adding a valid draft to the empty table creates the one record and empties the form. */
  lemma AddScenario()
    ensures var s := Init().(form := Draft("Alice", "female", "20"));
      var r := AddClick(s, 1);
      && r.data == [Record(1, "Alice", "female", Years(20))]
      && r.form == EmptyDraft
      && r.errors == map[]
  {
    ValidDraftPasses();
  }

  /** The validation verdict on a draft whose age is negative. */
  lemma NegativeAgeErrors()
    ensures var d := Draft("Bob", "male", "-5");
      NameField !in Validate(d) && GenderField !in Validate(d) && AgeField in Validate(d)
  {
    var d := Draft("Bob", "male", "-5");
    assert !AllWhitespace(d.name) by { assert !IsWhitespace(d.name[0]); }
    assert !AllWhitespace(d.gender) by { assert !IsWhitespace(d.gender[0]); }
    assert !IsDigits(d.age) by { assert !IsDigit(d.age[0]); }
  }

  /** A negative age is refused with the age message alone, and the roster is untouched. */
  lemma NegativeAgeScenario()
    ensures var s := Init().(form := Draft("Bob", "male", "-5"));
      var r := AddClick(s, 1);
      && r.data == []
      && NameField !in r.errors && GenderField !in r.errors
      && AgeField in r.errors && r.errors[AgeField] == "Valid age is required"
  {
    var d := Draft("Bob", "male", "-5");
    NegativeAgeErrors();
    var s := Init().(form := d);
    assert Validate(d) != map[];
  }

  /** The four-record roster of the delete scenario, on page 2 with no search term. */
  function FourRecords(): State {
    State([Record(1, "a", "m", Years(1)), Record(2, "b", "m", Years(1)),
           Record(3, "c", "m", Years(1)), Record(4, "d", "m", Years(1))],
          None, EmptyDraft, "", 2, map[])
  }

  /** With no search term every record is shown, so page 2 holds the fourth alone. */
  lemma FourRecordsVisible()
    ensures Rows(FourRecords()) == FourRecords().data
    ensures |Visible(FourRecords())| == 1
  {
    FilteredEmptyTerm(FourRecords().data);
  }

  /** Exactly one of the four records carries id 4. */
  lemma FourRecordsOneId()
    ensures |Filter(FourRecords().data, HasId(4))| == 1
  {
    var d := FourRecords().data;
    FilterAppend(d[..3], [d[3]], HasId(4));
    FilterNone(d[..3], HasId(4));
    assert d == d[..3] + [d[3]];
  }

  /** Four records on pages of three: deleting the sole row of page 2 returns to page 1. */
  lemma DeleteScenario()
    ensures var s := State([Record(1, "a", "m", Years(1)), Record(2, "b", "m", Years(1)),
                            Record(3, "c", "m", Years(1)), Record(4, "d", "m", Years(1))],
                           None, EmptyDraft, "", 2, map[]);
      var r := Delete(s, 4);
      && r.page == 1 && |r.data| == 3
  {
    var s := FourRecords();
    FourRecordsVisible();
    FourRecordsOneId();
  }
}
