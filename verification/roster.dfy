/** The roster: the records the table holds, the name filter, and per-record edits. */
module Roster {
  import opened Wrappers
  import opened Seqs
  import opened Text

  /** Record identifiers are creation timestamps (`Date.now()`), compared with `===`. */
  type Id = int

  /** An age cell: a whole number of years, or `NaN` when an inline edit's `parseInt`
      found no number. */
  datatype Age = Years(n: int) | NaN

  datatype Record = Record(id: Id, name: string, gender: string, age: Age)

  /** The fields an inline edit supplies; an absent field keeps its old value
      (`{ ...item, ...updatedData }`). */
  datatype Patch = Patch(name: Option<string>, gender: Option<string>, age: Option<Age>)

  /** The record after an inline edit of the fields `p` supplies. */
  function Merge(x: Record, p: Patch): (r: Record)
    ensures r.id == x.id
    ensures p.name.None? ==> r.name == x.name
    ensures p.gender.None? ==> r.gender == x.gender
    ensures p.age.None? ==> r.age == x.age
    ensures p.name.Some? ==> r.name == p.name.value
    ensures p.gender.Some? ==> r.gender == p.gender.value
    ensures p.age.Some? ==> r.age == p.age.value
  {
    Record(x.id, p.name.GetOr(x.name), p.gender.GetOr(x.gender), p.age.GetOr(x.age))
  }

  /** What a record must satisfy when it leaves the add form's validation. */
  predicate ValidRecord(x: Record) {
    !AllWhitespace(x.name) && !AllWhitespace(x.gender) && x.age.Years? && x.age.n > 0
  }

  /** No two records share an id. */
  predicate UniqueIds(data: seq<Record>) {
    forall i, j :: 0 <= i < j < |data| ==> data[i].id != data[j].id
  }

  /** The search: the lower-cased name includes the lower-cased term. */
  predicate NameMatches(term: string, x: Record) {
    Contains(Lower(x.name), Lower(term))
  }

  function MatchesTerm(term: string): Record -> bool {
    x => NameMatches(term, x)
  }

  function HasId(id: Id): Record -> bool {
    (x: Record) => x.id == id
  }

  function OtherId(id: Id): Record -> bool {
    (x: Record) => x.id != id
  }

  /** The rows the search keeps, in roster order. */
  function Filtered(data: seq<Record>, term: string): (r: seq<Record>)
    ensures |r| <= |data|
    ensures forall k :: 0 <= k < |r| ==> r[k] in data && NameMatches(term, r[k])
    ensures forall i :: 0 <= i < |data| && NameMatches(term, data[i]) ==> data[i] in r
  {
    Filter(data, MatchesTerm(term))
  }

  /** The filtered view is the roster read at exactly the positions whose name matches,
      in ascending order. */
  lemma FilteredSelects(data: seq<Record>, term: string) returns (idx: seq<nat>)
    ensures SelectedAt(Filtered(data, term), data, MatchesTerm(term), idx)
    ensures IsSubsequence(Filtered(data, term), data)
  {
    idx := FilterSelects(data, MatchesTerm(term));
  }

  /** A name matches when the lower-cased term occurs somewhere in the lower-cased name;
      the empty term matches every name. */
  lemma NameMatchesIff(term: string, x: Record)
    ensures NameMatches(term, x) <==> exists i :: OccursAt(Lower(x.name), Lower(term), i)
    ensures term == "" ==> NameMatches(term, x)
  {
    ContainsIff(Lower(x.name), Lower(term));
  }

  /** The empty search keeps the whole roster. */
  lemma FilteredEmptyTerm(data: seq<Record>)
    ensures Filtered(data, "") == data
  {
    forall i | 0 <= i < |data| ensures MatchesTerm("")(data[i]) {
      NameMatchesIff("", data[i]);
    }
    FilterAll(data, MatchesTerm(""));
  }

  /** The search ignores the case of the term: searching for its lower-cased form gives
      the same rows. */
  lemma FilteredIgnoresCase(data: seq<Record>, term: string)
    ensures Filtered(data, Lower(term)) == Filtered(data, term)
  {
    LowerIdempotent(term);
    FilterSameKeep(data, MatchesTerm(Lower(term)), MatchesTerm(term));
  }

  /** With unique ids, at most one record carries a given id. */
  lemma {:induction false} UniqueIdsAtMostOne(data: seq<Record>, id: Id)
    requires UniqueIds(data)
    ensures |Filter(data, HasId(id))| <= 1
  {
    if data != [] {
      UniqueIdsAtMostOne(data[1..], id);
      if data[0].id == id {
        FilterNone(data[1..], HasId(id));
      }
    }
  }
}
