/**
 * The faculty directory's live search: a text box and a specialization
 * drop-down decide which faculty cards are displayed, and a "no results"
 * notice appears when none is.
 */
module FacultyFilter {
  import opened Text

  /** One faculty card: the texts of its heading, specialization line and
      position line, and its `data-specialization` attribute. */
  datatype Card = Card(name: string, specialization: string, position: string, category: string)

  /** The lower-cased term occurs in the lower-cased name, specialization
      or position of the card. */
  predicate MatchesSearch(card: Card, term: string) {
    || Includes(Lower(card.name), term)
    || Includes(Lower(card.specialization), term)
    || Includes(Lower(card.position), term)
  }

  /** The drop-down either shows every specialization or names the card's
      own `data-specialization` exactly (no lower-casing). */
  predicate MatchesFilter(card: Card, filterValue: string) {
    filterValue == "all" || card.category == filterValue
  }

  /** The card is displayed for the search box value `searchValue` and the
      drop-down value `filterValue`. */
  predicate Visible(card: Card, searchValue: string, filterValue: string) {
    MatchesSearch(card, Lower(searchValue)) && MatchesFilter(card, filterValue)
  }

  /** The display of every card, in grid order. */
  function Visibility(cards: seq<Card>, searchValue: string, filterValue: string): (shown: seq<bool>)
    ensures |shown| == |cards|
    ensures forall k | 0 <= k < |cards| :: shown[k] == Visible(cards[k], searchValue, filterValue)
  {
    seq(|cards|, k requires 0 <= k < |cards| => Visible(cards[k], searchValue, filterValue))
  }

  /** How many entries of `shown` are set, counted front to back. */
  function CountShown(shown: seq<bool>): (n: nat)
    ensures n <= |shown|
  {
    if shown == [] then 0
    else CountShown(shown[..|shown| - 1]) + (if shown[|shown| - 1] then 1 else 0)
  }

  /** The positions whose entry is set. */
  function ShownIndices(shown: seq<bool>): set<nat> {
    set k: nat | k < |shown| && shown[k]
  }

  /** The count is the number of set entries. */
  lemma {:induction false} CountIsNumberShown(shown: seq<bool>)
    ensures CountShown(shown) == |ShownIndices(shown)|
  {
    if shown != [] {
      var init := shown[..|shown| - 1];
      var last := |shown| - 1;
      CountIsNumberShown(init);
      var before := ShownIndices(init);
      var after := ShownIndices(shown);
      var added := if shown[last] then {last} else {};
      forall k: nat
        ensures k in after <==> k in before + added
      {
        if k < last {
          assert init[k] == shown[k];
        }
      }
      assert after == before + added;
      assert before !! added;
    }
  }

  /** The count is zero exactly when no entry is set. */
  lemma {:induction false} CountZeroIffNoneShown(shown: seq<bool>)
    ensures CountShown(shown) == 0 <==> forall k | 0 <= k < |shown| :: !shown[k]
  {
    if shown != [] {
      var init := shown[..|shown| - 1];
      CountZeroIffNoneShown(init);
      assert forall k | 0 <= k < |init| :: init[k] == shown[k];
    }
  }

  /** An empty search box matches every card, so only the drop-down counts. */
  lemma EmptySearchMatchesAll(card: Card, filterValue: string)
    ensures Visible(card, [], filterValue) <==> MatchesFilter(card, filterValue)
  {
    assert Lower([]) == [];
    IncludesEmpty(Lower(card.name));
  }

  /** The search ignores the case of ASCII letters in what is typed. */
  lemma SearchIgnoresCase(card: Card, searchValue: string, filterValue: string)
    ensures Visible(card, Lower(searchValue), filterValue) == Visible(card, searchValue, filterValue)
  {
    LowerIdempotent(searchValue);
  }

  /** Typing more narrows the result: a card displayed for a term is
      displayed for every term occurring inside it. */
  lemma NarrowerTermShowsFewer(card: Card, longer: string, shorter: string, filterValue: string)
    requires Includes(Lower(longer), Lower(shorter))
    requires Visible(card, longer, filterValue)
    ensures Visible(card, shorter, filterValue)
  {
    var t, u := Lower(longer), Lower(shorter);
    if Includes(Lower(card.name), t) {
      IncludesTransitive(Lower(card.name), t, u);
    } else if Includes(Lower(card.specialization), t) {
      IncludesTransitive(Lower(card.specialization), t, u);
    } else {
      IncludesTransitive(Lower(card.position), t, u);
    }
  }

  /** The directory grid: the cards, which of them are displayed, and the
      "no results" notice. */
  class FacultyGrid {
    const cards: seq<Card>
    /** `shown[k]`: card `k` has `display: block`. */
    var shown: array<bool>
    /** The "no results" notice has `display: block`. */
    var noResults: bool

    ghost predicate Valid()
      reads this
    {
      shown.Length == |cards|
    }

    /** A freshly loaded page: every card displayed, no notice. */
    constructor (cards: seq<Card>)
      ensures Valid() && this.cards == cards && fresh(shown)
      ensures forall k | 0 <= k < |cards| :: shown[k]
      ensures !noResults
    {
      this.cards := cards;
      shown := new bool[|cards|](k => true);
      noResults := false;
    }

    /** `filterFaculty`: display exactly the cards matching both the search
        box and the drop-down, count them, and show the notice exactly when
        the count is zero. */
    method FilterFaculty(searchValue: string, filterValue: string) returns (visibleCount: nat)
      requires Valid()
      modifies this, shown
      ensures Valid() && shown == old(shown)
      ensures shown[..] == Visibility(cards, searchValue, filterValue)
      ensures visibleCount == CountShown(shown[..])
      ensures visibleCount == |ShownIndices(shown[..])|
      ensures noResults <==> visibleCount == 0
      ensures noResults <==> forall k | 0 <= k < |cards| :: !Visible(cards[k], searchValue, filterValue)
    {
      var searchTerm := Lower(searchValue);
      visibleCount := 0;
      var i := 0;
      while i < shown.Length
        invariant shown == old(shown) && Valid()
        invariant 0 <= i <= shown.Length
        invariant forall k | 0 <= k < i :: shown[k] == Visible(cards[k], searchValue, filterValue)
        invariant visibleCount == CountShown(shown[..i])
      {
        var card := cards[i];
        var matchesSearch := MatchesSearch(card, searchTerm);
        var matchesFilter := filterValue == "all" || card.category == filterValue;
        if matchesSearch && matchesFilter {
          shown[i] := true;
          visibleCount := visibleCount + 1;
        } else {
          shown[i] := false;
        }
        assert shown[..i + 1][..i] == shown[..i];
        i := i + 1;
      }
      assert shown[..i] == shown[..];
      noResults := visibleCount == 0;
      CountIsNumberShown(shown[..]);
      CountZeroIffNoneShown(shown[..]);
    }
  }
}
