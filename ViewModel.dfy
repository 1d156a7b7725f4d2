/**
 * The `App` component's state: the fetched `personList` and the
 * `visiblePersonList` the table shows, with one method per handler.
 */
module ViewModel {
  import opened People
  import opened Filter
  import opened Sort
  import Shuffle

  /** How the single profiles request settles: the parsed list, or a rejected promise. */
  datatype FetchOutcome = Loaded(list: seq<Person>) | Failed

  class App {
    var personList: seq<Person>
    var visiblePersonList: seq<Person>

    /** Every visible person comes from the full list, and at most as often. */
    ghost predicate Valid()
      reads this
    {
      multiset(visiblePersonList) <= multiset(personList)
    }

    /** `getInitialState`: both lists empty. */
    constructor ()
      ensures Valid()
      ensures personList == [] && visiblePersonList == []
    {
      personList := [];
      visiblePersonList := [];
    }

    /**
     * `componentDidMount`: once the request resolves, both fields take the
     * fetched list. A rejected request has no handler, so nothing changes.
     */
    method ComponentDidMount(outcome: FetchOutcome)
      requires Valid()
      modifies this
      ensures Valid()
      ensures outcome.Loaded? ==> personList == outcome.list && visiblePersonList == outcome.list
      ensures outcome.Failed? ==> personList == old(personList) && visiblePersonList == old(visiblePersonList)
    {
      match outcome
      case Loaded(list) =>
        personList := list;
        visiblePersonList := list;
      case Failed =>
    }

    /**
     * `_shuffleList`: `shuffleList(this.state.personList)` swaps the cells of
     * the state's own `personList` and returns its tail as it was before the
     * swaps; that tail becomes the visible list.
     */
    method ShuffleList(picks: seq<nat>)
      requires Shuffle.ValidPicks(picks, |personList|)
      modifies this
      ensures Valid()
      ensures visiblePersonList == SliceFromOne(old(personList))
      ensures personList == Shuffle.FisherYates(old(personList), picks)
      ensures multiset(personList) == old(multiset(personList))
    {
      var cells := ToArray(personList);
      var result := Shuffle.ShuffleList(cells, picks);
      personList := cells[..];
      visiblePersonList := result;
      SliceFromOneSubMultiset(old(personList));
    }

    /** `_sortByFirst`: the visible list is `sortByFirstName(personList)`. */
    method SortByFirst()
      modifies this
      ensures Valid()
      ensures personList == old(personList)
      ensures Sorted(FirstName, visiblePersonList)
      ensures multiset(visiblePersonList) == multiset(SliceFromOne(personList))
    {
      visiblePersonList := SortByFirstName(personList);
      SliceFromOneSubMultiset(personList);
    }

    /** `_sortByLast`: the visible list is `sortByLastName(personList)`. */
    method SortByLast()
      modifies this
      ensures Valid()
      ensures personList == old(personList)
      ensures Sorted(LastName, visiblePersonList)
      ensures multiset(visiblePersonList) == multiset(SliceFromOne(personList))
    {
      visiblePersonList := SortByLastName(personList);
      SliceFromOneSubMultiset(personList);
    }

    /** `_onSearch`: the visible list is `filterByName(query, personList)`, `query` being the input's value. */
    method OnSearch(query: string)
      modifies this
      ensures Valid()
      ensures personList == old(personList)
      ensures visiblePersonList == FilterByName(query, personList)
    {
      visiblePersonList := FilterByName(query, personList);
      forall p ensures multiset(visiblePersonList)[p] <= multiset(personList)[p] {
        FilterMultiplicity(query, personList, p);
      }
    }
  }

  /** If the request fails, every later action leaves the table empty. */
  method FailedFetchShowsNothing(query: string)
  {
    var app := new App();
    app.ComponentDidMount(Failed);
    app.ShuffleList([]);
    assert app.visiblePersonList == [];
    app.SortByFirst();
    assert app.visiblePersonList == [];
    app.SortByLast();
    assert app.visiblePersonList == [];
    app.OnSearch(query);
    assert app.visiblePersonList == [];
  }
}
