/**
 * Client code that drives the presenter and the list state through concrete uses, relying only
 * on the specifications of the members it calls.
 */
module Scenarios {
  import opened Wrappers
  import opened Superheroes
  import opened Pagination
  import opened ListPresenter
  import ListState
  import Networking

  /** A search text of two characters issues no call and changes nothing. */
  method ShortSearchIsIgnored(pagination: PaginationUseCase, describe: Networking.HTTPError -> string,
                              title: string, text: string)
  {
    var presenter := new SearchListPresenter(pagination, true, true, describe, title, text);
    presenter.FetchStartingWith("th");
    assert presenter.events == [] && !presenter.isLoading;
    assert presenter.paginationUseCase == pagination;
  }

  /**
   * Searching "thor" starts loading, asks for the first page, and a 200 response whose body
   * decodes to one record ends with loading stopped and one presentable for that record.
   */
  method SearchDeliversOneHero(pagination: PaginationUseCase, describe: Networking.HTTPError -> string,
                               title: string, text: string, body: Networking.Data, thor: Superhero)
  {
    var presenter := new SearchListPresenter(pagination, true, true, describe, title, text);
    presenter.FetchStartingWith("thor");
    var firstPage := pagination.ResetOffset().CurrentPageInfo();
    assert presenter.isLoading;
    assert presenter.events == [StartLoading, StartLoading, SearchCall("thor", firstPage)];

    var outcome := Networking.ResponseObject(None, Networking.HTTPURLResponse(200), Some(body),
                                             (d: Networking.Data) => Success([thor]));
    assert outcome == Success([thor]);
    presenter.HandleSuccess(outcome.value);
    assert Presentables([thor]) == [SearchListViewModel(thor)];
    assert !presenter.isLoading;
    assert presenter.events == [StartLoading, StartLoading, SearchCall("thor", firstPage),
                                StopLoading, Consume([SearchListViewModel(thor)])];
  }

  /** A lost connection is shown with the description of `unreachable`, and loading stops. */
  method ConnectionLostIsShown(pagination: PaginationUseCase, describe: Networking.HTTPError -> string,
                               title: string, text: string, decode: Networking.Data -> Result<seq<Superhero>, Networking.Error>)
  {
    var presenter := new SearchListPresenter(pagination, true, true, describe, title, text);
    presenter.Fetch();
    var outcome := Networking.ResponseObject(Some(Networking.URLError(Networking.NetworkConnectionLost)),
                                             Networking.HTTPURLResponse(0), None, decode);
    assert outcome == Failure(Networking.HTTP(Networking.Unreachable));
    presenter.HandleError(outcome.error);
    assert !presenter.isLoading;
    assert presenter.events[|presenter.events| - 1] == Show(title, describe(Networking.Unreachable));
  }

  /**
   * A second `fetch()` while the first is in flight is refused, but a search is not: it resets
   * the offset and calls the use case again.
   */
  method OnlySearchOverlapsALoad(pagination: PaginationUseCase, describe: Networking.HTTPError -> string,
                                 title: string, text: string)
  {
    var presenter := new SearchListPresenter(pagination, false, false, describe, title, text);
    presenter.Fetch();
    presenter.Fetch();
    presenter.FetchMore("hulk");
    assert presenter.paginationUseCase.history == pagination.history + [SetOffsetOp];
    assert presenter.events == [FetchCall(pagination.SetOffset().CurrentPageInfo())];
    presenter.FetchStartingWith("hulk");
    assert presenter.paginationUseCase.history == pagination.history + [SetOffsetOp, ResetOffsetOp];
    assert |presenter.events| == 2 && presenter.events[1].SearchCall?;
  }

  /**
   * The loading guard only looks at the flag, and every completion clears it: after three
   * refreshes and one completion, `fetch()` is accepted although two refreshes are outstanding,
   * and after the next completion it is accepted again.
   */
  method CompletionReopensTheGuard(pagination: PaginationUseCase, describe: Networking.HTTPError -> string,
                                   title: string, text: string)
  {
    var presenter := new SearchListPresenter(pagination, false, false, describe, title, text);
    presenter.Refresh();
    presenter.Refresh();
    presenter.Refresh();
    presenter.HandleSuccess([]);
    presenter.Fetch();
    presenter.HandleSuccess([]);
    presenter.Fetch();
    assert |presenter.events| == 5;
    assert presenter.events[3].FetchCall? && presenter.events[4].FetchCall?;
    assert presenter.isLoading;
  }

  /** Assigning `.set` twice advances the pagination twice; a `.result` view state is not equal to itself. */
  method PageStateAssignedTwice(pagination: PaginationUseCase)
  {
    var state := new ListState.SearchListState(pagination);
    state.SetPageState(ListState.Set);
    state.SetPageState(ListState.Set);
    assert state.paginationUseCase.history == pagination.history + [SetOffsetOp, SetOffsetOp];
    state.SetViewState(ListState.Result(ListState.Promise(1)));
    assert !ListState.ViewStateEquals(state.viewState, state.viewState);
    state.SetPageState(ListState.Reset);
    assert ListState.ViewStateEquals(state.viewState, ListState.Loading);
  }
}
