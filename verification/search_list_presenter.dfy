/**
 * `SearchListPresenter`: a loading flag and a pagination use case (its `State`), guarded calls to
 * the superhero use case, and the view notifications of the `state` observer.
 *
 * What the presenter does to its collaborators is kept as one event log: calls to the use case
 * (with the page window passed) and messages to the view and the router. The completions of a
 * use-case call are methods of their own, called by whoever drives the presenter.
 */
module ListPresenter {
  import opened Superheroes
  import opened Pagination
  import opened Wrappers
  import Networking

  /** `Constants.minSearchLength`. */
  const MinSearchLength := 3

  /** `SearchListViewModel`: a presentable row holding the record it shows. */
  datatype SearchListViewModel = SearchListViewModel(superhero: Superhero)

  /** `heroes.map { SearchListViewModel(superhero: $0) }`: one presentable per hero, in order. */
  function Presentables(heroes: seq<Superhero>): (presentables: seq<SearchListViewModel>)
    ensures |presentables| == |heroes|
    ensures forall i :: 0 <= i < |heroes| ==> presentables[i].superhero == heroes[i]
    decreases |heroes|
  {
    if heroes == [] then [] else [SearchListViewModel(heroes[0])] + Presentables(heroes[1..])
  }

  datatype Event =
    // to the view
    | StartLoading
    | StopLoading
    | Consume(presentables: seq<SearchListViewModel>)
    | Show(title: string, message: string)
    // to the router
    | ShowDetails(superhero: Superhero)
    // to the superhero use case
    | FetchCall(pageInfo: PageInfo)
    | SearchCall(startsWith: string, pageInfo: PageInfo)
    | FetchMoreCall(startsWith: string, pageInfo: PageInfo)
    | RefreshCall(pageInfo: PageInfo)

  predicate IsUseCaseCall(e: Event)
  {
    e.FetchCall? || e.SearchCall? || e.FetchMoreCall? || e.RefreshCall?
  }

  /** The offset operation each kind of call is preceded by. */
  function OffsetOperationOf(e: Event): OffsetOperation
    requires IsUseCaseCall(e)
  {
    if e.FetchCall? || e.FetchMoreCall? then SetOffsetOp else ResetOffsetOp
  }

  /** The offset operations that the calls in `events` imply, in order. */
  function OffsetOperations(events: seq<Event>): seq<OffsetOperation>
    decreases |events|
  {
    if events == [] then []
    else
      var last := events[|events| - 1];
      OffsetOperations(events[..|events| - 1]) + (if IsUseCaseCall(last) then [OffsetOperationOf(last)] else [])
  }

  lemma {:induction false} OffsetOperationsAppend(a: seq<Event>, b: seq<Event>)
    ensures OffsetOperations(a + b) == OffsetOperations(a) + OffsetOperations(b)
    decreases |b|
  {
    if b == [] {
      assert a + b == a;
    } else {
      var b' := b[..|b| - 1];
      assert (a + b)[..|a + b| - 1] == a + b';
      OffsetOperationsAppend(a, b');
    }
  }

  /** Whether the view's loading indicator is on after `events`: the last start or stop decides. */
  function LoadingShown(events: seq<Event>): bool
    decreases |events|
  {
    if events == [] then false
    else
      var last := events[|events| - 1];
      if last.StartLoading? then true
      else if last.StopLoading? then false
      else LoadingShown(events[..|events| - 1])
  }

  lemma LoadingShownAppendOne(events: seq<Event>, e: Event)
    ensures LoadingShown(events + [e])
         == if e.StartLoading? then true else if e.StopLoading? then false else LoadingShown(events)
  {
    assert (events + [e])[..|events|] == events;
  }

  lemma AppendAssociates(a: seq<Event>, b: seq<Event>, c: seq<Event>)
    ensures a + b + c == a + (b + c)
  {
  }

  /** Every use-case call in `events` was passed the page window after its own offset update. */
  ghost predicate CallsSeeUpdatedPage(events: seq<Event>, start: PaginationUseCase)
  {
    forall i :: 0 <= i < |events| && IsUseCaseCall(events[i]) ==>
      events[i].pageInfo == start.pageInfoAfter(start.history + OffsetOperations(events[..i + 1]))
  }

  lemma {:induction false} NoCallsNoOperations(events: seq<Event>)
    requires forall e :: e in events ==> !IsUseCaseCall(e)
    ensures OffsetOperations(events) == []
    decreases |events|
  {
    if events != [] {
      assert events[|events| - 1] in events;
      NoCallsNoOperations(events[..|events| - 1]);
    }
  }

  /** Events that are not use-case calls imply no offset operation and keep every call's window. */
  lemma NonCallsAppended(events: seq<Event>, start: PaginationUseCase, more: seq<Event>)
    requires CallsSeeUpdatedPage(events, start)
    requires forall e :: e in more ==> !IsUseCaseCall(e)
    ensures OffsetOperations(events + more) == OffsetOperations(events)
    ensures CallsSeeUpdatedPage(events + more, start)
  {
    OffsetOperationsAppend(events, more);
    NoCallsNoOperations(more);
    var all := events + more;
    forall i | 0 <= i < |all| && IsUseCaseCall(all[i])
      ensures all[i].pageInfo == start.pageInfoAfter(start.history + OffsetOperations(all[..i + 1]))
    {
      assert all[..i + 1] == events[..i + 1];
    }
  }

  /**
   * A use-case call after some notices implies its own offset operation, and the window it was
   * passed is the one after that operation.
   */
  lemma CallAppended(events: seq<Event>, start: PaginationUseCase, notices: seq<Event>, call: Event)
    requires CallsSeeUpdatedPage(events, start)
    requires forall e :: e in notices ==> !IsUseCaseCall(e)
    requires IsUseCaseCall(call)
    requires call.pageInfo == start.pageInfoAfter(start.history + OffsetOperations(events) + [OffsetOperationOf(call)])
    ensures OffsetOperations(events + notices + [call]) == OffsetOperations(events) + [OffsetOperationOf(call)]
    ensures CallsSeeUpdatedPage(events + notices + [call], start)
  {
    NonCallsAppended(events, start, notices);
    var before := events + notices;
    var all := before + [call];
    assert all[..|all| - 1] == before;
    assert OffsetOperations(all) == OffsetOperations(before) + [OffsetOperationOf(call)];
    forall i | 0 <= i < |all| && IsUseCaseCall(all[i])
      ensures all[i].pageInfo == start.pageInfoAfter(start.history + OffsetOperations(all[..i + 1]))
    {
      if i == |all| - 1 {
        assert all[..i + 1] == all;
        assert start.history + OffsetOperations(all)
            == start.history + OffsetOperations(events) + [OffsetOperationOf(call)];
      } else {
        assert all[i] == before[i];
        assert all[..i + 1] == before[..i + 1];
      }
    }
  }

  /** After a start or stop notice followed only by other events, the indicator is what the notice said. */
  lemma {:induction false} LoadingShownAfterNotice(events: seq<Event>, notice: Event, rest: seq<Event>)
    requires notice.StartLoading? || notice.StopLoading?
    requires forall e :: e in rest ==> !e.StartLoading? && !e.StopLoading?
    ensures LoadingShown(events + [notice] + rest) == notice.StartLoading?
    decreases |rest|
  {
    var all := events + [notice] + rest;
    if rest == [] {
      assert all[|all| - 1] == notice;
    } else {
      var rest' := rest[..|rest| - 1];
      assert all[|all| - 1] == rest[|rest| - 1] && rest[|rest| - 1] in rest;
      assert all[..|all| - 1] == events + [notice] + rest';
      LoadingShownAfterNotice(events, notice, rest');
    }
  }

  /** Events other than start and stop notices leave the indicator as it was. */
  lemma {:induction false} LoadingShownKept(events: seq<Event>, rest: seq<Event>)
    requires forall e :: e in rest ==> !e.StartLoading? && !e.StopLoading?
    ensures LoadingShown(events + rest) == LoadingShown(events)
    decreases |rest|
  {
    var all := events + rest;
    if rest == [] {
      assert all == events;
    } else {
      var rest' := rest[..|rest| - 1];
      assert all[|all| - 1] == rest[|rest| - 1] && rest[|rest| - 1] in rest;
      assert all[..|all| - 1] == events + rest';
      LoadingShownKept(events, rest');
    }
  }

  /** The message `handleError` shows: the `HTTPError`'s own description, else the generic text. */
  function ErrorMessage(error: Networking.Error, describe: Networking.HTTPError -> string, genericText: string): string
  {
    if error.HTTP? then describe(error.kind) else genericText
  }

  /** A failed `responseObject` always carries an `HTTPError`, so its own description is shown. */
  lemma ResponseFailuresAreDescribed<T>(error: Option<Networking.Error>, response: Networking.HTTPURLResponse,
                                        data: Option<Networking.Data>, decode: Networking.Data -> Result<T, Networking.Error>,
                                        describe: Networking.HTTPError -> string, genericText: string)
    requires Networking.ResponseObject(error, response, data, decode).Failure?
    ensures var e := Networking.ResponseObject(error, response, data, decode).error;
      ErrorMessage(e, describe, genericText) == describe(e.kind)
  {
  }

  class SearchListPresenter {
    var isLoading: bool
    var paginationUseCase: PaginationUseCase
    var events: seq<Event>
    /** The weak `view` and `router`: whether they are there to be told anything. */
    const viewAttached: bool
    const routerAttached: bool
    /** `HTTPError.localizedDescription` and the `L10n` error title and generic text. */
    const describe: Networking.HTTPError -> string
    const errorTitle: string
    const errorText: string
    /** The pagination use case the presenter was made with. */
    ghost const start: PaginationUseCase

    /**
     * The pagination has had exactly the offset operations the use-case calls imply, each call
     * was passed the window after its own update, and the view's indicator matches the flag.
     */
    ghost predicate Valid()
      reads this
    {
      paginationUseCase.pageInfoAfter == start.pageInfoAfter
      && paginationUseCase.history == start.history + OffsetOperations(events)
      && CallsSeeUpdatedPage(events, start)
      && (viewAttached ==> LoadingShown(events) == isLoading)
    }

    constructor (paginationUseCase: PaginationUseCase, viewAttached: bool, routerAttached: bool,
                 describe: Networking.HTTPError -> string, errorTitle: string, errorText: string)
      ensures Valid()
      ensures !isLoading && this.paginationUseCase == paginationUseCase && events == []
      ensures this.viewAttached == viewAttached && this.routerAttached == routerAttached
      ensures this.describe == describe && this.errorTitle == errorTitle && this.errorText == errorText
    {
      isLoading := false;
      this.paginationUseCase := paginationUseCase;
      events := [];
      this.viewAttached := viewAttached;
      this.routerAttached := routerAttached;
      this.describe := describe;
      this.errorTitle := errorTitle;
      this.errorText := errorText;
      start := paginationUseCase;
      assert paginationUseCase.history + [] == paginationUseCase.history;
    }

    /** What reaches the view: nothing when there is no view. */
    function ToView(e: Event): seq<Event>
      reads this
    {
      if viewAttached then [e] else []
    }

    /** The `didSet` of `state`: tell the view to start loading if the flag is now set, else to stop. */
    method StateDidSet()
      modifies this`events
      ensures events == old(events) + ToView(if isLoading then StartLoading else StopLoading)
    {
      events := events + ToView(if isLoading then StartLoading else StopLoading);
    }

    /** `Valid` after an accepted call: two start notices, then `call` with the updated window. */
    lemma ValidAfterCall(before: seq<Event>, call: Event)
      requires CallsSeeUpdatedPage(before, start)
      requires paginationUseCase.pageInfoAfter == start.pageInfoAfter
      requires IsUseCaseCall(call)
      requires paginationUseCase.history == start.history + OffsetOperations(before) + [OffsetOperationOf(call)]
      requires call.pageInfo == paginationUseCase.CurrentPageInfo()
      requires isLoading
      requires events == before + ToView(StartLoading) + ToView(StartLoading) + [call]
      ensures Valid()
    {
      var notices := ToView(StartLoading) + ToView(StartLoading);
      CallAppended(before, start, notices, call);
      assert events == before + notices + [call];
      if viewAttached {
        LoadingShownAfterNotice(before + [StartLoading], StartLoading, [call]);
        assert before + [StartLoading] + [StartLoading] + [call] == events;
      }
    }

    /** `Valid` after a completion: a stop notice, then `more` (neither a call nor a notice). */
    lemma ValidAfterCompletion(before: seq<Event>, more: seq<Event>)
      requires CallsSeeUpdatedPage(before, start)
      requires paginationUseCase.pageInfoAfter == start.pageInfoAfter
      requires paginationUseCase.history == start.history + OffsetOperations(before)
      requires forall e :: e in more ==> !IsUseCaseCall(e) && !e.StartLoading? && !e.StopLoading?
      requires !isLoading
      requires events == before + ToView(StopLoading) + more
      ensures Valid()
    {
      var all := ToView(StopLoading) + more;
      assert forall e :: e in all ==> e in more || e == StopLoading;
      NonCallsAppended(before, start, all);
      AppendAssociates(before, ToView(StopLoading), more);
      if viewAttached {
        LoadingShownAfterNotice(before, StopLoading, more);
      }
    }

    /** `fetch()`: refused while loading; otherwise loads the next page of the whole catalog. */
    method Fetch()
      requires Valid()
      modifies this
      ensures Valid()
      ensures old(isLoading) ==> unchanged(this)
      ensures !old(isLoading) ==>
        isLoading && paginationUseCase == old(paginationUseCase).SetOffset()
        && events == old(events) + ToView(StartLoading) + ToView(StartLoading)
                     + [FetchCall(paginationUseCase.CurrentPageInfo())]
    {
      if isLoading {
        return;
      }
      isLoading := true;
      StateDidSet();
      paginationUseCase := paginationUseCase.SetOffset();
      StateDidSet();
      events := events + [FetchCall(paginationUseCase.CurrentPageInfo())];
      ValidAfterCall(old(events), FetchCall(paginationUseCase.CurrentPageInfo()));
    }

    /**
     * `fetch(startsWith:)`: refused for fewer than three characters; otherwise searches from the
     * first page, whether or not a load is in flight.
     */
    method FetchStartingWith(text: string)
      requires Valid()
      modifies this
      ensures Valid()
      ensures |text| < MinSearchLength ==> unchanged(this)
      ensures |text| >= MinSearchLength ==>
        isLoading && paginationUseCase == old(paginationUseCase).ResetOffset()
        && events == old(events) + ToView(StartLoading) + ToView(StartLoading)
                     + [SearchCall(text, paginationUseCase.CurrentPageInfo())]
    {
      if |text| < MinSearchLength {
        return;
      }
      isLoading := true;
      StateDidSet();
      paginationUseCase := paginationUseCase.ResetOffset();
      StateDidSet();
      events := events + [SearchCall(text, paginationUseCase.CurrentPageInfo())];
      ValidAfterCall(old(events), SearchCall(text, paginationUseCase.CurrentPageInfo()));
    }

    /** `fetchMore(startsWith:)`: refused while loading; otherwise loads the next page of the search. */
    method FetchMore(text: string)
      requires Valid()
      modifies this
      ensures Valid()
      ensures old(isLoading) ==> unchanged(this)
      ensures !old(isLoading) ==>
        isLoading && paginationUseCase == old(paginationUseCase).SetOffset()
        && events == old(events) + ToView(StartLoading) + ToView(StartLoading)
                     + [FetchMoreCall(text, paginationUseCase.CurrentPageInfo())]
    {
      if isLoading {
        return;
      }
      isLoading := true;
      StateDidSet();
      paginationUseCase := paginationUseCase.SetOffset();
      StateDidSet();
      events := events + [FetchMoreCall(text, paginationUseCase.CurrentPageInfo())];
      ValidAfterCall(old(events), FetchMoreCall(text, paginationUseCase.CurrentPageInfo()));
    }

    /** `refresh()`: always reloads the whole catalog from the first page. */
    method Refresh()
      requires Valid()
      modifies this
      ensures Valid()
      ensures isLoading && paginationUseCase == old(paginationUseCase).ResetOffset()
      ensures events == old(events) + ToView(StartLoading) + ToView(StartLoading)
                        + [RefreshCall(paginationUseCase.CurrentPageInfo())]
    {
      isLoading := true;
      StateDidSet();
      paginationUseCase := paginationUseCase.ResetOffset();
      StateDidSet();
      events := events + [RefreshCall(paginationUseCase.CurrentPageInfo())];
      ValidAfterCall(old(events), RefreshCall(paginationUseCase.CurrentPageInfo()));
    }

    /** `view(didSelect:)`: hands exactly the selected record to the router; the state is untouched. */
    method ViewDidSelect(presentable: SearchListViewModel)
      requires Valid()
      modifies this`events
      ensures Valid()
      ensures events == old(events) + (if routerAttached then [ShowDetails(presentable.superhero)] else [])
    {
      var more := if routerAttached then [ShowDetails(presentable.superhero)] else [];
      NonCallsAppended(events, start, more);
      LoadingShownKept(events, more);
      events := events + more;
    }

    /** The success completion: the flag is cleared and the view gets one presentable per hero. */
    method HandleSuccess(heroes: seq<Superhero>)
      requires Valid()
      modifies this
      ensures Valid()
      ensures !isLoading && paginationUseCase == old(paginationUseCase)
      ensures events == old(events) + ToView(StopLoading) + ToView(Consume(Presentables(heroes)))
    {
      isLoading := false;
      StateDidSet();
      var presentables := Presentables(heroes);
      events := events + ToView(Consume(presentables));
      ValidAfterCompletion(old(events), ToView(Consume(presentables)));
    }

    /**
     * The failure completion: the flag is cleared and the view is always shown the error title and
     * a message, the `HTTPError`'s description or else the generic text.
     */
    method HandleError(error: Networking.Error)
      requires Valid()
      modifies this
      ensures Valid()
      ensures !isLoading && paginationUseCase == old(paginationUseCase)
      ensures events == old(events) + ToView(StopLoading)
                        + ToView(Show(errorTitle, ErrorMessage(error, describe, errorText)))
    {
      isLoading := false;
      StateDidSet();
      var message := ErrorMessage(error, describe, errorText);
      events := events + ToView(Show(errorTitle, message));
      ValidAfterCompletion(old(events), ToView(Show(errorTitle, message)));
    }
  }
}
