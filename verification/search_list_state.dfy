/**
 * `SearchListState`: the page state of the search list and the state of its view. Assigning the
 * page state drives the pagination use case and puts the view back to loading.
 */
module ListState {
  import opened Pagination

  /** `SearchListState.PaginationState`. */
  datatype PaginationState = Set | Reset

  /** `Promise<[SuperheroType]>`: a load in flight or settled, known here only by its identity. */
  datatype Promise = Promise(id: nat)

  /** `SearchListState.ViewState`. */
  datatype ViewState = Loading | Result(result: Promise)

  /**
   * The hand-written `==` of `ViewState`: two states are equal exactly when both are `.loading`;
   * a `.result` equals nothing, itself included.
   */
  function ViewStateEquals(lhs: ViewState, rhs: ViewState): (equal: bool)
    ensures equal <==> lhs.Loading? && rhs.Loading?
  {
    match (lhs, rhs)
    case (Loading, Loading) => true
    case _ => false
  }

  /** So the equality is not reflexive: a `.result` is not equal to itself. */
  lemma ResultNotEqualToItself(promise: Promise)
    ensures !ViewStateEquals(Result(promise), Result(promise))
  {
  }

  /** It is still symmetric and transitive (a partial equivalence). */
  lemma ViewStateEqualsSymmetricTransitive(a: ViewState, b: ViewState, c: ViewState)
    ensures ViewStateEquals(a, b) == ViewStateEquals(b, a)
    ensures ViewStateEquals(a, b) && ViewStateEquals(b, c) ==> ViewStateEquals(a, c)
  {
  }

  class SearchListState {
    var paginationUseCase: PaginationUseCase
    var viewState: ViewState
    var pageState: PaginationState

    /** A fresh state shows loading, is in the reset page state and has not touched the pagination. */
    constructor (paginationUseCase: PaginationUseCase)
      ensures this.paginationUseCase == paginationUseCase
      ensures viewState == Loading && pageState == Reset
    {
      this.paginationUseCase := paginationUseCase;
      viewState := Loading;
      pageState := Reset;
    }

    /** `pageInfo`: always the pagination use case's. */
    function PageInfo(): PageInfo
      reads this
    {
      paginationUseCase.CurrentPageInfo()
    }

    /**
     * `pageState = newState` with its `didSet`: `.set` calls `setOffset()` once and `.reset` calls
     * `resetOffset()` once, also when the value does not change; the view goes back to loading.
     */
    method SetPageState(newState: PaginationState)
      modifies this
      ensures pageState == newState && viewState == Loading
      ensures paginationUseCase.history
           == old(paginationUseCase.history) + [if newState == Set then SetOffsetOp else ResetOffsetOp]
      ensures paginationUseCase.pageInfoAfter == old(paginationUseCase.pageInfoAfter)
      ensures PageInfo() == old(paginationUseCase.pageInfoAfter)(
                old(paginationUseCase.history) + [if newState == Set then SetOffsetOp else ResetOffsetOp])
    {
      pageState := newState;
      paginationUseCase := if pageState == Set then paginationUseCase.SetOffset() else paginationUseCase.ResetOffset();
      viewState := Loading;
    }

    /** `viewState = newState`: nothing else changes; the pagination is not touched. */
    method SetViewState(newState: ViewState)
      modifies this
      ensures viewState == newState
      ensures pageState == old(pageState) && paginationUseCase == old(paginationUseCase)
    {
      viewState := newState;
    }
  }
}
