/**
 * The pagination use case the list state and the presenter drive. Its offset arithmetic is not
 * part of this model: it is known by the offset operations applied to it, in order, and by the
 * page window `pageInfoAfter` gives for such a history.
 */
module Pagination {

  datatype PageInfo = PageInfo(offset: nat, limit: nat)

  datatype OffsetOperation = SetOffsetOp | ResetOffsetOp

  datatype PaginationUseCase = PaginationUseCase(
    history: seq<OffsetOperation>,
    pageInfoAfter: seq<OffsetOperation> -> PageInfo)
  {
    /** `pageInfo`: the window for the operations applied so far. */
    function CurrentPageInfo(): PageInfo
    {
      pageInfoAfter(history)
    }

    /** `setOffset()`: move on to the next page. */
    function SetOffset(): PaginationUseCase
    {
      this.(history := history + [SetOffsetOp])
    }

    /** `resetOffset()`: go back to the first page. */
    function ResetOffset(): PaginationUseCase
    {
      this.(history := history + [ResetOffsetOp])
    }
  }
}
