/**
 * The public constants of the list container (list.h): the `list_rc`
 * return codes and the `list_opt` end selectors.
 */
module ListCodes {
  import opened Optional

  /** `list_rc`: the outcome every list operation returns. */
  datatype ListRc =
    | Success            // LIST_SUCCESS
    | FailureArguments   // LIST_FAILURE_ARGUMENTS
    | FailureMemory      // LIST_FAILURE_MEMORY
    | FailureEmpty       // LIST_FAILURE_EMPTY
    | IteratorFailureEnd // LIST_ITERATOR_FAILURE_END

  /** The C integer value of a return code. */
  function Code(rc: ListRc): (c: int)
    ensures c == 0 <==> rc == Success
    ensures rc != Success ==> c < 0
    ensures -4 <= c
  {
    match rc
    case Success => 0
    case FailureArguments => -1
    case FailureMemory => -2
    case FailureEmpty => -3
    case IteratorFailureEnd => -4
  }

  /** Reads an integer back as a return code; None for a value the enum does not name. */
  function CodeToRc(c: int): (r: Option<ListRc>)
    ensures r.Some? <==> -4 <= c <= 0
  {
    if c == 0 then Some(Success)
    else if c == -1 then Some(FailureArguments)
    else if c == -2 then Some(FailureMemory)
    else if c == -3 then Some(FailureEmpty)
    else if c == -4 then Some(IteratorFailureEnd)
    else None
  }

  /** Every return code is recovered from its integer value, so no two codes share a value. */
  lemma CodeRoundTrip(rc: ListRc)
    ensures CodeToRc(Code(rc)) == Some(rc)
  {
  }

  /** Conversely, every integer the enum names is the value of exactly that code. */
  lemma CodeToRcRoundTrip(c: int)
    requires CodeToRc(c).Some?
    ensures Code(CodeToRc(c).value) == c
  {
  }

  /** Distinct codes have distinct values. */
  lemma CodesDistinct(a: ListRc, b: ListRc)
    requires a != b
    ensures Code(a) != Code(b)
  {
  }

  /** `list_opt`: which end of the list an operation works from. */
  datatype ListOpt = OptHead | OptTail

  const LIST_OPT_HEAD: int := 1
  const LIST_OPT_TAIL: int := 2

  /** The C integer value of an end selector. */
  function OptValue(o: ListOpt): (v: int)
    ensures v == LIST_OPT_HEAD || v == LIST_OPT_TAIL
    ensures v == LIST_OPT_HEAD <==> o == OptHead
  {
    match o
    case OptHead => LIST_OPT_HEAD
    case OptTail => LIST_OPT_TAIL
  }

  /**
   * The argument check every `opt`-taking operation performs: an int is a
   * valid selector exactly when it is LIST_OPT_HEAD or LIST_OPT_TAIL.
   */
  function DecodeOpt(v: int): (r: Option<ListOpt>)
    ensures r.Some? <==> (v == LIST_OPT_HEAD || v == LIST_OPT_TAIL)
    ensures r.Some? ==> OptValue(r.value) == v
  {
    if v == LIST_OPT_HEAD then Some(OptHead)
    else if v == LIST_OPT_TAIL then Some(OptTail)
    else None
  }

  /** Decoding the value of a selector gives the selector back. */
  lemma OptRoundTrip(o: ListOpt)
    ensures DecodeOpt(OptValue(o)) == Some(o)
  {
  }

  /**
   * `opt & LIST_OPT_HEAD` on the C int (two's complement, 32 bits), the test
   * list.c uses to choose the head; for the two valid selectors it is
   * nonzero exactly for LIST_OPT_HEAD.
   */
  predicate HeadBitSet(opt: int)
    requires opt == LIST_OPT_HEAD || opt == LIST_OPT_TAIL
    ensures HeadBitSet(opt) <==> opt == LIST_OPT_HEAD
  {
    (opt as bv32) & (LIST_OPT_HEAD as bv32) != 0
  }
}
