/** The HTTP exceptions of the core: what `getStatus()` and `getResponse()`
    give for each, and the three business exceptions the service throws. */
module Exceptions {
  import opened Wrappers

  const BAD_REQUEST: int := 400
  const NOT_FOUND: int := 404
  const CONFLICT: int := 409
  const INTERNAL_SERVER_ERROR: int := 500

  /** The `message` key of a response object: one string or a list of them. */
  datatype MessageValue = Text(text: string) | Lines(lines: seq<string>)

  /** What `getResponse()` gives: a bare string, or an object with some of
      the keys `success`, `error`, `statusCode` and `message`. */
  datatype ResponseBody =
    | Plain(text: string)
    | Fields(success: Option<bool>, error: Option<string>, statusCode: Option<int>, message: Option<MessageValue>)

  /** An `HttpException`: its status and its response. */
  datatype HttpException = HttpException(status: int, response: ResponseBody)

  /** The payload every business exception carries: `success` false, the
      text under `error`, the status repeated under `statusCode`, and no
      `message` key. */
  predicate IsBusinessPayload(e: HttpException, text: string) {
    e.response == Fields(Some(false), Some(text), Some(e.status), None)
  }

  /** `new BusinessException(message, statusCode = 400)`. */
  function BusinessException(message: string, statusCode: Option<int>): (e: HttpException)
    ensures IsBusinessPayload(e, message)
    ensures statusCode.None? ==> e.status == BAD_REQUEST
    ensures statusCode.Some? ==> e.status == statusCode.value
  {
    var status := statusCode.GetOr(BAD_REQUEST);
    HttpException(status, Fields(Some(false), Some(message), Some(status), None))
  }

  function NotFoundMessage(entity: string, id: string): string {
    entity + " with id '" + id + "' not found"
  }

  function DuplicateMessage(entity: string, field: string): string {
    entity + " with this " + field + " already exists"
  }

  /** `new EntityNotFoundException(entity, id)`: status 404. */
  function EntityNotFoundException(entity: string, id: string): (e: HttpException)
    ensures e.status == NOT_FOUND
    ensures IsBusinessPayload(e, NotFoundMessage(entity, id))
  {
    HttpException(NOT_FOUND, Fields(Some(false), Some(NotFoundMessage(entity, id)), Some(NOT_FOUND), None))
  }

  /** `new DuplicateEntityException(entity, field)`: status 409. */
  function DuplicateEntityException(entity: string, field: string): (e: HttpException)
    ensures e.status == CONFLICT
    ensures IsBusinessPayload(e, DuplicateMessage(entity, field))
  {
    HttpException(CONFLICT, Fields(Some(false), Some(DuplicateMessage(entity, field)), Some(CONFLICT), None))
  }

  /** The not-found message quotes the id between the entity's name and the
      words "not found", so two ids give two messages. */
  lemma NotFoundMessageNamesId(entity: string, id1: string, id2: string)
    ensures NotFoundMessage(entity, id1) == NotFoundMessage(entity, id2) <==> id1 == id2
  {
    var pre := entity + " with id '";
    var m1, m2 := NotFoundMessage(entity, id1), NotFoundMessage(entity, id2);
    if m1 == m2 {
      assert |id1| == |id2|;
      assert id1 == m1[|pre|..|pre| + |id1|];
      assert id2 == m2[|pre|..|pre| + |id2|];
    }
  }
}
