/** Failure-carrying results and the error kinds the exam services raise.
    Every Java `throw new RuntimeException(...)` of the services, and every
    exception the Java runtime raises on their behalf (a null unboxed, a
    duplicate key in a collector), becomes an `Err` here; a transactional
    operation that fails leaves the store untouched because it returns no
    new store at all. */
module Base {

  datatype Option<+T> = None | Some(value: T)

  datatype Result<+T> = Ok(value: T) | Err(error: Error)

  datatype Error =
    /** a question or paper id that does not resolve */
    | NotFound(id: nat)
    /** a question with the same type and title exists (create) */
    | DuplicateQuestion(qtype: string, title: string)
    /** another question already carries the title (update) */
    | DuplicateTitle(id: nat, title: string)
    /** a sibling category already carries the name; `parentName` is the parent's name */
    | DuplicateCategory(parentName: string, name: string)
    /** a delete blocked by `count` rows that still reference `id` */
    | Referenced(id: nat, count: nat)
    /** a root category cannot be deleted */
    | RootCategory
    /** updateById / removeById touched no row */
    | RowNotChanged(id: nat)
    /** a Java NullPointerException: a null unboxed or dereferenced */
    | NullReference
    /** Collectors.toMap met the same key twice */
    | DuplicateKey
    /** the AI reply held no fenced JSON block; carries the raw reply */
    | MalformedAiResponse(raw: string)
    /** the AI payload could not be parsed */
    | JsonError
    /** three AI call attempts all failed */
    | AiUnavailable
    /** an upload pre-check failed */
    | UploadRejected(reason: UploadReason)
    /** the persistence layer reported a failed save or update */
    | SaveFailed

  datatype UploadReason = EmptyFile | NotAnImage | TooLarge
}
