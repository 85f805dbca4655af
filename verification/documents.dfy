/** The document store as the comparator sees it (internal/ports/document_repo.go):
    a map from document id to its stored `TextContent`. */
module Documents {

  /** Document id to stored text content. */
  type Store = map<string, string>

  /** `NotFound` is the repository's answer for an id it cannot load (no
      sidecar, unreadable metadata, or an id of the wrong shape); `ReadFailed`
      is a failure to list the repository. */
  datatype Error = NotFound(id: string) | ReadFailed

  datatype Result<T> = Ok(value: T) | Failure(error: Error)

  /** `DocumentRepo.Get`, keeping only the text content. */
  function Get(store: Store, id: string): (r: Result<string>)
    ensures r.Ok? <==> id in store
    ensures r.Ok? ==> r.value == store[id]
    ensures r.Failure? ==> r.error == NotFound(id)
  {
    if id in store then Ok(store[id]) else Failure(NotFound(id))
  }
}
