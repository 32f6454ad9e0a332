/** The records that pass between the memory layer and its store: the memory
    dictionary that `AIMemo.add_memory` builds and `store.search` returns, its
    metadata, and the keyword arguments of a search. */
module Records {
  import opened Wrappers

  /** One entry of `metadata["entities"]`: the extractor's entity without its
      span. */
  datatype EntityInfo = EntityInfo(name: string, kind: string, value: string, confidence: real)

  /** A metadata value: the entity list the memory layer writes, or any other
      value a caller supplies, kept as its text. */
  datatype MetaValue = Text(text: string) | Entities(entities: seq<EntityInfo>)

  type Metadata = map<string, MetaValue>

  /** The key under which `add_memory` stores the extracted entities. */
  const EntitiesKey: string := "entities"

  /** A memory as stored and returned by the store. `category` is the empty
      string when the memory has none: only its truthiness is ever
      consulted. */
  datatype MemoryRecord = MemoryRecord(
    id: string,
    content: string,
    metadata: Metadata,
    tags: seq<string>,
    namespace: string,
    timestamp: string,
    category: string)

  /** The keyword arguments of `store.search`. A negative `limit` is passed
      through unchanged, as the code does. */
  datatype SearchRequest = SearchRequest(
    query: string,
    namespace: string,
    limit: int,
    tags: Option<seq<string>>,
    category: Option<string>)

  /** The store's search, an abstract collaborator: whatever list it returns
      for a request. */
  type Store = SearchRequest -> seq<MemoryRecord>

  /** The store isolates namespaces: a search returns only memories of the
      namespace it was asked about. */
  ghost predicate Scoped(store: Store) {
    forall req: SearchRequest, k: nat :: k < |store(req)| ==> store(req)[k].namespace == req.namespace
  }

  /** Python's truthiness of an optional string argument. */
  predicate Truthy(s: Option<string>) {
    s.Some? && s.value != ""
  }
}
