/** The persisted note entity. */
module Model {
  import opened Wrappers

  /** Timestamps are opaque instants supplied by the caller. */
  type Timestamp = int

  /** A note record. `id` is absent until the repository assigns one on the first
      save. The five collections are sets of canonical tokens and tags; the
      entity initialises each of them to an empty set, so none is ever null. */
  datatype Note = Note(
    id: Option<int>,
    title: Option<string>,
    content: Option<string>,
    createdDate: Option<Timestamp>,
    lastModifiedDate: Option<Timestamp>,
    tokens: set<string>,
    titleTokens: set<string>,
    contentTokens: set<string>,
    userTags: set<string>,
    tags: set<string>)

  /** A freshly constructed entity: no id, no text, no timestamps, empty collections. */
  const EmptyNote: Note := Note(None, None, None, None, None, {}, {}, {}, {}, {})

  /** The input of a create or update request: the fields the service reads from it. */
  datatype NoteDraft = NoteDraft(title: Option<string>, content: Option<string>, userTags: Option<seq<string>>)
}
