/** The writer process and the scanner process, one message at a time. */
module App {
  import opened Notes
  import opened Store
  import opened Vault
  import opened Watcher

  /** What the writer's mailbox holds. */
  datatype Message =
    | Rebuild(notes: seq<Note>)
    | Batch(batch: IndexBatch)
    | UpsertOne(note: Note)
    | DeleteOne(path: string)

  /** The record set after one message. */
  function Handled(m: NoteMap, message: Message): NoteMap {
    match message
    case Rebuild(notes) => PutAll(map[], notes)
    case Batch(b) => Batched(m, b.upserts, b.deletes, b.deletePrefixes)
    case UpsertOne(note) => m[note.path := note]
    case DeleteOne(path) => m - {path}
  }

  class IndexWriter {
    const store: NoteStore

    constructor (store: NoteStore)
      ensures this.store == store
    {
      this.store := store;
    }

    method HandleCast(message: Message)
      modifies store
      ensures store.inner == Handled(old(store.inner), message)
      ensures old(Keyed(store.inner)) ==> Keyed(store.inner)
    {
      match message {
        case Rebuild(notes) => store.Replace(notes);
        case Batch(b) => var _ := store.ApplyBatch(b.upserts, b.deletes, b.deletePrefixes);
        case UpsertOne(note) => store.Upsert(note);
        case DeleteOne(path) => store.Delete(path);
      }
    }
  }

  /** The scanner's walk of a vault that stands still, up to the cast. */
  method RunWalk(vault: Node) returns (cast: Message)
    ensures cast == Rebuild(ScanNotes(vault, []))
  {
    var notes, _, _ := ScanFrom(vault, []);
    cast := Rebuild(notes);
  }
}
