/** The records the engine reads: catalogue books, listening-history entries and
    the user document's lists (backend/models/user.model.js and
    backend/models/audiobook.model.js), with Mongo object ids abstracted to
    natural numbers and dates to integer milliseconds since the epoch. */
module Records {
  import opened Wrappers
  import opened Query

  type BookId = nat
  type UserId = nat

  const MsPerHour: int := 60 * 60 * 1000
  const MsPerDay: int := 24 * MsPerHour

  /** A catalogue audiobook, reduced to the fields the engine reads. */
  datatype Book = Book(id: BookId, title: string, authors: seq<string>, narrator: string,
                       genre: string, duration: int)

  /** One element of `listeningHistory`: progress is in whole seconds. */
  datatype HistoryEntry = HistoryEntry(audiobook: BookId, lastListenedAt: int, progress: nat)

  /** A history entry after `populate('listeningHistory.audiobook')`. */
  datatype Listen = Listen(book: Book, lastListenedAt: int, progress: nat)

  /** The user document's engine-relevant fields. */
  datatype Profile = Profile(id: UserId, favorites: seq<BookId>, history: seq<HistoryEntry>,
                             completed: seq<BookId>)

  /** Why a route answers with status 400. */
  datatype Error =
    | DanglingReference(id: BookId)   // populate left `null`, destructuring it throws
    | EmptyHistory                    // `[0][0]` of an empty entry list throws
    | MissingMilestones               // `user.milestones` is not a field of the user schema

  /** The UTC calendar day of a timestamp (`toISOString().split('T')[0]`), as a day number. */
  function DayOf(t: int): int {
    t / MsPerDay
  }

  /** The hour of day of a timestamp, with the server's time zone fixed to UTC. */
  function HourOf(t: int): (h: int)
    ensures 0 <= h < 24
  {
    (t / MsPerHour) % 24
  }

  /** The first catalogue book with the id, as `findById` and `populate` return it. */
  function Lookup(catalog: seq<Book>, id: BookId): (r: Option<Book>)
    ensures r.Some? <==> exists i :: 0 <= i < |catalog| && catalog[i].id == id
    ensures r.Some? ==> r.value in catalog && r.value.id == id
  {
    if catalog == [] then None
    else if catalog[0].id == id then Some(catalog[0])
    else Lookup(catalog[1..], id)
  }

  /** `populate('listeningHistory.audiobook')` followed by a handler that reads
      the populated book's fields: a history entry whose book is missing makes
      the handler throw. */
  function Populate(history: seq<HistoryEntry>, catalog: seq<Book>): (r: Result<seq<Listen>, Error>)
    ensures r.Success? <==> forall i :: 0 <= i < |history| ==> Lookup(catalog, history[i].audiobook).Some?
    ensures r.Success? ==> |r.value| == |history|
    ensures r.Success? ==> forall i :: 0 <= i < |history| ==>
      && r.value[i].book == Lookup(catalog, history[i].audiobook).value
      && r.value[i].lastListenedAt == history[i].lastListenedAt
      && r.value[i].progress == history[i].progress
  {
    if history == [] then Success([])
    else
      var e := history[|history| - 1];
      var init :- Populate(history[..|history| - 1], catalog);
      match Lookup(catalog, e.audiobook)
      case None => Failure(DanglingReference(e.audiobook))
      case Some(b) => Success(init + [Listen(b, e.lastListenedAt, e.progress)])
  }

  /** The ids of a reference list whose book exists, in list order. */
  function ExistingIds(ids: seq<BookId>, catalog: seq<Book>): seq<BookId> {
    Filter(ids, id => Lookup(catalog, id).Some?)
  }

  /** `populate('completedBooks')` on an array of references: the books that
      exist, in order; ids without a document are dropped. */
  function PopulateIds(ids: seq<BookId>, catalog: seq<Book>): (r: seq<Book>)
    ensures |r| == |ExistingIds(ids, catalog)|
    ensures forall k :: 0 <= k < |r| ==>
      Lookup(catalog, ExistingIds(ids, catalog)[k]).Some? && r[k] == Lookup(catalog, ExistingIds(ids, catalog)[k]).value
    ensures |r| <= |ids|
    ensures forall b :: b in r ==> b in catalog
    ensures (forall i :: 0 <= i < |ids| ==> Lookup(catalog, ids[i]).Some?) ==> |r| == |ids|
    ensures forall i :: 0 <= i < |ids| && Lookup(catalog, ids[i]).Some? ==> Lookup(catalog, ids[i]).value in r
  {
    if ids == [] then []
    else
      var init := PopulateIds(ids[..|ids| - 1], catalog);
      assert ExistingIds(ids, catalog) == ExistingIds(ids[..|ids| - 1], catalog)
        + if Lookup(catalog, ids[|ids| - 1]).Some? then [ids[|ids| - 1]] else [];
      match Lookup(catalog, ids[|ids| - 1])
      case None => init
      case Some(b) => init + [b]
  }
}
