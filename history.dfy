/** The user-document edits of backend/routes/users.js: add and remove a
    favourite, record listening progress, mark a book completed.  Each handler
    loads the document, edits one of its arrays in place and saves it; here the
    document is an object whose sequence fields the methods reassign, and each
    method is proved against a function on the old list. */
module History {
  import opened Wrappers
  import opened Records
  import Tally

  /** `if (!list.includes(id)) list.push(id)`. */
  function WithAdded(s: seq<BookId>, id: BookId): (r: seq<BookId>)
    ensures id in r
    ensures forall x :: x in r <==> x in s || x == id
    ensures |s| <= |r| <= |s| + 1 && r[..|s|] == s
    ensures |r| == |s| <==> id in s
    ensures Tally.Distinct(s) ==> Tally.Distinct(r)
  {
    if id in s then s else s + [id]
  }

  /** Adding the same id twice is adding it once. */
  lemma AddIdempotent(s: seq<BookId>, id: BookId)
    ensures WithAdded(WithAdded(s, id), id) == WithAdded(s, id)
  {
  }

  /** `list.filter(x => x.toString() !== id)`. */
  function Without(s: seq<BookId>, id: BookId): (r: seq<BookId>)
    ensures id !in r
    ensures |r| <= |s|
    ensures forall x :: x != id ==> multiset(r)[x] == multiset(s)[x]
  {
    if s == [] then []
    else
      assert s == s[..|s| - 1] + [s[|s| - 1]];
      Without(s[..|s| - 1], id) + (if s[|s| - 1] == id then [] else [s[|s| - 1]])
  }

  /** Removal keeps the other ids in their order: it distributes over concatenation. */
  lemma {:induction false} WithoutAppend(a: seq<BookId>, b: seq<BookId>, id: BookId)
    ensures Without(a + b, id) == Without(a, id) + Without(b, id)
  {
    if b == [] {
      assert a + b == a;
    } else {
      assert (a + b)[..|a + b| - 1] == a + b[..|b| - 1];
      WithoutAppend(a, b[..|b| - 1], id);
    }
  }

  /** Removing an absent id changes nothing, and removing twice is removing once. */
  lemma {:induction false} WithoutAbsent(s: seq<BookId>, id: BookId)
    requires id !in s
    ensures Without(s, id) == s
  {
    if s != [] {
      WithoutAbsent(s[..|s| - 1], id);
    }
  }

  lemma RemoveIdempotent(s: seq<BookId>, id: BookId)
    ensures Without(Without(s, id), id) == Without(s, id)
  {
    WithoutAbsent(Without(s, id), id);
  }

  /** `listeningHistory.find(entry => entry.audiobook.toString() === id)`, as an index. */
  function FirstIndex(h: seq<HistoryEntry>, id: BookId): (r: Option<nat>)
    ensures r.None? <==> forall j :: 0 <= j < |h| ==> h[j].audiobook != id
    ensures r.Some? ==> r.value < |h| && h[r.value].audiobook == id
    ensures r.Some? ==> forall j :: 0 <= j < r.value ==> h[j].audiobook != id
  {
    if h == [] then None
    else if h[0].audiobook == id then Some(0)
    else match FirstIndex(h[1..], id)
      case None => None
      case Some(i) => Some(i + 1)
  }

  /** The history after recording `progress` for `id` at time `now`. */
  function Upserted(h: seq<HistoryEntry>, id: BookId, progress: nat, now: int): seq<HistoryEntry> {
    match FirstIndex(h, id)
    case Some(i) => h[i := h[i].(lastListenedAt := now, progress := progress)]
    case None => h + [HistoryEntry(id, now, progress)]
  }

  /** Recording progress for a book that has an entry updates only its first
      entry (same book, new time and progress) and keeps the length; for a book
      without one it appends exactly one entry at the end. */
  lemma UpsertedMeaning(h: seq<HistoryEntry>, id: BookId, progress: nat, now: int)
    ensures (exists j :: 0 <= j < |h| && h[j].audiobook == id) ==>
      var i := FirstIndex(h, id).value;
      && |Upserted(h, id, progress, now)| == |h|
      && Upserted(h, id, progress, now)[i] == HistoryEntry(id, now, progress)
      && (forall j :: 0 <= j < |h| && j != i ==> Upserted(h, id, progress, now)[j] == h[j])
    ensures (forall j :: 0 <= j < |h| ==> h[j].audiobook != id) ==>
      Upserted(h, id, progress, now) == h + [HistoryEntry(id, now, progress)]
  {
  }

  function Books(h: seq<HistoryEntry>): (r: seq<BookId>)
    ensures |r| == |h|
    ensures forall i :: 0 <= i < |h| ==> r[i] == h[i].audiobook
  {
    seq(|h|, i requires 0 <= i < |h| => h[i].audiobook)
  }

  /** The history's books after an upsert are the old ones plus `id`, and a
      history with one entry per book keeps one entry per book. */
  lemma UpsertedBooks(h: seq<HistoryEntry>, id: BookId, progress: nat, now: int)
    ensures Books(Upserted(h, id, progress, now)) == WithAdded(Books(h), id)
    ensures Tally.Distinct(Books(h)) ==> Tally.Distinct(Books(Upserted(h, id, progress, now)))
  {
    var r := Upserted(h, id, progress, now);
    if FirstIndex(h, id).None? {
      assert id !in Books(h);
      assert Books(r) == Books(h) + [id];
    } else {
      assert id in Books(h);
    }
  }

  /** A user document loaded by `User.findById`, edited in place and saved. */
  class UserDocument {
    const id: UserId
    var favorites: seq<BookId>
    var history: seq<HistoryEntry>
    var completed: seq<BookId>

    constructor (p: Profile)
      ensures Snapshot() == p
    {
      id := p.id;
      favorites := p.favorites;
      history := p.history;
      completed := p.completed;
    }

    /** The document's current field values. */
    function Snapshot(): Profile
      reads this
    {
      Profile(id, favorites, history, completed)
    }

    /** POST /favorites/add: push the id unless it is already a favourite. */
    method AddFavorite(bookId: BookId)
      modifies this
      ensures favorites == WithAdded(old(favorites), bookId)
      ensures history == old(history) && completed == old(completed)
    {
      if bookId !in favorites {
        favorites := favorites + [bookId];
      }
    }

    /** POST /favorites/remove: keep every favourite but this id. */
    method RemoveFavorite(bookId: BookId)
      modifies this
      ensures favorites == Without(old(favorites), bookId)
      ensures history == old(history) && completed == old(completed)
    {
      favorites := Without(favorites, bookId);
    }

    /** POST /history/update: find the first entry for the book and update it
        in place, or append a new entry. */
    method UpdateHistory(bookId: BookId, progress: nat, now: int)
      modifies this
      ensures history == Upserted(old(history), bookId, progress, now)
      ensures favorites == old(favorites) && completed == old(completed)
    {
      var i := 0;
      while i < |history| && history[i].audiobook != bookId
        invariant 0 <= i <= |history|
        invariant forall j :: 0 <= j < i ==> history[j].audiobook != bookId
      {
        i := i + 1;
      }
      if i < |history| {
        assert FirstIndex(history, bookId) == Some(i);
        history := history[i := history[i].(lastListenedAt := now, progress := progress)];
      } else {
        history := history + [HistoryEntry(bookId, now, progress)];
      }
    }

    /** POST /complete-book: push the id unless the book is already completed. */
    method CompleteBook(bookId: BookId)
      modifies this
      ensures completed == WithAdded(old(completed), bookId)
      ensures favorites == old(favorites) && history == old(history)
    {
      if bookId !in completed {
        completed := completed + [bookId];
      }
    }
  }
}
