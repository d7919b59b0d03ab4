/** The in-memory data layer of the lending library: the catalog of
    (title, author, hardback) entries, the physical copies with their lending
    state, the users, and the two selection slots (active book, active user). */
module DataLayer {
  import opened Sequences

  /** Bibliographic identity of a book. Two entries are the same entry when
      they agree on all three fields. */
  datatype CatalogEntry = CatalogEntry(title: string, author: string, hardback: bool)

  datatype BookState = Available | Borrowed | Reserved

  /** What a copy looks like from outside at one moment: its entry and state. */
  datatype BookRecord = BookRecord(description: CatalogEntry, state: BookState)

  datatype LibraryError = NoSuchBook | NoSuchUser | NullReference

  /** How an operation ends: normally, or by raising one of the errors. */
  datatype Outcome = Completed | Threw(error: LibraryError)

  /** A physical copy. Its entry never changes; its state is updated in place,
      and every list or slot holding the copy sees the update. */
  class Book {
    const description: CatalogEntry
    var state: BookState

    constructor (description: CatalogEntry, state: BookState)
      ensures this.description == description && this.state == state
    {
      this.description := description;
      this.state := state;
    }
  }

  class User {
    const username: string

    constructor (username: string)
      ensures this.username == username
    {
      this.username := username;
    }
  }

  /** The list of catalog entries. Libraries built with the same Catalog object
      share its entries, as they share the static list. */
  class Catalog {
    var entries: seq<CatalogEntry>

    constructor (entries: seq<CatalogEntry>)
      ensures this.entries == entries
    {
      this.entries := entries;
    }
  }

  /** Some stored entry equals the given one on title, author and hardback. */
  predicate EntryExists(entries: seq<CatalogEntry>, title: string, author: string, hardback: bool)
  {
    exists i :: 0 <= i < |entries| && entries[i].title == title
      && entries[i].author == author && entries[i].hardback == hardback
  }

  /** After appending `e`, a triple is in the catalog exactly when it was there
      before or `e` is that triple; in particular an appended entry is found. */
  lemma EntryExistsAfterAppend(entries: seq<CatalogEntry>, e: CatalogEntry,
                               title: string, author: string, hardback: bool)
    ensures EntryExists(entries + [e], title, author, hardback)
        <==> EntryExists(entries, title, author, hardback) || e == CatalogEntry(title, author, hardback)
  {
    var grown := entries + [e];
    if EntryExists(entries, title, author, hardback) {
      var i :| 0 <= i < |entries| && entries[i].title == title
        && entries[i].author == author && entries[i].hardback == hardback;
      assert grown[i] == entries[i];
    }
    if e == CatalogEntry(title, author, hardback) {
      assert grown[|entries|] == e;
    }
    if EntryExists(grown, title, author, hardback) {
      var i :| 0 <= i < |grown| && grown[i].title == title
        && grown[i].author == author && grown[i].hardback == hardback;
      if i < |entries| {
        assert entries[i] == grown[i];
      }
    }
  }

  /** The records of a list of copies, position by position. */
  ghost function RecordsOf(books: seq<Book>): seq<BookRecord>
    reads books
  {
    seq(|books|, i reads books requires 0 <= i < |books| => BookRecord(books[i].description, books[i].state))
  }

  function NamesOf(users: seq<User>): seq<string>
  {
    seq(|users|, i requires 0 <= i < |users| => users[i].username)
  }

  /** Changing the state of the copy a selection picked moves it between
      selections: a new selection with the old state can only pick an earlier
      position, and one with the new state picks that copy or a later one.
      `before` and `after` are the records before and after the change; the
      positions that changed hold the same copy as position `k`. */
  lemma StateChangeMovesSelection(before: seq<BookRecord>, after: seq<BookRecord>, k: nat, s: BookState)
    requires k < |before| && |after| == |before|
    requires LastIndexOf(before, before[k]) == Some(k)
    requires s != before[k].state
    requires after[k] == before[k].(state := s)
    requires forall i :: 0 <= i < |before| ==>
               after[i] == before[i] || (before[i] == before[k] && after[i] == before[k].(state := s))
    ensures LastIndexOf(after, before[k]).None? || LastIndexOf(after, before[k]).value < k
    ensures LastIndexOf(after, before[k].(state := s)).Some?
    ensures LastIndexOf(after, before[k].(state := s)).value >= k
  {
  }

  class Library {
    /** Stands for the static list of catalog entries. */
    const catalog: Catalog
    var userList: seq<User>
    var bookList: seq<Book>
    var activeBook: Book?
    var activeUser: User?

    /** The lists are filled by the surrounding application; both slots
        start empty. */
    constructor (catalog: Catalog, users: seq<User>, books: seq<Book>)
      ensures this.catalog == catalog && userList == users && bookList == books
      ensures activeBook == null && activeUser == null
    {
      this.catalog := catalog;
      userList := users;
      bookList := books;
      activeBook := null;
      activeUser := null;
    }

    /** Appends the entry, duplicates included, and leaves everything else alone. */
    method AddEntry(title: string, author: string, hardback: bool)
      modifies catalog
      ensures catalog.entries == old(catalog.entries) + [CatalogEntry(title, author, hardback)]
      ensures EntryExists(catalog.entries, title, author, hardback)
    {
      EntryExistsAfterAppend(catalog.entries, CatalogEntry(title, author, hardback), title, author, hardback);
      catalog.entries := catalog.entries + [CatalogEntry(title, author, hardback)];
    }

    /** Scans the catalog and stops at the first entry matching on all three
        fields. Changes nothing. */
    method CheckIfEntryExists(title: string, author: string, hardback: bool) returns (found: bool)
      ensures found <==> EntryExists(catalog.entries, title, author, hardback)
    {
      var entries := catalog.entries;
      var i := 0;
      while i < |entries|
        invariant 0 <= i <= |entries|
        invariant forall j :: 0 <= j < i ==>
                    entries[j].title != title || entries[j].author != author || entries[j].hardback != hardback
      {
        var entry := entries[i];
        if entry.title == title && entry.author == author && entry.hardback == hardback {
          return true;
        }
        i := i + 1;
      }
      return false;
    }

    /** The loop shared by both selections of a copy: walks the whole book
        list, putting every copy with the given entry and state into the
        active slot, so the last one wins. Reports whether any copy matched. */
    method ScanBooks(title: string, author: string, hardback: bool, bookState: BookState)
      returns (found: bool)
      modifies this`activeBook
      ensures found <==> BookRecord(CatalogEntry(title, author, hardback), bookState) in RecordsOf(bookList)
      ensures match LastIndexOf(RecordsOf(bookList), BookRecord(CatalogEntry(title, author, hardback), bookState))
              case Some(k) => activeBook == bookList[k]
              case None => activeBook == old(activeBook)
    {
      var wanted := BookRecord(CatalogEntry(title, author, hardback), bookState);
      ghost var records := RecordsOf(bookList);
      found := false;
      var i := 0;
      while i < |bookList|
        invariant 0 <= i <= |bookList| && records == RecordsOf(bookList)
        invariant found == LastIndexOf(records[..i], wanted).Some?
        invariant match LastIndexOf(records[..i], wanted)
                  case Some(k) => activeBook == bookList[k]
                  case None => activeBook == old(activeBook)
      {
        var book := bookList[i];
        LastIndexOfExtend(records, i, wanted);
        if book.description.title == title
          && book.description.author == author
          && book.description.hardback == hardback
          && book.state == bookState
        {
          activeBook := book;
          found := true;
        }
        i := i + 1;
      }
      assert records[..i] == records;
    }

    /** The selection as written: the scan, then NoSuchBook whatever happened. */
    method SelectBook(title: string, author: string, hardback: bool, bookState: BookState)
      returns (outcome: Outcome)
      modifies this`activeBook
      ensures outcome == Threw(NoSuchBook)
      ensures match LastIndexOf(RecordsOf(bookList), BookRecord(CatalogEntry(title, author, hardback), bookState))
              case Some(k) => activeBook == bookList[k]
              case None => activeBook == old(activeBook)
      ensures RecordsOf(bookList) == old(RecordsOf(bookList))
      ensures bookList == old(bookList) && userList == old(userList) && activeUser == old(activeUser)
    {
      var _ := ScanBooks(title, author, hardback, bookState);
      outcome := Threw(NoSuchBook);
    }

    /** The selection as its callers expect it: NoSuchBook exactly when no copy
        matches, and otherwise a matching copy in the active slot. */
    method SelectBookChecked(title: string, author: string, hardback: bool, bookState: BookState)
      returns (outcome: Outcome)
      modifies this`activeBook
      ensures outcome == Threw(NoSuchBook) || outcome == Completed
      ensures outcome == Threw(NoSuchBook)
          <==> BookRecord(CatalogEntry(title, author, hardback), bookState) !in RecordsOf(bookList)
      ensures outcome == Completed ==>
                activeBook != null && activeBook in bookList
                && activeBook.description == CatalogEntry(title, author, hardback) && activeBook.state == bookState
      ensures match LastIndexOf(RecordsOf(bookList), BookRecord(CatalogEntry(title, author, hardback), bookState))
              case Some(k) => activeBook == bookList[k]
              case None => activeBook == old(activeBook)
    {
      var found := ScanBooks(title, author, hardback, bookState);
      outcome := if found then Completed else Threw(NoSuchBook);
    }

    /** Sets the selected copy's state in place. The copy is shared with the
        book list, so the change shows at every position holding it and
        nowhere else. Without a selected copy, the dereference fails. */
    method ChangeActiveBookStateTo(bookState: BookState) returns (outcome: Outcome)
      modifies activeBook
      ensures activeBook == old(activeBook) && bookList == old(bookList)
      ensures activeBook == null ==> outcome == Threw(NullReference)
      ensures activeBook != null ==> outcome == Completed && activeBook.state == bookState
      ensures forall i :: 0 <= i < |bookList| ==>
                RecordsOf(bookList)[i] == if bookList[i] == activeBook
                                          then old(RecordsOf(bookList)[i]).(state := bookState)
                                          else old(RecordsOf(bookList)[i])
    {
      if activeBook == null {
        return Threw(NullReference);
      }
      activeBook.state := bookState;
      outcome := Completed;
    }

    /** The loop shared by both selections of a user: walks the whole user
        list, putting every user with the given name into the active slot, so
        the last one wins. Reports whether any user matched. */
    method ScanUsers(username: string) returns (found: bool)
      modifies this`activeUser
      ensures found <==> username in NamesOf(userList)
      ensures match LastIndexOf(NamesOf(userList), username)
              case Some(k) => activeUser == userList[k]
              case None => activeUser == old(activeUser)
    {
      var names := NamesOf(userList);
      found := false;
      var i := 0;
      while i < |userList|
        invariant 0 <= i <= |userList|
        invariant found == LastIndexOf(names[..i], username).Some?
        invariant match LastIndexOf(names[..i], username)
                  case Some(k) => activeUser == userList[k]
                  case None => activeUser == old(activeUser)
      {
        var user := userList[i];
        LastIndexOfExtend(names, i, username);
        if user.username == username {
          activeUser := user;
          found := true;
        }
        i := i + 1;
      }
      assert names[..i] == names;
    }

    /** The selection as written: the scan, then NoSuchUser whatever happened. */
    method SelectUser(username: string) returns (outcome: Outcome)
      modifies this`activeUser
      ensures outcome == Threw(NoSuchUser)
      ensures match LastIndexOf(NamesOf(userList), username)
              case Some(k) => activeUser == userList[k]
              case None => activeUser == old(activeUser)
      ensures RecordsOf(bookList) == old(RecordsOf(bookList))
      ensures bookList == old(bookList) && userList == old(userList) && activeBook == old(activeBook)
    {
      var _ := ScanUsers(username);
      outcome := Threw(NoSuchUser);
    }

    /** The selection as its callers expect it: NoSuchUser exactly when no user
        has the name, and otherwise a user with that name in the active slot. */
    method SelectUserChecked(username: string) returns (outcome: Outcome)
      modifies this`activeUser
      ensures outcome == Threw(NoSuchUser) || outcome == Completed
      ensures outcome == Threw(NoSuchUser) <==> username !in NamesOf(userList)
      ensures outcome == Completed ==> activeUser != null && activeUser in userList && activeUser.username == username
      ensures match LastIndexOf(NamesOf(userList), username)
              case Some(k) => activeUser == userList[k]
              case None => activeUser == old(activeUser)
    {
      var found := ScanUsers(username);
      outcome := if found then Completed else Threw(NoSuchUser);
    }
  }

  /** A list holding one copy of an entry in the requested state: the selection
      as written puts that copy in the active slot and still raises NoSuchBook. */
  method SelectBookThrowsAfterMatch() returns (selected: Book?, outcome: Outcome)
    ensures selected != null && selected.description == CatalogEntry("Harry Potter", "J. K. Rowling", true)
    ensures selected.state == Available
    ensures outcome == Threw(NoSuchBook)
  {
    var entry := CatalogEntry("Harry Potter", "J. K. Rowling", true);
    var copy := new Book(entry, Available);
    var catalog := new Catalog([entry]);
    var library := new Library(catalog, [], [copy]);
    assert RecordsOf(library.bookList) == [BookRecord(entry, Available)];
    outcome := library.SelectBook(entry.title, entry.author, entry.hardback, Available);
    selected := library.activeBook;
  }

  /** A list holding one user with the requested name: the selection as
      written puts that user in the active slot and still raises NoSuchUser. */
  method SelectUserThrowsAfterMatch() returns (selected: User?, outcome: Outcome)
    ensures selected != null && selected.username == "White"
    ensures outcome == Threw(NoSuchUser)
  {
    var white := new User("White");
    var catalog := new Catalog([]);
    var library := new Library(catalog, [white], []);
    assert NamesOf(library.userList) == ["White"];
    outcome := library.SelectUser("White");
    selected := library.activeUser;
  }

  /** Select a copy by entry and state, move it to another state, and the
      copy leaves the old state's selection for the new state's: selecting
      with the old state now gives nothing or an earlier copy, and selecting
      with the new state gives that copy or a later one. */
  method SelectThenChangeState(library: Library, title: string, author: string, hardback: bool,
                               from: BookState, to: BookState)
    requires from != to
    modifies library, library.bookList
    ensures library.bookList == old(library.bookList)
    ensures var wanted := BookRecord(CatalogEntry(title, author, hardback), from);
            wanted in old(RecordsOf(library.bookList)) ==>
              var k := old(LastIndexOf(RecordsOf(library.bookList), wanted)).value;
              (LastIndexOf(RecordsOf(library.bookList), wanted).None?
               || LastIndexOf(RecordsOf(library.bookList), wanted).value < k)
              && LastIndexOf(RecordsOf(library.bookList), wanted.(state := to)).Some?
              && LastIndexOf(RecordsOf(library.bookList), wanted.(state := to)).value >= k
  {
    ghost var before := RecordsOf(library.bookList);
    var wanted := BookRecord(CatalogEntry(title, author, hardback), from);
    var selected := library.SelectBookChecked(title, author, hardback, from);
    if selected == Completed {
      var k := LastIndexOf(before, wanted).value;
      var _ := library.ChangeActiveBookStateTo(to);
      StateChangeMovesSelection(before, RecordsOf(library.bookList), k, to);
    }
  }
}
