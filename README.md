# Lending library data layer, in Dafny

This project models the in-memory data layer of a small lending library: the
`Library` class of `PT_Task1/DataLayer/Library.cs`. It covers:

- the catalog of entries, each a (title, author, hardback) triple;
- the list of physical book copies, each with a lending state of AVAILABLE,
  BORROWED or RESERVED;
- the list of users;
- two selection slots: the active book and the active user.

Modelled operations:

- appending a catalog entry (`AddEntry`);
- asking whether an entry exists (`CheckIfEntryExists`);
- selecting a copy by entry and state (`SelectBook`);
- selecting a user by name (`SelectUser`);
- changing the selected copy's state in place (`ChangeActiveBookStateTo`).

Layout:

- `sequences.dfy` (module `Sequences`): `LastIndexOf`, the reference definition
  of "the last match wins", used by both selection loops.
- `library.dfy` (module `DataLayer`): the entities and the `Library` class.

How the source is represented:

- `Book` is a class with a constant entry and a mutable `state`. The copy in
  `bookList` and the one in `activeBook` are the same object, so a state change
  made through the slot shows in the list.
- `User` is a class with a constant `username`.
- The static catalog list is a `Catalog` object that a `Library` holds. Libraries
  built with the same `Catalog` object share its entries, as the static list does;
  the model does not force a single catalog. Its `entries` field is a sequence
  that `AddEntry` reassigns.
- A thrown exception is an `Outcome` value that the method returns:
  `Completed`, or `Threw(NoSuchBook | NoSuchUser | NullReference)`.
- Field updates made before the throw are kept, as in the source.
- `RecordsOf` gives the (entry, state) of each copy in list order. `NamesOf`
  gives the usernames in list order. Selections are specified against these
  views.

The selection loops keep the LAST match and then throw even after a match
(Library.cs:43, 53). `SelectBook` and `SelectUser` follow the code.
`SelectBookChecked` gives the behaviour the tests expect
(Task1_Test/LibraryServiceTest.cs:191-200), and `SelectUserChecked` does the
same for users (see Findings).

In the source the user and book lists are never initialised. The model's
constructor takes them as given sequences.

## Model

| member | source | states |
|---|---|---|
| `Sequences.LastIndexOf` | PT_Task1/DataLayer/Library.cs:37-42 | The result is the position of the last element equal to the key: nothing after it matches. It is None exactly when no element matches. |
| `DataLayer.EntryExistsAfterAppend` | PT_Task1/DataLayer/Library.cs:20-32 | After an entry is appended, a triple exists exactly when it existed before or equals the new entry. So a just-added entry is always found, and other queries are unaffected. |
| `DataLayer.StateChangeMovesSelection` | PT_Task1/DataLayer/Library.cs:34-48 | Take a selected copy and change its state. A new selection with the old state picks nothing or an earlier position. A selection with the new state picks that copy's position or a later one. |
| `DataLayer.SelectThenChangeState` | PT_Task1/DataLayer/Library.cs:34-48 | On a library: select a copy by entry and state with the corrected `SelectBookChecked`, then change its state with `ChangeActiveBookStateTo`. `SelectBookChecked` and the as-written `SelectBook` leave the same `activeBook` by their contracts, so the property also holds for a caller that catches the as-written NoSuchBook and then changes the state. If a copy matched, a new selection with the old state gives nothing or an earlier position, and one with the new state gives that copy's position or a later one. |
| `DataLayer.Library.constructor` | PT_Task1/DataLayer/Library.cs:8-13 | Takes the given user and book lists and the shared catalog. Both selection slots start empty (null). |
| `DataLayer.Library.AddEntry` | PT_Task1/DataLayer/Library.cs:20-23 | The catalog becomes the old catalog plus the one new triple at the end, even if that triple was already present. Afterwards the triple exists. Nothing else changes. |
| `DataLayer.Library.CheckIfEntryExists` | PT_Task1/DataLayer/Library.cs:25-32 | Returns true iff some entry equals the arguments on title, author and hardback, all three. It modifies nothing. |
| `DataLayer.Library.ScanBooks` | PT_Task1/DataLayer/Library.cs:37-42 | `activeBook` becomes the last copy in the list with the requested entry and state, or is unchanged if none matches. Reports whether any copy matched. Only `activeBook` may change. |
| `DataLayer.Library.SelectBook` | PT_Task1/DataLayer/Library.cs:34-44 | Always ends in NoSuchBook. Leaves `activeBook` at the last matching copy, or unchanged if none matches. The lists, every copy's state and `activeUser` are unchanged. |
| `DataLayer.Library.SelectBookChecked` | PT_Task1/DataLayer/Library.cs:34-44 | Corrected selection: ends in NoSuchBook iff no copy matches. `activeBook` is left at the last matching copy, as in the code, or unchanged if none matches; on success it is a listed copy with the requested entry and state. |
| `DataLayer.Library.ChangeActiveBookStateTo` | PT_Task1/DataLayer/Library.cs:46-48 | With no selected copy: NullReference, and nothing changes. Otherwise the selected copy's state becomes the argument, at every list position holding that copy. All other positions keep their record. The slot and the list are unchanged. |
| `DataLayer.Library.ScanUsers` | PT_Task1/DataLayer/Library.cs:51-53 | `activeUser` becomes the last user with the given name, or is unchanged if none has it. Reports whether any user matched. |
| `DataLayer.Library.SelectUser` | PT_Task1/DataLayer/Library.cs:50-54 | Always ends in NoSuchUser. `activeUser` is the last user with the name, or unchanged. The lists, copy states and `activeBook` are unchanged. |
| `DataLayer.Library.SelectUserChecked` | PT_Task1/DataLayer/Library.cs:50-54 | Corrected selection: ends in NoSuchUser iff no user has the name. `activeUser` is left at the last user with that name, as in the code, or unchanged if none has it; on success it is a listed user with that name. |
| `DataLayer.SelectBookThrowsAfterMatch` | PT_Task1/DataLayer/Library.cs:34-44 | Uses a list holding one AVAILABLE copy. Selecting it puts that copy in the slot and still raises NoSuchBook. |
| `DataLayer.SelectUserThrowsAfterMatch` | PT_Task1/DataLayer/Library.cs:50-54 | Uses a list holding the user "White". Selecting "White" puts that user in the slot and still raises NoSuchUser. |

## Left out

- `AddBook`, `RemoveBook` and both `RemoveEntry` overloads (Library.cs:15-18, 56-69) only throw NotImplementedException. There is no behaviour to model.
- `eventHistory` is declared but no modelled operation reads or writes it.
- The lending service (`LibraryService`: rent, return, reserve, reservation queue, borrowing limit, permissions, event appends) lives outside Library.cs and is not part of this model.
- The five-argument `SelectBook(..., username)` that the tests call (Task1_Test/LibraryServiceTest.cs:27, 70) does not exist in Library.cs. The four-argument version at Library.cs:34 is modelled.
- The construction and population of the user and book lists, and of the static catalog, are not part of this model. The constructor takes them as given.
- Null references other than `activeBook` are not modelled. In the source each of these throws NullReferenceException: a null `bookList` or `userList`, or a null element of either (Library.cs:37-42, 51-52); a copy whose `Description` is null (Library.cs:39-41); a null `Catalog.entries` (Library.cs:22, 27) or a null element of it (Library.cs:29). The model's lists are sequences of non-null objects and its entries are values. The null `activeBook` dereference (Library.cs:47) is modelled.
- Null strings are not modelled. In C#, `==` accepts null, so `SelectUser(null)` compares without a NullReferenceException. It selects the users whose `Username` is null, then raises NoSuchUser like every call (Library.cs:52-53). Likewise a null title or author matches null fields in `CheckIfEntryExists` and `SelectBook`. Dafny strings cannot be null.
- Strings are sequences of Unicode scalar values compared exactly. This agrees with C# ordinal `==` on every string both can represent. C# strings are UTF-16 code units and may hold lone surrogates; such strings have no counterpart here.

## Findings

| source | as written | input that shows it | evidently intended | confidence | as-written member | corrected member |
|---|---|---|---|---|---|---|
| PT_Task1/DataLayer/Library.cs:43 | `throw NoSuchBook_Exception` follows the loop unconditionally | A book list holding one AVAILABLE copy of ("Harry Potter", "J. K. Rowling", true), then `SelectBook` on that triple with AVAILABLE. The copy is selected, and NoSuchBook is still raised. | Raise NoSuchBook only when no copy matched. Task1_Test/LibraryServiceTest.cs:191-200 expects the call to fail before the copy is added and to succeed after. | high; not executed | `DataLayer.Library.SelectBook`, exhibited by `DataLayer.SelectBookThrowsAfterMatch` | `DataLayer.Library.SelectBookChecked` |
| PT_Task1/DataLayer/Library.cs:53 | `throw NoSuchUser_Exception` follows the loop unconditionally | A user list holding "White", then `SelectUser("White")`. The user is selected, and NoSuchUser is still raised. | Raise NoSuchUser only when no user has the name. | medium; not executed | `DataLayer.Library.SelectUser`, exhibited by `DataLayer.SelectUserThrowsAfterMatch` | `DataLayer.Library.SelectUserChecked` |
