# Contact book: verified model of the contacts service and the surname search

This project models the two pieces of logic in the contact book that do more than
move widgets around.

- **Contacts service.** A contacts document has five positionally aligned columns:
  `id`, `forename`, `surname`, `email_address` and `mobile_number`. The service
  can create a contact, with id `max(ids) + 1`. It can remove a contact, either by
  position or by id. It can update the four editable fields of the contact with a
  given id. It also builds the list the window shows: every contact as
  `(id, "forename surname")`, ordered by surname.
- **Surname search.** `binary_search` is a lower-bound search over `[low, high)`.
  `find_contact` is a membership test.

Modules:

- `StringOrder` (`string_order.dfy`): Python's `<` on `str`, which compares by
  code point and puts a proper prefix first. Its lemmas show that it is a strict
  total order.
- `Contacts` (`contacts.dfy`): the document `ContactsDict`, one `Contact` row, the
  `Valid` invariant (all columns have the same length), `UniqueIds`, Python's
  `max` (`MaxId`) and `list.index` (`IndexOf`).
- `ContactsService` (`contacts_service.py`'s static methods, plus the pure core of
  its GUI handlers): create, remove, update and the display list. Each is a
  function from a document to a document. The two raising cases become
  `Err(EmptyCollection)` and `Err(IdNotFound(id))`.
- `SurnameSearch` (`binary_search.py`): `BinarySearch` and `FindContact` are
  methods with loop invariants. The unit tests' concrete lists appear as small
  methods.

Behaviour of the code that the model keeps:

- Update by id when the id occurs more than once: the pandas mask selects every
  matching row, `update_contact_logic` edits only `iloc[0]`, and the write-back,
  aligned by index, leaves the other rows unchanged. So the model updates the
  first row carrying the id.
- The display sort is pandas' default `sort_values` (quicksort), which is not
  guaranteed stable. The model promises only some surname-ordered permutation.
- The binary-search unit test's list is not sorted ("Hofstadter" comes before
  "Fowler"). Its expected result, 0, still follows from the boundary property
  `BinarySearch` guarantees for any list.

## Model

| member | source | states |
|---|---|---|
| Contacts.MaxId | contact_book/src/contact_book/service/contacts_service.py:122 | `max` of a non-empty id column is one of the ids and is at least every id |
| Contacts.IndexOf | contact_book/src/contact_book/service/contacts_service.py:254 | `list.index` of an id that occurs returns the position of its first occurrence |
| ContactsService.CreateContactLogic | contact_book/src/contact_book/service/contacts_service.py:103-128 | an empty id column is the `max` error. Otherwise each column gains exactly one element at its end and every earlier entry is unchanged. The new id is above every old id and one more than an existing id. The new row holds the given four fields. Equal column lengths and unique ids are preserved |
| ContactsService.RemoveContactLogic | contact_book/src/contact_book/service/contacts_service.py:221-243 | popping the same index from all five columns keeps them aligned and shrinks the size by one. Row j of the result is old row j before the index and old row j+1 from it on. Unique ids stay unique |
| ContactsService.RemoveThenReinsert | contact_book/src/contact_book/service/contacts_service.py:237-241 | putting the popped row back at its index gives the original rows, so removal keeps the other rows in their relative order |
| ContactsService.RemoveContactById | contact_book/src/contact_book/service/contacts_service.py:250-260 | an absent id is the `list.index` error. Otherwise the first row with the id is removed and the rest shift down. With unique ids, the id no longer occurs and every other id is still present |
| ContactsService.RemovedIds | contact_book/src/contact_book/service/contacts_service.py:254-260 | with unique ids, the ids left after popping position k are exactly the old ids other than the one at k |
| ContactsService.UpdateContactLogic | contact_book/src/contact_book/service/contacts_service.py:159-182 | the contact keeps its id and takes the given forename, surname, email address and mobile number |
| ContactsService.UpdateContactById | contact_book/src/contact_book/service/contacts_service.py:191-215 | an absent id is an error. Otherwise the id column and the size stay the same and the first row with the id holds the new values. Every other row is unchanged. With unique ids, only the row whose id matches changes |
| ContactsService.UpdateLastWriteWins | contact_book/src/contact_book/service/contacts_service.py:197-215 | updating the same id twice gives the same document as only the second update |
| ContactsService.UpdateWithCurrentValuesIsIdentity | contact_book/src/contact_book/service/contacts_service.py:197-215 | submitting a contact's current field values leaves the document unchanged |
| ContactsService.CreateThenRemoveRestores | contact_book/src/contact_book/service/contacts_service.py:122-126 | removing a freshly created contact by its new id gives back the original document, because the new id is fresh |
| ContactsService.SortBySurname | contact_book/src/contact_book/service/contacts_service.py:53 | the sorted rows are a permutation of the input rows, ascending by surname (no stability claim) |
| ContactsService.EntriesPermutation | contact_book/src/contact_book/service/contacts_service.py:56-61 | turning two permutations of the same rows into display lines gives two permutations of the same lines |
| ContactsService.ContactsList | contact_book/src/contact_book/service/contacts_service.py:53-61 | there is one line per contact. The lines are a permutation of the contacts' `(id, forename + " " + surname)`. They are the lines of a surname-ascending permutation of the rows |
| ContactsService.ContactsListAfterCreate | contact_book/src/contact_book/service/contacts_service.py:143-156 | after a create, the reloaded list holds exactly the old lines plus the new contact's line |
| ContactsService.ContactsListAfterRemove | contact_book/src/contact_book/service/contacts_service.py:252-265 | after a remove by id, the reloaded list holds exactly the old lines minus the removed contact's line |
| StringOrder.LessIrreflexive | contact_book/src/contact_book/service/binary_search.py:35 | no string is below itself under Python's `str` `<` |
| StringOrder.LessTransitive | contact_book/src/contact_book/service/binary_search.py:35 | Python's `str` `<` is transitive |
| StringOrder.LessTrichotomous | contact_book/src/contact_book/service/binary_search.py:35 | any two strings are equal or one is below the other |
| SurnameSearch.BinarySearch | contact_book/src/contact_book/service/binary_search.py:10-40 | `high` defaults to the list length. The loop terminates and every probe is in bounds. On any list, the result lies in `[low, high]` (or is `low` when `low > high`), the element before it is below the target and the element at it is not. On a sorted range it is the lower bound: it is where the target is exactly when the target is in the range |
| SurnameSearch.LowerBoundFindsFirst | contact_book/src/contact_book/service/binary_search.py:32-40 | in a sorted range, the target occurs exactly when it sits at the lower bound, and no element before the lower bound equals it (first occurrence) |
| SurnameSearch.LowerBoundUnique | contact_book/src/contact_book/service/binary_search.py:32-40 | a range has at most one lower bound for a given target, so the returned index is determined |
| SurnameSearch.FindContact | contact_book/src/contact_book/service/binary_search.py:43-65 | true exactly when the target is an element of the list. The list need not be sorted and the index argument does not matter |
| SurnameSearch.BinarySearchFindsCooper | tests/contact_book/service/test_binary_search.py:8-16 | searching the test list for "Cooper" returns 0 |
| SurnameSearch.FindContactExamples | tests/contact_book/service/test_binary_search.py:18-40 | "Cooper" is found in the test list and "Kripke" is not |

## Left out

- Reading and writing the JSON file (`get_contacts_dict`, `save_contacts_dict` in `utils.py`) is file I/O. The document is passed in and returned as a value.
- The pandas conversion (`convert_contacts_dict_to_df`, `.iloc`, `to_dict`) is a foreign library. The model works on the columns directly. `UpdateContactById` and `ContactsList` require `Valid` because building the DataFrame raises when the columns differ in length.
- RemoveContactById requires `Valid`. With misaligned columns, Python's pops can fail part-way through, and that partial mutation is not modelled.
- RemoveContactLogic requires `Valid` and `0 <= index < size`. Python pops from each column whatever the other columns' lengths are; its only caller passes an aligned document. Python's `pop` also accepts a negative index, which counts from the end, and raises on an out-of-range one.
- UpdateContactLogic takes one contact rather than the DataFrame whose first row it edits.
- Parsing the id field text with `int(...)` is not modelled. Ids arrive as integers.
- BinarySearch requires `low >= 0`. Python only logs a negative `low` and then indexes from the end of the list.
- BinarySearch requires `high <= len(list)`. Python would raise `IndexError` on a probe past the end.
- BinarySearch computes the midpoint as an exact integer floor. Python computes `int((low + high)/2)` through a float, which is exact only below 2^53.
- SortBySurname is an insertion sort, not pandas' quicksort. Its contract states only what both promise: a surname-ordered permutation, with no stability claim.
- All tkinter code is left out: the application window, the widget helpers in `utils.py`, `choose_contact`'s listbox selection, and `check_forename_or_surname_availability`, which returns in both branches and has no effect.
- `logging` calls, the `__main__` block of `binary_search.py` (reads from stdin), `root.py` and `constants.py` are left out.
