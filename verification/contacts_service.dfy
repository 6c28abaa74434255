/** The pure logic of the contacts service: create, update and remove a
    contact, and build the surname-ordered list the window shows. Reading and
    writing the JSON file and all widget work stay with the caller. */
module ContactsService {
  import opened StringOrder
  import opened Contacts

  /** The exceptions the service lets escape: `max` of an empty id column,
      and an id that is not in the id column. */
  datatype Error = EmptyCollection | IdNotFound(id: int)

  datatype Result<T> = Ok(value: T) | Err(error: Error)

  // ---------------------------------------------------------------------------
  // Create

  /** `xs'` is `xs` with `x` appended and nothing else changed. */
  predicate AppendedWith<T(==)>(xs: seq<T>, xs': seq<T>, x: T)
  {
    |xs'| == |xs| + 1 && xs'[..|xs|] == xs && xs'[|xs|] == x
  }

  /** `n` is `max(ids) + 1`: above every id, and one more than an id that occurs. */
  predicate IsNextId(ids: seq<int>, n: int)
  {
    (forall i :: 0 <= i < |ids| ==> ids[i] < n) && n - 1 in ids
  }

  /** Appends a contact to every column, with id `max(ids) + 1`. */
  function CreateContactLogic(
    d: ContactsDict, forename: string, surname: string, emailAddress: string, mobileNumber: string
  ): (r: Result<ContactsDict>)
    ensures r.Err? <==> |d.ids| == 0
    ensures r.Err? ==> r.error == EmptyCollection
    ensures r.Ok? ==>
      && |r.value.ids| == |d.ids| + 1
      && r.value.ids[..|d.ids|] == d.ids
      && IsNextId(d.ids, r.value.ids[|d.ids|])
      && AppendedWith(d.forenames, r.value.forenames, forename)
      && AppendedWith(d.surnames, r.value.surnames, surname)
      && AppendedWith(d.emailAddresses, r.value.emailAddresses, emailAddress)
      && AppendedWith(d.mobileNumbers, r.value.mobileNumbers, mobileNumber)
    ensures r.Ok? && Valid(d) ==>
      && Valid(r.value)
      && Row(r.value, Size(d)) == Contact(r.value.ids[Size(d)], forename, surname, emailAddress, mobileNumber)
    ensures r.Ok? && UniqueIds(d) ==> UniqueIds(r.value)
  {
    if |d.ids| == 0 then Err(EmptyCollection)
    else
      var newId := MaxId(d.ids) + 1;
      Ok(ContactsDict(
        d.ids + [newId],
        d.forenames + [forename],
        d.surnames + [surname],
        d.emailAddresses + [emailAddress],
        d.mobileNumbers + [mobileNumber]))
  }

  // ---------------------------------------------------------------------------
  // Remove

  /** `list.pop(i)`. */
  function Delete<T>(s: seq<T>, i: nat): seq<T>
    requires i < |s|
  {
    s[..i] + s[i + 1..]
  }

  /** Removes the contact at position `index` from every column. */
  function RemoveContactLogic(d: ContactsDict, index: nat): (r: ContactsDict)
    requires Valid(d) && index < Size(d)
    ensures Valid(r) && Size(r) == Size(d) - 1
    ensures forall j :: 0 <= j < Size(r) ==> Row(r, j) == Row(d, if j < index then j else j + 1)
    ensures UniqueIds(d) ==> UniqueIds(r)
  {
    ContactsDict(
      Delete(d.ids, index),
      Delete(d.forenames, index),
      Delete(d.surnames, index),
      Delete(d.emailAddresses, index),
      Delete(d.mobileNumbers, index))
  }

  /** Putting the removed contact back where it was gives the original rows. */
  lemma RemoveThenReinsert(d: ContactsDict, index: nat)
    requires Valid(d) && index < Size(d)
    ensures var r := RemoveContactLogic(d, index);
      Rows(d) == Rows(r)[..index] + [Row(d, index)] + Rows(r)[index..]
  {
    var r := RemoveContactLogic(d, index);
    var back := Rows(r)[..index] + [Row(d, index)] + Rows(r)[index..];
    forall j | 0 <= j < Size(d)
      ensures back[j] == Rows(d)[j]
    {
      if j > index {
        assert back[j] == Row(r, j - 1);
      }
    }
  }

  /** Looks the id up with `list.index` and removes the first contact carrying it. */
  function RemoveContactById(d: ContactsDict, id: int): (r: Result<ContactsDict>)
    requires Valid(d)
    ensures r.Err? <==> id !in d.ids
    ensures r.Err? ==> r.error == IdNotFound(id)
    ensures r.Ok? ==> Valid(r.value) && Size(r.value) == Size(d) - 1
    ensures r.Ok? ==>
      var k := IndexOf(d.ids, id);
      forall j :: 0 <= j < Size(r.value) ==> Row(r.value, j) == Row(d, if j < k then j else j + 1)
    ensures r.Ok? && UniqueIds(d) ==>
      && UniqueIds(r.value)
      && id !in r.value.ids
      && (forall x :: x in r.value.ids <==> x in d.ids && x != id)
  {
    if id !in d.ids then Err(IdNotFound(id))
    else
      var k := IndexOf(d.ids, id);
      var r := RemoveContactLogic(d, k);
      RemovedIds(d, k);
      Ok(r)
  }

  /** With unique ids, removing position `k` removes exactly the id stored there. */
  lemma RemovedIds(d: ContactsDict, k: nat)
    requires Valid(d) && k < Size(d)
    ensures UniqueIds(d) ==>
      forall x :: x in RemoveContactLogic(d, k).ids <==> x in d.ids && x != d.ids[k]
  {
    var r := RemoveContactLogic(d, k);
    if UniqueIds(d) {
      forall x | x in r.ids
        ensures x in d.ids && x != d.ids[k]
      {
        var j :| 0 <= j < |r.ids| && r.ids[j] == x;
        assert Row(r, j).id == x;
      }
      forall x | x in d.ids && x != d.ids[k]
        ensures x in r.ids
      {
        var j :| 0 <= j < |d.ids| && d.ids[j] == x;
        if j < k {
          assert Row(r, j).id == x;
        } else {
          assert Row(r, j - 1).id == x;
        }
      }
    }
  }

  // ---------------------------------------------------------------------------
  // Update

  /** Overwrites the four editable fields of one contact; the id stays. */
  function UpdateContactLogic(
    c: Contact, forename: string, surname: string, emailAddress: string, mobileNumber: string
  ): (r: Contact)
    ensures r.id == c.id
    ensures r.forename == forename && r.surname == surname
    ensures r.emailAddress == emailAddress && r.mobileNumber == mobileNumber
  {
    c.(forename := forename, surname := surname, emailAddress := emailAddress, mobileNumber := mobileNumber)
  }

  /** Writes the updated contact back at the first row whose id matches. */
  function UpdateContactById(
    d: ContactsDict, id: int, forename: string, surname: string, emailAddress: string, mobileNumber: string
  ): (r: Result<ContactsDict>)
    requires Valid(d)
    ensures r.Err? <==> id !in d.ids
    ensures r.Err? ==> r.error == IdNotFound(id)
    ensures r.Ok? ==> Valid(r.value) && r.value.ids == d.ids
    ensures r.Ok? ==>
      var k := IndexOf(d.ids, id);
      && Row(r.value, k) == Contact(id, forename, surname, emailAddress, mobileNumber)
      && forall j :: 0 <= j < Size(d) && j != k ==> Row(r.value, j) == Row(d, j)
    ensures r.Ok? && UniqueIds(d) ==>
      forall j :: 0 <= j < Size(d) ==>
        Row(r.value, j) == if d.ids[j] == id then Contact(id, forename, surname, emailAddress, mobileNumber) else Row(d, j)
  {
    if id !in d.ids then Err(IdNotFound(id))
    else
      var k := IndexOf(d.ids, id);
      var c := UpdateContactLogic(Row(d, k), forename, surname, emailAddress, mobileNumber);
      Ok(d.(
        forenames := d.forenames[k := c.forename],
        surnames := d.surnames[k := c.surname],
        emailAddresses := d.emailAddresses[k := c.emailAddress],
        mobileNumbers := d.mobileNumbers[k := c.mobileNumber]))
  }

  /** Updating a contact twice keeps only the second set of values. */
  lemma UpdateLastWriteWins(
    d: ContactsDict, id: int,
    f1: string, s1: string, e1: string, m1: string,
    f2: string, s2: string, e2: string, m2: string)
    requires Valid(d) && id in d.ids
    ensures UpdateContactById(UpdateContactById(d, id, f1, s1, e1, m1).value, id, f2, s2, e2, m2)
         == UpdateContactById(d, id, f2, s2, e2, m2)
  {
    var k := IndexOf(d.ids, id);
    var once := UpdateContactById(d, id, f1, s1, e1, m1).value;
    assert once.forenames[k := f2] == d.forenames[k := f2];
    assert once.surnames[k := s2] == d.surnames[k := s2];
    assert once.emailAddresses[k := e2] == d.emailAddresses[k := e2];
    assert once.mobileNumbers[k := m2] == d.mobileNumbers[k := m2];
  }

  /** Submitting a contact's current values leaves the document as it was. */
  lemma UpdateWithCurrentValuesIsIdentity(d: ContactsDict, id: int)
    requires Valid(d) && id in d.ids
    ensures var c := Row(d, IndexOf(d.ids, id));
      UpdateContactById(d, id, c.forename, c.surname, c.emailAddress, c.mobileNumber) == Ok(d)
  {
    var k := IndexOf(d.ids, id);
    assert d.forenames[k := d.forenames[k]] == d.forenames;
    assert d.surnames[k := d.surnames[k]] == d.surnames;
    assert d.emailAddresses[k := d.emailAddresses[k]] == d.emailAddresses;
    assert d.mobileNumbers[k := d.mobileNumbers[k]] == d.mobileNumbers;
  }

  // ---------------------------------------------------------------------------
  // Create and remove together

  lemma {:induction false} IndexOfFreshLast(s: seq<int>, x: int)
    requires x !in s
    ensures IndexOf(s + [x], x) == |s|
    decreases |s|
  {
    if |s| > 0 {
      assert (s + [x])[1..] == s[1..] + [x];
      IndexOfFreshLast(s[1..], x);
    }
  }

  lemma DeleteLast<T>(s: seq<T>, x: T)
    ensures Delete(s + [x], |s|) == s
  {
    assert (s + [x])[..|s|] == s;
  }

  /** Removing a freshly created contact by its new id restores the document. */
  lemma CreateThenRemoveRestores(
    d: ContactsDict, forename: string, surname: string, emailAddress: string, mobileNumber: string)
    requires Valid(d) && Size(d) > 0
    ensures var created := CreateContactLogic(d, forename, surname, emailAddress, mobileNumber).value;
      RemoveContactById(created, created.ids[Size(d)]) == Ok(d)
  {
    var created := CreateContactLogic(d, forename, surname, emailAddress, mobileNumber).value;
    var newId := created.ids[Size(d)];
    assert created.ids == d.ids + [newId];
    assert newId !in d.ids;
    IndexOfFreshLast(d.ids, newId);
    DeleteLast(d.ids, newId);
    DeleteLast(d.forenames, forename);
    DeleteLast(d.surnames, surname);
    DeleteLast(d.emailAddresses, emailAddress);
    DeleteLast(d.mobileNumbers, mobileNumber);
  }

  // ---------------------------------------------------------------------------
  // The display list

  /** The row order the contacts list is shown in: ascending by surname. */
  predicate SortedBySurname(rows: seq<Contact>)
  {
    forall i, j :: 0 <= i < j < |rows| ==> LessEq(rows[i].surname, rows[j].surname)
  }

  lemma PrependSorted(c: Contact, rows: seq<Contact>)
    requires SortedBySurname(rows)
    requires forall e :: e in rows ==> LessEq(c.surname, e.surname)
    ensures SortedBySurname([c] + rows)
  {
    var r := [c] + rows;
    forall i, j | 0 <= i < j < |r|
      ensures LessEq(r[i].surname, r[j].surname)
    {
      if i > 0 {
        assert r[i] == rows[i - 1] && r[j] == rows[j - 1];
      } else {
        assert r[j] in rows;
      }
    }
  }

  /** Inserts one contact into a surname-sorted sequence. */
  function InsertBySurname(c: Contact, rows: seq<Contact>): (r: seq<Contact>)
    requires SortedBySurname(rows)
    ensures multiset(r) == multiset(rows) + multiset{c}
    ensures |r| == |rows| + 1
    ensures SortedBySurname(r)
  {
    if |rows| == 0 then [c]
    else if LessEq(c.surname, rows[0].surname) then
      InsertedFirst(c, rows);
      [c] + rows
    else
      var tail := InsertBySurname(c, rows[1..]);
      InsertedLater(c, rows, tail);
      assert rows == [rows[0]] + rows[1..];
      [rows[0]] + tail
  }

  lemma InsertedFirst(c: Contact, rows: seq<Contact>)
    requires SortedBySurname(rows) && |rows| > 0
    requires LessEq(c.surname, rows[0].surname)
    ensures SortedBySurname([c] + rows)
  {
    forall e | e in rows
      ensures LessEq(c.surname, e.surname)
    {
      var j :| 0 <= j < |rows| && rows[j] == e;
      if j > 0 {
        LessEqTransitive(c.surname, rows[0].surname, e.surname);
      }
    }
    PrependSorted(c, rows);
  }

  lemma InsertedLater(c: Contact, rows: seq<Contact>, tail: seq<Contact>)
    requires SortedBySurname(rows) && |rows| > 0
    requires !LessEq(c.surname, rows[0].surname)
    requires SortedBySurname(tail) && multiset(tail) == multiset(rows[1..]) + multiset{c}
    ensures SortedBySurname([rows[0]] + tail)
  {
    forall e | e in tail
      ensures LessEq(rows[0].surname, e.surname)
    {
      assert e in multiset(tail);
      if e == c {
        LessAsymmetric(rows[0].surname, c.surname);
      } else {
        assert e in multiset(rows[1..]);
        var j :| 0 <= j < |rows[1..]| && rows[1..][j] == e;
        assert rows[j + 1] == e;
      }
    }
    PrependSorted(rows[0], tail);
  }

  /** Some surname-ordered arrangement of the rows; no claim of stability. */
  function SortBySurname(rows: seq<Contact>): (r: seq<Contact>)
    ensures multiset(r) == multiset(rows)
    ensures |r| == |rows|
    ensures SortedBySurname(r)
  {
    if |rows| == 0 then []
    else
      assert rows == [rows[0]] + rows[1..];
      InsertBySurname(rows[0], SortBySurname(rows[1..]))
  }

  /** The listbox line of one contact: its id and "forename surname". */
  function Entry(c: Contact): (int, string)
  {
    (c.id, c.forename + " " + c.surname)
  }

  function Entries(rows: seq<Contact>): (es: seq<(int, string)>)
    ensures |es| == |rows|
  {
    seq(|rows|, i requires 0 <= i < |rows| => Entry(rows[i]))
  }

  lemma EntriesConcat(a: seq<Contact>, b: seq<Contact>)
    ensures Entries(a + b) == Entries(a) + Entries(b)
  {
  }

  /** Dropping position `k` drops one copy of the element there. */
  lemma MultisetDelete<T>(s: seq<T>, k: nat)
    requires k < |s|
    ensures multiset(Delete(s, k)) == multiset(s) - multiset{s[k]}
  {
    assert s == s[..k] + [s[k]] + s[k + 1..];
  }

  lemma EntriesDelete(s: seq<Contact>, k: nat)
    requires k < |s|
    ensures Entries(Delete(s, k)) == Delete(Entries(s), k)
  {
  }

  /** Rearranging the rows rearranges their lines the same way. */
  lemma {:induction false} EntriesPermutation(a: seq<Contact>, b: seq<Contact>)
    requires multiset(a) == multiset(b)
    ensures multiset(Entries(a)) == multiset(Entries(b))
    decreases |a|
  {
    if |a| == 0 {
      assert |multiset(b)| == 0;
    } else {
      var x := a[0];
      assert x in multiset(b);
      var k :| 0 <= k < |b| && b[k] == x;
      MultisetDelete(a, 0);
      MultisetDelete(b, k);
      EntriesPermutation(Delete(a, 0), Delete(b, k));
      EntriesDelete(a, 0);
      EntriesDelete(b, k);
      MultisetDelete(Entries(a), 0);
      MultisetDelete(Entries(b), k);
      assert multiset(Entries(a)) == multiset(Entries(Delete(a, 0))) + multiset{Entry(x)};
    }
  }

  /** The contacts list: every contact once, ordered by surname, each shown
      as its id and "forename surname". */
  function ContactsList(d: ContactsDict): (r: seq<(int, string)>)
    requires Valid(d)
    ensures |r| == Size(d)
    ensures multiset(r) == multiset(Entries(Rows(d)))
    ensures exists rows :: multiset(rows) == multiset(Rows(d)) && SortedBySurname(rows) && r == Entries(rows)
  {
    var sorted := SortBySurname(Rows(d));
    EntriesPermutation(sorted, Rows(d));
    Entries(sorted)
  }

  /** After a create the list shows exactly one more line: the new contact's. */
  lemma ContactsListAfterCreate(
    d: ContactsDict, forename: string, surname: string, emailAddress: string, mobileNumber: string)
    requires Valid(d) && Size(d) > 0
    ensures var created := CreateContactLogic(d, forename, surname, emailAddress, mobileNumber).value;
      multiset(ContactsList(created))
        == multiset(ContactsList(d)) + multiset{Entry(Contact(created.ids[Size(d)], forename, surname, emailAddress, mobileNumber))}
  {
    var created := CreateContactLogic(d, forename, surname, emailAddress, mobileNumber).value;
    var c := Row(created, Size(d));
    assert Rows(created) == Rows(d) + [c];
    assert Entries(Rows(created)) == Entries(Rows(d)) + [Entry(c)];
  }

  /** Splitting the rows around the removed one splits their lines the same way. */
  lemma EntriesAroundRemoved(d: ContactsDict, k: nat)
    requires Valid(d) && k < Size(d)
    ensures multiset(Entries(Rows(RemoveContactLogic(d, k)))) + multiset{Entry(Row(d, k))}
         == multiset(Entries(Rows(d)))
  {
    var rs := Rows(RemoveContactLogic(d, k));
    RemoveThenReinsert(d, k);
    var front, back := rs[..k], rs[k..];
    assert rs == front + back;
    EntriesConcat(front, back);
    EntriesConcat(front + [Row(d, k)], back);
    EntriesConcat(front, [Row(d, k)]);
  }

  /** After a remove the list has lost exactly the removed contact's line. */
  lemma ContactsListAfterRemove(d: ContactsDict, id: int)
    requires Valid(d) && id in d.ids
    ensures var removed := RemoveContactById(d, id).value;
      multiset(ContactsList(removed)) + multiset{Entry(Row(d, IndexOf(d.ids, id)))}
        == multiset(ContactsList(d))
  {
    var k := IndexOf(d.ids, id);
    assert RemoveContactById(d, id).value == RemoveContactLogic(d, k);
    EntriesAroundRemoved(d, k);
  }
}
