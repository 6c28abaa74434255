/** The contacts document: five positionally aligned columns, the shape the
    contact book keeps in memory and persists as one JSON object. */
module Contacts {

  /** One contact: the n-th entry of every column. */
  datatype Contact = Contact(id: int, forename: string, surname: string, emailAddress: string, mobileNumber: string)

  /** The keys `id`, `forename`, `surname`, `email_address` and `mobile_number`,
      each holding one column. */
  datatype ContactsDict = ContactsDict(
    ids: seq<int>,
    forenames: seq<string>,
    surnames: seq<string>,
    emailAddresses: seq<string>,
    mobileNumbers: seq<string>)

  /** The structural invariant: all five columns have the same length. */
  predicate Valid(d: ContactsDict)
  {
    && |d.forenames| == |d.ids|
    && |d.surnames| == |d.ids|
    && |d.emailAddresses| == |d.ids|
    && |d.mobileNumbers| == |d.ids|
  }

  function Size(d: ContactsDict): nat
  {
    |d.ids|
  }

  /** The contact stored at position `i` of every column. */
  function Row(d: ContactsDict, i: nat): Contact
    requires Valid(d) && i < Size(d)
  {
    Contact(d.ids[i], d.forenames[i], d.surnames[i], d.emailAddresses[i], d.mobileNumbers[i])
  }

  /** The contacts in column order. */
  function Rows(d: ContactsDict): (rows: seq<Contact>)
    requires Valid(d)
    ensures |rows| == Size(d)
  {
    seq(Size(d), i requires 0 <= i < Size(d) => Row(d, i))
  }

  predicate UniqueIds(d: ContactsDict)
  {
    forall i, j :: 0 <= i < j < |d.ids| ==> d.ids[i] != d.ids[j]
  }

  /** Python's `max` over a non-empty list of ids. */
  function MaxId(ids: seq<int>): (m: int)
    requires |ids| > 0
    ensures m in ids
    ensures forall i :: 0 <= i < |ids| ==> ids[i] <= m
  {
    if |ids| == 1 then ids[0]
    else
      var rest := MaxId(ids[1..]);
      if ids[0] >= rest then ids[0] else rest
  }

  /** Python's `list.index`: the position of the first occurrence of `x`. */
  function IndexOf(s: seq<int>, x: int): (k: nat)
    requires x in s
    ensures k < |s| && s[k] == x
    ensures forall j :: 0 <= j < k ==> s[j] != x
  {
    if s[0] == x then 0 else 1 + IndexOf(s[1..], x)
  }
}
