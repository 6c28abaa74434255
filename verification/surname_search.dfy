/** Searching a list of surnames: the lower-bound binary search and the plain
    membership test that reports whether a surname is present. */
module SurnameSearch {
  import opened StringOrder

  datatype Option<T> = None | Some(value: T)

  /** `high_value` when given, the length of the list when omitted. */
  function HighOrLength(s: seq<string>, highValue: Option<int>): int
  {
    match highValue
    case None => |s|
    case Some(h) => h
  }

  /** `s[lo..hi]` is ascending in the string order. */
  predicate SortedRange(s: seq<string>, lo: int, hi: int)
  {
    0 <= lo <= hi <= |s| &&
    forall i, j :: lo <= i < j < hi ==> LessEq(s[i], s[j])
  }

  /** `r` splits `s[lo..hi]` into the elements below `t` and the rest. */
  predicate IsLowerBound(s: seq<string>, t: string, lo: int, hi: int, r: int)
    requires 0 <= lo && hi <= |s|
  {
    && lo <= r <= hi
    && (forall i :: lo <= i < r ==> Less(s[i], t))
    && (forall i :: r <= i < hi ==> LessEq(t, s[i]))
  }

  /** In a sorted range the lower bound is where `t` is, if it is anywhere,
      and no earlier element equals `t`. */
  lemma LowerBoundFindsFirst(s: seq<string>, t: string, lo: int, hi: int, r: int)
    requires SortedRange(s, lo, hi) && IsLowerBound(s, t, lo, hi, r)
    ensures (exists i :: lo <= i < hi && s[i] == t) <==> r < hi && s[r] == t
    ensures forall i :: lo <= i < r ==> s[i] != t
  {
    LessIrreflexive(t);
    if exists i :: lo <= i < hi && s[i] == t {
      var i :| lo <= i < hi && s[i] == t;
      assert r <= i;
      assert LessEq(s[r], t) by {
        if r < i {
          assert LessEq(s[r], s[i]);
        }
      }
      LessEqAntisymmetric(s[r], t);
    }
  }

  /** A range has only one lower bound for a given target. */
  lemma LowerBoundUnique(s: seq<string>, t: string, lo: int, hi: int, r1: int, r2: int)
    requires 0 <= lo && hi <= |s|
    requires IsLowerBound(s, t, lo, hi, r1) && IsLowerBound(s, t, lo, hi, r2)
    ensures r1 == r2
  {
    assert r1 < hi ==> LessEq(t, s[r1]);
    assert r2 < hi ==> LessEq(t, s[r2]);
  }

  /** `binary_search`: halves `[low, high)` until it is empty and returns `low`.
      The bounds and the boundary property hold for any list; the lower-bound
      property needs the range to be sorted. */
  method BinarySearch(s: seq<string>, t: string, lowValue: int, highValue: Option<int>) returns (r: int)
    requires 0 <= lowValue
    requires HighOrLength(s, highValue) <= |s|
    ensures var hi := HighOrLength(s, highValue);
      && (lowValue <= hi ==> lowValue <= r <= hi)
      && (hi < lowValue ==> r == lowValue)
    ensures var hi := HighOrLength(s, highValue);
      && (r == lowValue || (0 < r <= |s| && Less(s[r - 1], t)))
      && (hi <= r || (0 <= r < |s| && LessEq(t, s[r])))
    ensures var hi := HighOrLength(s, highValue);
      SortedRange(s, lowValue, hi) ==> IsLowerBound(s, t, lowValue, hi, r)
    ensures var hi := HighOrLength(s, highValue);
      SortedRange(s, lowValue, hi) ==>
        ((exists i :: lowValue <= i < hi && s[i] == t) <==> r < hi && s[r] == t)
  {
    var low := lowValue;
    var high := HighOrLength(s, highValue);
    ghost var hi := high;
    while low < high
      invariant lowValue <= low && high <= hi
      invariant lowValue <= hi ==> low <= high
      invariant hi < lowValue ==> low == lowValue
      invariant low == lowValue || (0 < low <= |s| && Less(s[low - 1], t))
      invariant high == hi || (0 <= high < |s| && LessEq(t, s[high]))
      invariant SortedRange(s, lowValue, hi) ==> forall i :: lowValue <= i < low ==> Less(s[i], t)
      invariant SortedRange(s, lowValue, hi) ==> forall i :: high <= i < hi ==> LessEq(t, s[i])
      decreases high - low
    {
      var middle := (low + high) / 2;
      if Less(s[middle], t) {
        if SortedRange(s, lowValue, hi) {
          forall i | low <= i < middle
            ensures Less(s[i], t)
          {
            LessEqLessTransitive(s[i], s[middle], t);
          }
        }
        low := middle + 1;
      } else {
        if SortedRange(s, lowValue, hi) {
          forall i | middle < i < high
            ensures LessEq(t, s[i])
          {
            LessEqTransitive(t, s[middle], s[i]);
          }
        }
        high := middle;
      }
    }
    r := low;
    if SortedRange(s, lowValue, hi) {
      LowerBoundFindsFirst(s, t, lowValue, hi, r);
    }
  }

  /** `find_contact`: whether `t` is in the list, by a front-to-back scan. The
      index argument is only logged and does not affect the answer; the list
      need not be sorted. */
  method FindContact(s: seq<string>, t: string, indexIfFound: Option<int>) returns (found: bool)
    ensures found <==> exists i :: 0 <= i < |s| && s[i] == t
  {
    var i := 0;
    while i < |s|
      invariant 0 <= i <= |s|
      invariant forall j :: 0 <= j < i ==> s[j] != t
    {
      if s[i] == t {
        return true;
      }
      i := i + 1;
    }
    return false;
  }

  /** The list the unit tests search: not sorted ("Hofstadter" precedes "Fowler"). */
  function TestSurnames(): seq<string>
  {
    ["Cooper", "Hofstadter", "Fowler", "Wolowitz"]
  }

  /** The unit test of `binary_search`: "Cooper" is found at index 0, which
      follows from the boundary property although the list is unsorted. */
  method BinarySearchFindsCooper() returns (r: int)
    ensures r == 0
  {
    var s := TestSurnames();
    r := BinarySearch(s, "Cooper", 0, None);
    LessIrreflexive("Cooper");
  }

  /** The unit tests of `find_contact`: "Cooper" is present, "Kripke" is not. */
  method FindContactExamples() returns (cooper: bool, kripke: bool)
    ensures cooper && !kripke
  {
    var s := TestSurnames();
    cooper := FindContact(s, "Cooper", Some(0));
    assert s[0] == "Cooper";
    kripke := FindContact(s, "Kripke", None);
    assert forall i :: 0 <= i < |s| ==> s[i][0] != 'K';
  }
}
