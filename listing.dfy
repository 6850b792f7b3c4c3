/**
 * The file list of `MiniBlogApp.refresh_file_list`: keep the directory
 * entries whose lower-cased name ends in ".txt", sort them in place by their
 * lower-cased name (Python's sort is stable, so entries whose keys tie keep
 * their directory order), and find the position of the file to select.
 */
module Listing {
  import opened Wrappers
  import opened Text

  // ---------------------------------------------------------------------
  // Filtering
  // ---------------------------------------------------------------------

  /** `f.lower().endswith(".txt")`. */
  predicate IsTxtName(f: string) {
    EndsWith(Lower(f), ".txt")
  }

  /** The entries that pass the ".txt" test, in directory order. */
  function TxtNames(entries: seq<string>): seq<string> {
    if entries == [] then []
    else
      var last := entries[|entries| - 1];
      TxtNames(entries[..|entries| - 1]) + (if IsTxtName(last) then [last] else [])
  }

  /** The filter keeps exactly the ".txt" entries, each as often as it
      occurs, and nothing else. */
  lemma {:induction false} TxtNamesContents(entries: seq<string>)
    ensures forall x :: x in TxtNames(entries) <==> x in entries && IsTxtName(x)
    ensures forall x :: IsTxtName(x) ==> multiset(TxtNames(entries))[x] == multiset(entries)[x]
    ensures forall x :: !IsTxtName(x) ==> multiset(TxtNames(entries))[x] == 0
  {
    if entries != [] {
      var init := entries[..|entries| - 1];
      TxtNamesContents(init);
      assert entries == init + [entries[|entries| - 1]];
    }
  }

  /** The list comprehension of `refresh_file_list`, as a loop over the
      directory entries. */
  method ListTxt(entries: seq<string>) returns (files: seq<string>)
    ensures files == TxtNames(entries)
  {
    files := [];
    var i := 0;
    while i < |entries|
      invariant 0 <= i <= |entries|
      invariant files == TxtNames(entries[..i])
    {
      assert entries[..i + 1][..i] == entries[..i];
      if IsTxtName(entries[i]) {
        files := files + [entries[i]];
      }
      i := i + 1;
    }
    assert entries[..i] == entries;
  }

  // ---------------------------------------------------------------------
  // Stable sort by lower-cased name
  // ---------------------------------------------------------------------

  /** `x.lower() <= y.lower()`: the order of the sort key, comparing the
      lower-cased characters one at a time. */
  predicate KeyLe(x: string, y: string) {
    if |x| == 0 then true
    else if |y| == 0 then false
    else if LowerChar(x[0]) != LowerChar(y[0]) then LowerChar(x[0]) < LowerChar(y[0])
    else KeyLe(x[1..], y[1..])
  }

  /** The key order is the string order of the lower-cased names. */
  lemma {:induction false} KeyLeIsLowerOrder(x: string, y: string)
    ensures KeyLe(x, y) <==> LexLe(Lower(x), Lower(y))
  {
    if |x| > 0 && |y| > 0 {
      KeyLeIsLowerOrder(x[1..], y[1..]);
      assert Lower(x)[1..] == Lower(x[1..]);
      assert Lower(y)[1..] == Lower(y[1..]);
    }
  }

  /** `x.lower() == y.lower()`, one character at a time. */
  predicate SameKey(x: string, y: string) {
    |x| == |y| && (|x| == 0 || (LowerChar(x[0]) == LowerChar(y[0]) && SameKey(x[1..], y[1..])))
  }

  lemma {:induction false} SameKeyIsLowerEquality(x: string, y: string)
    ensures SameKey(x, y) <==> Lower(x) == Lower(y)
  {
    if |x| == |y| && |x| > 0 {
      SameKeyIsLowerEquality(x[1..], y[1..]);
      assert Lower(x) == [LowerChar(x[0])] + Lower(x[1..]);
      assert Lower(y) == [LowerChar(y[0])] + Lower(y[1..]);
      if Lower(x) == Lower(y) {
        assert Lower(x)[0] == Lower(y)[0];
        assert Lower(x)[1..] == Lower(y)[1..];
      }
    }
  }

  /** Names with the same key are in order both ways. */
  lemma {:induction false} KeyLeSameKey(x: string, y: string)
    ensures SameKey(x, y) ==> KeyLe(x, y)
  {
    if |x| > 0 && |y| > 0 {
      KeyLeSameKey(x[1..], y[1..]);
    }
  }

  /** Python's sort compares keys with `<` only, so two names tie when
      neither key is below the other: that is exactly `SameKey`. */
  lemma SameKeyIsTie(x: string, y: string)
    ensures SameKey(x, y) <==> KeyLe(x, y) && KeyLe(y, x)
  {
    KeyLeIsLowerOrder(x, y);
    KeyLeIsLowerOrder(y, x);
    SameKeyIsLowerEquality(x, y);
    SameKeyIsLowerEquality(y, x);
    KeyLeSameKey(x, y);
    KeyLeSameKey(y, x);
    if KeyLe(x, y) && KeyLe(y, x) {
      LexLeAntisymmetric(Lower(x), Lower(y));
    }
  }

  lemma KeyLeTotal(x: string, y: string)
    ensures KeyLe(x, y) || KeyLe(y, x)
  {
    KeyLeIsLowerOrder(x, y);
    KeyLeIsLowerOrder(y, x);
    LexLeTotal(Lower(x), Lower(y));
  }

  lemma KeyLeTransitive(x: string, y: string, z: string)
    requires KeyLe(x, y) && KeyLe(y, z)
    ensures KeyLe(x, z)
  {
    KeyLeIsLowerOrder(x, y);
    KeyLeIsLowerOrder(y, z);
    KeyLeIsLowerOrder(x, z);
    LexLeTransitive(Lower(x), Lower(y), Lower(z));
  }

  predicate Sorted(s: seq<string>) {
    forall i, j :: 0 <= i < j < |s| ==> KeyLe(s[i], s[j])
  }

  /** Where a stable insertion puts `x` into `s`: just after the last
      element whose key is at most that of `x`. */
  function Slot(s: seq<string>, x: string): (p: nat)
    ensures p <= |s|
  {
    if s == [] then 0
    else if KeyLe(s[|s| - 1], x) then |s|
    else Slot(s[..|s| - 1], x)
  }

  /** The element just before the slot has a key at most that of `x`, and
      every element after it a key above. */
  lemma {:induction false} SlotSpec(s: seq<string>, x: string)
    ensures Slot(s, x) == 0 || KeyLe(s[Slot(s, x) - 1], x)
    ensures forall k :: Slot(s, x) <= k < |s| ==> !KeyLe(s[k], x)
  {
    if s != [] && !KeyLe(s[|s| - 1], x) {
      var init := s[..|s| - 1];
      SlotSpec(init, x);
      assert forall k :: 0 <= k < |init| ==> init[k] == s[k];
    }
  }

  /** Those two facts pin the slot down. */
  lemma SlotUnique(s: seq<string>, x: string, j: nat)
    requires j <= |s|
    requires j == 0 || KeyLe(s[j - 1], x)
    requires forall k :: j <= k < |s| ==> !KeyLe(s[k], x)
    ensures Slot(s, x) == j
  {
    SlotSpec(s, x);
  }

  /** The step of a stable insertion sort. */
  function Insert(s: seq<string>, x: string): seq<string> {
    s[..Slot(s, x)] + [x] + s[Slot(s, x)..]
  }

  /** The list `files.sort(key=lambda x: x.lower())` leaves. */
  function StableSort(s: seq<string>): seq<string> {
    if s == [] then []
    else Insert(StableSort(s[..|s| - 1]), s[|s| - 1])
  }

  /** The elements with the key of `k`, in order. */
  function WithKey(s: seq<string>, k: string): seq<string> {
    if s == [] then []
    else
      var last := s[|s| - 1];
      WithKey(s[..|s| - 1], k) + (if SameKey(last, k) then [last] else [])
  }

  lemma {:induction false} WithKeyAppend(a: seq<string>, b: seq<string>, k: string)
    ensures WithKey(a + b, k) == WithKey(a, k) + WithKey(b, k)
  {
    if b != [] {
      var init := b[..|b| - 1];
      assert (a + b)[..|a + b| - 1] == a + init;
      WithKeyAppend(a, init, k);
    } else {
      assert a + b == a;
    }
  }

  lemma WithKeySingle(x: string, k: string)
    ensures WithKey([x], k) == if SameKey(x, k) then [x] else []
  {
    assert [x][..0] == [];
  }

  lemma {:induction false} WithKeyNone(s: seq<string>, k: string)
    requires forall i :: 0 <= i < |s| ==> !SameKey(s[i], k)
    ensures WithKey(s, k) == []
  {
    if s != [] {
      WithKeyNone(s[..|s| - 1], k);
    }
  }

  lemma InsertPermutes(s: seq<string>, x: string)
    ensures multiset(Insert(s, x)) == multiset(s) + multiset{x}
  {
    var p := Slot(s, x);
    assert s == s[..p] + s[p..];
  }

  lemma InsertSorted(s: seq<string>, x: string)
    requires Sorted(s)
    ensures Sorted(Insert(s, x))
  {
    var p := Slot(s, x);
    var r := Insert(s, x);
    SlotSpec(s, x);
    assert forall i :: 0 <= i < p ==> r[i] == s[i];
    assert r[p] == x;
    assert forall i :: p < i < |r| ==> r[i] == s[i - 1];
    forall i, j | 0 <= i < j < |r| ensures KeyLe(r[i], r[j]) {
      if i < p && j == p {
        if i < p - 1 {
          KeyLeTransitive(s[i], s[p - 1], x);
        }
      } else if i == p {
        KeyLeTotal(x, s[j - 1]);
      }
    }
  }

  /** Inserting keeps, for every key, the elements with that key in their
      order, with the inserted element after those already there. */
  lemma InsertStable(s: seq<string>, x: string, k: string)
    ensures WithKey(Insert(s, x), k) == WithKey(s, k) + WithKey([x], k)
  {
    var p := Slot(s, x);
    var a, b := s[..p], s[p..];
    if SameKey(x, k) {
      AfterSlotOtherKeys(s, x, k);
      assert forall i :: 0 <= i < |b| ==> b[i] == s[p + i];
      WithKeyNone(b, k);
    }
    WithKeyAround(a, x, b, k);
    assert a + b == s;
  }

  /** Putting `x` between `a` and `b` adds it after the elements of its key,
      provided none of them is in `b`. */
  lemma WithKeyAround(a: seq<string>, x: string, b: seq<string>, k: string)
    requires SameKey(x, k) ==> WithKey(b, k) == []
    ensures WithKey(a + [x] + b, k) == WithKey(a + b, k) + WithKey([x], k)
  {
    WithKeyAppend(a + [x], b, k);
    WithKeyAppend(a, [x], k);
    WithKeyAppend(a, b, k);
    WithKeySingle(x, k);
    SwapAroundEmpty(WithKey(a, k), WithKey([x], k), WithKey(b, k));
  }

  /** No element after the slot has the key of `x`. */
  lemma AfterSlotOtherKeys(s: seq<string>, x: string, k: string)
    requires SameKey(x, k)
    ensures forall i :: Slot(s, x) <= i < |s| ==> !SameKey(s[i], k)
  {
    SlotSpec(s, x);
    forall i | Slot(s, x) <= i < |s| ensures !SameKey(s[i], k) {
      SameKeyIsLowerEquality(x, k);
      SameKeyIsLowerEquality(s[i], k);
      SameKeyIsLowerEquality(s[i], x);
      KeyLeSameKey(s[i], x);
    }
  }

  /** The sort puts the keys in order. */
  lemma {:induction false} StableSortSorted(s: seq<string>)
    ensures Sorted(StableSort(s))
  {
    if s != [] {
      StableSortSorted(s[..|s| - 1]);
      InsertSorted(StableSort(s[..|s| - 1]), s[|s| - 1]);
    }
  }

  /** The sort only reorders. */
  lemma {:induction false} StableSortPermutes(s: seq<string>)
    ensures multiset(StableSort(s)) == multiset(s)
  {
    if s != [] {
      var init, last := s[..|s| - 1], s[|s| - 1];
      MultisetSnoc(s);
      StableSortPermutes(init);
      InsertPermutes(StableSort(init), last);
    }
  }

  /** The sort is stable: elements whose keys tie keep their order. */
  lemma {:induction false} StableSortStable(s: seq<string>, k: string)
    ensures WithKey(StableSort(s), k) == WithKey(s, k)
  {
    if s != [] {
      var init := s[..|s| - 1];
      StableSortStable(init, k);
      InsertStable(StableSort(init), s[|s| - 1], k);
      WithKeyAppend(init, [s[|s| - 1]], k);
      assert s == init + [s[|s| - 1]];
    }
  }

  lemma StableSortStep(s: seq<string>, i: nat)
    requires i < |s|
    ensures StableSort(s[..i + 1]) == Insert(StableSort(s[..i]), s[i])
  {
    assert s[..i + 1][..i] == s[..i];
  }

  /** The shape an insertion pass leaves: the elements before position `j`,
      then `x`, then the rest shifted one place right, is the insertion of
      `x` when the element before `j` has a key at most that of `x` and the
      shifted ones have keys above it. */
  lemma PlacedIsInsert(sorted: seq<string>, x: string, j: nat, c: seq<string>)
    requires j <= |sorted| && |c| == |sorted| + 1
    requires forall k :: 0 <= k < j ==> c[k] == sorted[k]
    requires c[j] == x
    requires forall k :: j < k < |c| ==> c[k] == sorted[k - 1]
    requires j == 0 || KeyLe(sorted[j - 1], x)
    requires forall k :: j <= k < |sorted| ==> !KeyLe(sorted[k], x)
    ensures c == Insert(sorted, x)
  {
    SlotUnique(sorted, x, j);
    var target := sorted[..j] + [x] + sorted[j..];
    forall k | 0 <= k < |c| ensures c[k] == target[k] {
      if k < j {
        assert target[k] == sorted[k];
      } else if k > j {
        assert target[k] == sorted[k - 1];
      }
    }
  }

  /** One pass of the insertion sort: moves `a[i]` left past the elements
      of `a[..i]` whose key is above its own. */
  method InsertInPlace(a: array<string>, i: nat)
    requires i < a.Length
    modifies a
    ensures a[..i + 1] == Insert(old(a[..i]), old(a[i]))
    ensures a[i + 1..] == old(a[i + 1..])
  {
    ghost var sorted := a[..i];
    var x := a[i];
    var j := i;
    while j > 0 && !KeyLe(a[j - 1], x)
      invariant 0 <= j <= i
      invariant forall k :: 0 <= k < j ==> a[k] == sorted[k]
      invariant forall k :: j < k <= i ==> a[k] == sorted[k - 1]
      invariant a[i + 1..] == old(a[i + 1..])
      invariant forall k :: j <= k < i ==> !KeyLe(sorted[k], x)
    {
      a[j] := a[j - 1];
      j := j - 1;
    }
    a[j] := x;
    PlacedIsInsert(sorted, x, j, a[..i + 1]);
  }

  /** `files.sort(key=lambda x: x.lower())`, as a stable insertion sort on
      the list in place. */
  method SortByKey(a: array<string>)
    modifies a
    ensures a[..] == StableSort(old(a[..]))
  {
    ghost var orig := a[..];
    var i := 0;
    while i < a.Length
      invariant 0 <= i <= a.Length
      invariant a[..i] == StableSort(orig[..i])
      invariant a[i..] == orig[i..]
    {
      StableSortStep(orig, i);
      InsertInPlace(a, i);
      i := i + 1;
    }
    assert a[..] == a[..a.Length];
    assert orig[..a.Length] == orig;
  }

  // ---------------------------------------------------------------------
  // Selection
  // ---------------------------------------------------------------------

  /** `files.index(name)`: the first position holding `name`; the source
      only calls it once it knows `name` is in the list. */
  method FirstIndex(files: seq<string>, name: string) returns (idx: nat)
    requires name in files
    ensures idx < |files| && files[idx] == name
    ensures name !in files[..idx]
  {
    idx := 0;
    while files[idx] != name
      invariant idx < |files|
      invariant name !in files[..idx]
      invariant name in files[idx..]
      decreases |files| - idx
    {
      assert files[idx..] == [files[idx]] + files[idx + 1..];
      assert files[..idx + 1] == files[..idx] + [files[idx]];
      idx := idx + 1;
    }
  }

  // ---------------------------------------------------------------------
  // The whole refresh
  // ---------------------------------------------------------------------

  /** `refresh_file_list(select_filename)` on the entries `os.listdir`
      returns: the listed files and the index selected, if any. The files
      are exactly the ".txt" entries, each as often as it occurs, sorted by
      lower-cased name, with tied entries in directory order. A non-empty
      requested name that is listed is selected at its first position;
      otherwise nothing is selected. */
  method RefreshFileList(entries: seq<string>, select: Option<string>)
    returns (files: seq<string>, selected: Option<nat>)
    ensures files == StableSort(TxtNames(entries))
    ensures forall x :: x in files <==> x in entries && IsTxtName(x)
    ensures forall x :: IsTxtName(x) ==> multiset(files)[x] == multiset(entries)[x]
    ensures forall x :: !IsTxtName(x) ==> multiset(files)[x] == 0
    ensures Sorted(files)
    ensures forall k :: WithKey(files, k) == WithKey(TxtNames(entries), k)
    ensures selected.Some? <==> select.Some? && select.value != [] && select.value in files
    ensures selected.Some? ==>
      && selected.value < |files|
      && files[selected.value] == select.value
      && select.value !in files[..selected.value]
  {
    var names := ListTxt(entries);
    var a := new string[|names|](i requires 0 <= i < |names| => names[i]);
    assert a[..] == names;
    SortByKey(a);
    files := a[..];
    selected := None;
    if select.Some? && select.value != [] && select.value in files {
      var idx := FirstIndex(files, select.value);
      selected := Some(idx);
    }
    TxtNamesContents(entries);
    StableSortPermutes(names);
    StableSortSorted(names);
    forall k ensures WithKey(files, k) == WithKey(names, k) {
      StableSortStable(names, k);
    }
  }
}
