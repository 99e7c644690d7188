/** The display order of the batch (`sortFiles`): directories before files,
    then by lower-cased original name. `Array.prototype.sort` is stable, so the
    model is a stable insertion sort; any stable sort with this comparator
    produces the same arrangement. */
module Sorting {
  import opened Types
  import opened Strings

  /** The comparator of `sortFiles` read as "a may come before b". */
  predicate SortLe(a: FileItem, b: FileItem) {
    if a.isDirectory != b.isDirectory then a.isDirectory
    else LexLe(ToLower(a.originalName), ToLower(b.originalName))
  }

  lemma SortLeTotal(a: FileItem, b: FileItem)
    ensures SortLe(a, b) || SortLe(b, a)
  {
    LexLeTotal(ToLower(a.originalName), ToLower(b.originalName));
  }

  lemma SortLeTransitive(a: FileItem, b: FileItem, c: FileItem)
    requires SortLe(a, b) && SortLe(b, c)
    ensures SortLe(a, c)
  {
    if a.isDirectory == b.isDirectory == c.isDirectory {
      LexLeTransitive(ToLower(a.originalName), ToLower(b.originalName), ToLower(c.originalName));
    }
  }

  /** Every directory comes before every file. */
  predicate DirectoriesFirst(s: seq<FileItem>) {
    forall i, j :: 0 <= i < j < |s| && s[j].isDirectory ==> s[i].isDirectory
  }

  /** Entries of the same kind appear in case-insensitive name order. */
  predicate NamesOrdered(s: seq<FileItem>) {
    forall i, j :: 0 <= i < j < |s| && s[i].isDirectory == s[j].isDirectory ==>
      LexLe(ToLower(s[i].originalName), ToLower(s[j].originalName))
  }

  predicate Sorted(s: seq<FileItem>) {
    forall i, j :: 0 <= i < j < |s| ==> SortLe(s[i], s[j])
  }

  lemma SortedOrder(s: seq<FileItem>)
    requires Sorted(s)
    ensures DirectoriesFirst(s) && NamesOrdered(s)
  {
  }

  /** The comparator-based order is exactly "directories first, then names". */
  lemma SortedIff(s: seq<FileItem>)
    ensures Sorted(s) <==> DirectoriesFirst(s) && NamesOrdered(s)
  {
    if Sorted(s) {
      SortedOrder(s);
    }
  }

  /** Stable insertion of `x`: it goes in front of the first element it may
      precede, i.e. after every element strictly smaller than it. */
  function Insert(x: FileItem, s: seq<FileItem>): (r: seq<FileItem>)
    ensures multiset(r) == multiset(s) + multiset{x}
    ensures |r| == |s| + 1
    ensures forall z :: z in r ==> z == x || z in s
    ensures (forall k :: 0 <= k < |s| ==> SortLe(x, s[k])) ==> r == [x] + s
  {
    if |s| == 0 then [x]
    else if SortLe(x, s[0]) then [x] + s
    else
      assert s == [s[0]] + s[1..];
      [s[0]] + Insert(x, s[1..])
  }

  /** An element that may precede every element of a sorted sequence can be
      put in front of it. */
  lemma PrependSorted(x: FileItem, s: seq<FileItem>)
    requires Sorted(s)
    requires forall k :: 0 <= k < |s| ==> SortLe(x, s[k])
    ensures Sorted([x] + s)
  {
  }

  lemma {:induction false} InsertKeepsSorted(x: FileItem, s: seq<FileItem>)
    requires Sorted(s)
    ensures Sorted(Insert(x, s))
  {
    if |s| > 0 {
      if SortLe(x, s[0]) {
        forall k | 0 <= k < |s| ensures SortLe(x, s[k]) {
          if k > 0 {
            SortLeTransitive(x, s[0], s[k]);
          }
        }
        PrependSorted(x, s);
      } else {
        SortLeTotal(x, s[0]);
        var rest := Insert(x, s[1..]);
        InsertKeepsSorted(x, s[1..]);
        forall k | 0 <= k < |rest| ensures SortLe(s[0], rest[k]) {
          assert rest[k] in rest;
        }
        PrependSorted(s[0], rest);
      }
    }
  }

  /** `sortFiles`: a sorted permutation of its input. */
  function Sort(s: seq<FileItem>): (r: seq<FileItem>)
    ensures multiset(r) == multiset(s)
    ensures |r| == |s|
    ensures Sorted(r)
    ensures DirectoriesFirst(r) && NamesOrdered(r)
  {
    if |s| == 0 then []
    else
      var rest := Sort(s[1..]);
      var r := Insert(s[0], rest);
      SplitFirst(s);
      InsertKeepsSorted(s[0], rest);
      SortedOrder(r);
      r
  }

  lemma SplitFirst(s: seq<FileItem>)
    requires |s| > 0
    ensures multiset(s) == multiset(s[1..]) + multiset{s[0]}
  {
    assert s == [s[0]] + s[1..];
  }

  /** Sorting an already sorted batch leaves it as it is (stability). */
  lemma {:induction false} SortSortedIsIdentity(s: seq<FileItem>)
    requires Sorted(s)
    ensures Sort(s) == s
  {
    if |s| > 0 {
      assert Sorted(s[1..]);
      SortSortedIsIdentity(s[1..]);
      assert s == [s[0]] + s[1..];
    }
  }

  /** Sorting twice is sorting once. */
  lemma SortIdempotent(s: seq<FileItem>)
    ensures Sort(Sort(s)) == Sort(s)
  {
    SortSortedIsIdentity(Sort(s));
  }

  /** The fields the comparator reads. */
  predicate SameSortKey(a: FileItem, b: FileItem) {
    a.isDirectory == b.isDirectory && a.originalName == b.originalName
  }

  /** Applies `f` to every entry. */
  function MapItems(f: FileItem -> FileItem, s: seq<FileItem>): (r: seq<FileItem>)
    ensures |r| == |s|
    ensures forall i :: 0 <= i < |s| ==> r[i] == f(s[i])
  {
    if |s| == 0 then [] else [f(s[0])] + MapItems(f, s[1..])
  }

  lemma {:induction false} InsertCommutesWithMap(f: FileItem -> FileItem, x: FileItem, s: seq<FileItem>)
    requires forall y :: SameSortKey(f(y), y)
    ensures Insert(f(x), MapItems(f, s)) == MapItems(f, Insert(x, s))
  {
    if |s| > 0 {
      assert SameSortKey(f(x), x) && SameSortKey(f(s[0]), s[0]);
      assert MapItems(f, s)[1..] == MapItems(f, s[1..]);
      InsertCommutesWithMap(f, x, s[1..]);
    }
  }

  /** Rewriting entries without touching their sort key commutes with sorting:
      the arrangement depends on the keys alone. */
  lemma {:induction false} SortCommutesWithMap(f: FileItem -> FileItem, s: seq<FileItem>)
    requires forall y :: SameSortKey(f(y), y)
    ensures Sort(MapItems(f, s)) == MapItems(f, Sort(s))
  {
    if |s| > 0 {
      assert MapItems(f, s)[1..] == MapItems(f, s[1..]);
      SortCommutesWithMap(f, s[1..]);
      InsertCommutesWithMap(f, s[0], Sort(s[1..]));
    }
  }

  /** `addFiles`: the old and the new entries together, in display order;
      nothing is lost or duplicated. */
  function AddFiles(files: seq<FileItem>, newFiles: seq<FileItem>): (r: seq<FileItem>)
    ensures multiset(r) == multiset(files) + multiset(newFiles)
    ensures |r| == |files| + |newFiles|
    ensures DirectoriesFirst(r) && NamesOrdered(r)
  {
    Sort(files + newFiles)
  }

  /** Adding nothing to a batch that is in display order changes nothing. */
  lemma AddNothingKeepsBatch(files: seq<FileItem>)
    requires Sorted(files)
    ensures AddFiles(files, []) == files
  {
    assert files + [] == files;
    SortSortedIsIdentity(files);
  }
}
