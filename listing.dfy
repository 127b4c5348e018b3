/**
 * `sort_and_paginate_entries`: the caller's list of directory entries is
 * sorted in place, directories before files, then by one field, and one
 * 1-indexed page of it is returned together with the total count.
 */
module Listing {
  import opened Text

  /**
   * An entry as a storage adapter lists it: the fields the sort reads, and
   * `id` standing for the rest of the dictionary, which the sort never reads
   * but which tells apart two entries that agree on every sorted field.
   */
  datatype Entry = Entry(name: string, isDir: bool, size: int, mtime: int, id: int)

  datatype SortField = ByName | BySize | ByMtime

  /** `sort_by.lower()` selects the field; anything unrecognised sorts by name. */
  function ParseSortField(sortBy: string): (f: SortField)
    ensures f == BySize <==> Lower(sortBy) == "size"
    ensures f == ByMtime <==> Lower(sortBy) == "mtime"
    ensures f == ByName <==> Lower(sortBy) != "size" && Lower(sortBy) != "mtime"
  {
    var field := Lower(sortBy);
    if field == "size" then BySize else if field == "mtime" then ByMtime else ByName
  }

  /** `sort_order.lower() == "desc"`: "desc" spelled in any mix of cases. */
  predicate IsDescending(sortOrder: string): (b: bool)
    ensures b <==> && |sortOrder| == 4
                   && (sortOrder[0] == 'd' || sortOrder[0] == 'D')
                   && (sortOrder[1] == 'e' || sortOrder[1] == 'E')
                   && (sortOrder[2] == 's' || sortOrder[2] == 'S')
                   && (sortOrder[3] == 'c' || sortOrder[3] == 'C')
  {
    Lower(sortOrder) == "desc"
  }

  /** The second component of the sort key: the lower-cased name, or a number. */
  datatype FieldValue = Name(text: string) | Num(n: int)

  /** The sort key `(not is_dir, field)`. */
  datatype SortKey = SortKey(isFile: bool, field: FieldValue)

  /** `get_sort_key`: directories first, then the chosen field, names without regard to case. */
  function Key(e: Entry, f: SortField): (k: SortKey)
    ensures k.isFile <==> !e.isDir
    ensures k.field.Name? <==> f == ByName
    ensures f == ByName ==> |k.field.text| == |e.name|
                            && forall i :: 0 <= i < |e.name| ==> k.field.text[i] == LowerChar(e.name[i])
    ensures f == BySize ==> k.field.n == e.size
    ensures f == ByMtime ==> k.field.n == e.mtime
  {
    SortKey(!e.isDir,
            match f
            case ByName => Name(Lower(e.name))
            case BySize => Num(e.size)
            case ByMtime => Num(e.mtime))
  }

  /** Python's `<` on `str`: lexicographic by code point, a proper prefix first. */
  predicate LexLess(a: string, b: string)
    decreases |a|
  {
    if a == [] then b != []
    else if b == [] then false
    else if a[0] != b[0] then a[0] < b[0]
    else LexLess(a[1..], b[1..])
  }

  /** Keys of one sort all hold the same kind of field; names are put before numbers only to make the order total. */
  predicate FieldLess(x: FieldValue, y: FieldValue) {
    match (x, y)
    case (Name(a), Name(b)) => LexLess(a, b)
    case (Num(m), Num(n)) => m < n
    case (Name(_), Num(_)) => true
    case (Num(_), Name(_)) => false
  }

  /** Python's `<` on the key tuple: `False < True`, so directories come before files. */
  predicate KeyLess(k: SortKey, l: SortKey) {
    || (!k.isFile && l.isFile)
    || (k.isFile == l.isFile && FieldLess(k.field, l.field))
  }

  lemma {:induction false} LexLessIrreflexive(a: string)
    ensures !LexLess(a, a)
  {
    if a != [] {
      LexLessIrreflexive(a[1..]);
    }
  }

  lemma {:induction false} LexLessTransitive(a: string, b: string, c: string)
    requires LexLess(a, b) && LexLess(b, c)
    ensures LexLess(a, c)
  {
    if a != [] && a[0] == b[0] && b[0] == c[0] {
      LexLessTransitive(a[1..], b[1..], c[1..]);
    }
  }

  lemma {:induction false} LexLessTotal(a: string, b: string)
    requires a != b
    ensures LexLess(a, b) || LexLess(b, a)
  {
    if a != [] && b != [] && a[0] == b[0] {
      assert a == [a[0]] + a[1..] && b == [b[0]] + b[1..];
      LexLessTotal(a[1..], b[1..]);
    }
  }

  /** The key order is a strict total order, as Python's tuple comparison is on these keys. */
  lemma KeyLessIsStrictTotalOrder(k: SortKey, l: SortKey, m: SortKey)
    ensures !KeyLess(k, k)
    ensures KeyLess(k, l) && KeyLess(l, m) ==> KeyLess(k, m)
    ensures k == l || KeyLess(k, l) || KeyLess(l, k)
  {
    if k.field.Name? {
      LexLessIrreflexive(k.field.text);
    }
    if KeyLess(k, l) && KeyLess(l, m) && k.isFile == l.isFile == m.isFile
       && k.field.Name? && l.field.Name? && m.field.Name? {
      LexLessTransitive(k.field.text, l.field.text, m.field.text);
    }
    if k.isFile == l.isFile && k.field.Name? && l.field.Name? && k.field != l.field {
      LexLessTotal(k.field.text, l.field.text);
    }
  }

  /** `x` must be placed before `y`: with `reverse=True` the key order is turned around. */
  predicate Before(x: Entry, y: Entry, f: SortField, desc: bool) {
    if desc then KeyLess(Key(y, f), Key(x, f)) else KeyLess(Key(x, f), Key(y, f))
  }

  lemma BeforeDistinctKeys(x: Entry, y: Entry, f: SortField, desc: bool)
    requires Before(x, y, f, desc)
    ensures Key(x, f) != Key(y, f) && !Before(y, x, f, desc)
  {
    KeyLessIsStrictTotalOrder(Key(x, f), Key(y, f), Key(x, f));
  }

  lemma NotBeforeTransitive(x: Entry, y: Entry, z: Entry, f: SortField, desc: bool)
    requires !Before(z, y, f, desc) && !Before(y, x, f, desc)
    ensures !Before(z, x, f, desc)
  {
    var kx, ky, kz := Key(x, f), Key(y, f), Key(z, f);
    KeyLessIsStrictTotalOrder(kx, ky, kz);
    KeyLessIsStrictTotalOrder(kz, ky, kx);
    KeyLessIsStrictTotalOrder(ky, kx, kz);
    KeyLessIsStrictTotalOrder(ky, kz, kx);
    KeyLessIsStrictTotalOrder(kx, kz, ky);
    KeyLessIsStrictTotalOrder(kz, kx, ky);
  }

  /** No entry is placed after one it must come before. */
  ghost predicate Sorted(s: seq<Entry>, f: SortField, desc: bool) {
    forall i, j :: 0 <= i < j < |s| ==> !Before(s[j], s[i], f, desc)
  }

  /** The entries of `s` whose key is `k`, in their order in `s`. */
  function KeyClass(s: seq<Entry>, f: SortField, k: SortKey): (r: seq<Entry>)
    ensures |r| <= |s|
  {
    if s == [] then []
    else (if Key(s[0], f) == k then [s[0]] else []) + KeyClass(s[1..], f, k)
  }

  /** Stability: entries with equal keys are in the same relative order in `t` as in `s`. */
  ghost predicate SameKeyOrder(t: seq<Entry>, s: seq<Entry>, f: SortField) {
    forall k :: KeyClass(t, f, k) == KeyClass(s, f, k)
  }

  lemma {:induction false} KeyClassAppend(s: seq<Entry>, t: seq<Entry>, f: SortField, k: SortKey)
    ensures KeyClass(s + t, f, k) == KeyClass(s, f, k) + KeyClass(t, f, k)
  {
    if s != [] {
      var head := if Key(s[0], f) == k then [s[0]] else [];
      assert (s + t)[0] == s[0] && (s + t)[1..] == s[1..] + t;
      assert KeyClass(s + t, f, k) == head + KeyClass(s[1..] + t, f, k);
      assert KeyClass(s, f, k) == head + KeyClass(s[1..], f, k);
      KeyClassAppend(s[1..], t, f, k);
      assert head + (KeyClass(s[1..], f, k) + KeyClass(t, f, k))
          == (head + KeyClass(s[1..], f, k)) + KeyClass(t, f, k);
    } else {
      assert s + t == t;
    }
  }

  /** Swapping two neighbours with different keys keeps every key class. */
  lemma SwapKeepsKeyClasses(s: seq<Entry>, j: nat, f: SortField)
    requires 0 < j < |s| && Key(s[j - 1], f) != Key(s[j], f)
    ensures SameKeyOrder(s[j - 1 := s[j]][j := s[j - 1]], s, f)
  {
    var t := s[j - 1 := s[j]][j := s[j - 1]];
    var front, back := s[..j - 1], s[j + 1..];
    var x, y := s[j - 1], s[j];
    assert s == front + [x, y] + back;
    assert t == front + [y, x] + back;
    forall k ensures KeyClass(t, f, k) == KeyClass(s, f, k) {
      KeyClassAppend(front + [x, y], back, f, k);
      KeyClassAppend(front, [x, y], f, k);
      KeyClassAppend(front + [y, x], back, f, k);
      KeyClassAppend(front, [y, x], f, k);
      PairKeyClass(x, y, f, k);
    }
  }

  /** Two entries with different keys have the same key classes in either order. */
  lemma PairKeyClass(x: Entry, y: Entry, f: SortField, k: SortKey)
    requires Key(x, f) != Key(y, f)
    ensures KeyClass([x, y], f, k) == KeyClass([y, x], f, k)
  {
    assert [x, y][1..] == [y] && [y, x][1..] == [x];
    assert [y][1..] == [] && [x][1..] == [];
  }

  /** Exchanges two neighbours with different keys, keeping every key class. */
  method SwapNeighbours(a: array<Entry>, j: int, f: SortField)
    requires 0 < j < a.Length && Key(a[j - 1], f) != Key(a[j], f)
    modifies a
    ensures a[..] == old(a[..])[j - 1 := old(a[j])][j := old(a[j - 1])]
    ensures multiset(a[..]) == old(multiset(a[..]))
    ensures SameKeyOrder(a[..], old(a[..]), f)
  {
    SwapKeepsKeyClasses(a[..], j, f);
    a[j - 1], a[j] := a[j], a[j - 1];
  }

  /** Moves `a[i]` down past every entry of the sorted prefix `a[..i]` it must come before. */
  method InsertIntoPrefix(a: array<Entry>, i: int, f: SortField, desc: bool)
    requires 0 <= i < a.Length
    requires forall p, q :: 0 <= p < q < i ==> !Before(a[q], a[p], f, desc)
    modifies a
    ensures forall p, q :: 0 <= p < q <= i ==> !Before(a[q], a[p], f, desc)
    ensures multiset(a[..]) == old(multiset(a[..]))
    ensures SameKeyOrder(a[..], old(a[..]), f)
    ensures a[i + 1..] == old(a[i + 1..])
  {
    var j := i;
    while 0 < j && Before(a[j], a[j - 1], f, desc)
      invariant 0 <= j <= i
      invariant a[i + 1..] == old(a[i + 1..])
      invariant forall p, q :: 0 <= p < q <= i && p != j && q != j ==> !Before(a[q], a[p], f, desc)
      invariant forall q :: j < q <= i ==> Before(a[j], a[q], f, desc)
      invariant multiset(a[..]) == old(multiset(a[..]))
      invariant SameKeyOrder(a[..], old(a[..]), f)
    {
      BeforeDistinctKeys(a[j], a[j - 1], f, desc);
      SwapNeighbours(a, j, f);
      j := j - 1;
    }
    forall p, q | 0 <= p < q <= i ensures !Before(a[q], a[p], f, desc) {
      if q == j && p < j - 1 {
        NotBeforeTransitive(a[p], a[j - 1], a[j], f, desc);
      } else if p == j {
        BeforeDistinctKeys(a[j], a[q], f, desc);
      }
    }
  }

  /**
   * `entries.sort(key=get_sort_key, reverse=reverse)`: a stable in-place
   * sort, here by insertion, swapping only neighbours that are strictly out
   * of order so that equal keys never pass each other.
   */
  method SortEntries(a: array<Entry>, f: SortField, desc: bool)
    modifies a
    ensures Sorted(a[..], f, desc)
    ensures multiset(a[..]) == old(multiset(a[..]))
    ensures SameKeyOrder(a[..], old(a[..]), f)
  {
    var i := 0;
    while i < a.Length
      invariant 0 <= i <= a.Length
      invariant forall p, q :: 0 <= p < q < i ==> !Before(a[q], a[p], f, desc)
      invariant multiset(a[..]) == old(multiset(a[..]))
      invariant SameKeyOrder(a[..], old(a[..]), f)
    {
      InsertIntoPrefix(a, i, f, desc);
      i := i + 1;
    }
  }

  lemma KeyClassElements(t: seq<Entry>, f: SortField, k: SortKey)
    ensures forall x :: x in KeyClass(t, f, k) ==> x in t && Key(x, f) == k
  {
    if t != [] {
      KeyClassElements(t[1..], f, k);
    }
  }

  lemma KeyClassOfHead(t: seq<Entry>, f: SortField)
    requires t != []
    ensures KeyClass(t, f, Key(t[0], f)) != [] && KeyClass(t, f, Key(t[0], f))[0] == t[0]
  {
  }

  lemma SameKeyOrderOfEmpty(t: seq<Entry>, u: seq<Entry>, f: SortField)
    requires SameKeyOrder(t, u, f) && t == []
    ensures u == []
  {
    if u != [] {
      KeyClassOfHead(u, f);
    }
  }

  /** Two sorted orderings with the same key classes start with the same entry. */
  lemma SameKeyOrderHeads(t: seq<Entry>, u: seq<Entry>, f: SortField, desc: bool)
    requires Sorted(t, f, desc) && Sorted(u, f, desc) && SameKeyOrder(t, u, f)
    requires t != [] && u != []
    ensures t[0] == u[0]
  {
    var kt, ku := Key(t[0], f), Key(u[0], f);
    KeyClassOfHead(t, f);
    KeyClassOfHead(u, f);
    KeyClassElements(t, f, ku);
    KeyClassElements(u, f, kt);
    assert KeyClass(u, f, kt) == KeyClass(t, f, kt);
    assert KeyClass(t, f, ku) == KeyClass(u, f, ku);
    var p :| 0 <= p < |u| && u[p] == KeyClass(u, f, kt)[0];
    var q :| 0 <= q < |t| && t[q] == KeyClass(t, f, ku)[0];
    assert !Before(u[p], u[0], f, desc) || p == 0;
    assert !Before(t[q], t[0], f, desc) || q == 0;
    KeyLessIsStrictTotalOrder(kt, ku, kt);
  }

  lemma SameKeyOrderTails(t: seq<Entry>, u: seq<Entry>, f: SortField)
    requires SameKeyOrder(t, u, f) && t != [] && u != [] && t[0] == u[0]
    ensures SameKeyOrder(t[1..], u[1..], f)
  {
    forall k ensures KeyClass(t[1..], f, k) == KeyClass(u[1..], f, k) {
      var head := if Key(t[0], f) == k then [t[0]] else [];
      assert KeyClass(t, f, k) == head + KeyClass(t[1..], f, k);
      assert KeyClass(u, f, k) == head + KeyClass(u[1..], f, k);
      assert KeyClass(t[1..], f, k) == (head + KeyClass(t[1..], f, k))[|head|..];
      assert KeyClass(u[1..], f, k) == (head + KeyClass(u[1..], f, k))[|head|..];
    }
  }

  /**
   * The contract of `SortEntries` determines its result: two orderings that
   * are both sorted and keep equal keys in the same relative order are the
   * same list. So the model's sort and Python's own stable sort agree.
   */
  lemma {:induction false} StableSortIsUnique(t: seq<Entry>, u: seq<Entry>, f: SortField, desc: bool)
    requires Sorted(t, f, desc) && Sorted(u, f, desc)
    requires SameKeyOrder(t, u, f)
    ensures t == u
    decreases |t|
  {
    if t == [] {
      SameKeyOrderOfEmpty(t, u, f);
    } else if u == [] {
      SameKeyOrderOfEmpty(u, t, f);
    } else {
      SameKeyOrderHeads(t, u, f, desc);
      SameKeyOrderTails(t, u, f);
      StableSortIsUnique(t[1..], u[1..], f, desc);
      assert t == [t[0]] + t[1..] && u == [u[0]] + u[1..];
    }
  }

  /** Ascending order: every directory precedes every file, and within each group the field never decreases. */
  lemma AscendingOrderMeaning(s: seq<Entry>, f: SortField, i: int, j: int)
    requires Sorted(s, f, false) && 0 <= i < j < |s|
    ensures s[j].isDir ==> s[i].isDir
    ensures s[i].isDir == s[j].isDir && f == ByName ==> !LexLess(Lower(s[j].name), Lower(s[i].name))
    ensures s[i].isDir == s[j].isDir && f == BySize ==> s[i].size <= s[j].size
    ensures s[i].isDir == s[j].isDir && f == ByMtime ==> s[i].mtime <= s[j].mtime
  {
    assert !Before(s[j], s[i], f, false);
  }

  /** `reverse=True` turns the whole key order around: files come first, and within each group the field never increases. */
  lemma DescendingOrderMeaning(s: seq<Entry>, f: SortField, i: int, j: int)
    requires Sorted(s, f, true) && 0 <= i < j < |s|
    ensures s[i].isDir ==> s[j].isDir
    ensures s[i].isDir == s[j].isDir && f == ByName ==> !LexLess(Lower(s[i].name), Lower(s[j].name))
    ensures s[i].isDir == s[j].isDir && f == BySize ==> s[i].size >= s[j].size
    ensures s[i].isDir == s[j].isDir && f == ByMtime ==> s[i].mtime >= s[j].mtime
  {
    assert !Before(s[j], s[i], f, true);
  }

  /** Python's normalisation of a slice bound for a sequence of length `n`: negative bounds count from the end. */
  function SliceBound(i: int, n: nat): (b: nat)
    ensures b <= n
    ensures 0 <= i ==> b == if i < n then i else n
    ensures i < 0 ==> b == if -i <= n then n + i else 0
  {
    if i < 0 then (if i + n < 0 then 0 else i + n) else if i < n then i else n
  }

  /** Python's `s[lo:hi]` */
  function Slice<T>(s: seq<T>, lo: int, hi: int): seq<T> {
    var l, h := SliceBound(lo, |s|), SliceBound(hi, |s|);
    if l < h then s[l..h] else []
  }

  /** `s[lo:hi]` holds the entries from the normalised `lo` up to the normalised `hi`, in order. */
  lemma SliceContents<T>(s: seq<T>, lo: int, hi: int)
    ensures var r, l, h := Slice(s, lo, hi), SliceBound(lo, |s|), SliceBound(hi, |s|);
            && |r| == (if l < h then h - l else 0)
            && forall k :: 0 <= k < |r| ==> r[k] == s[l + k]
  {
  }

  /**
   * `entries[start_idx:end_idx]` with `start_idx = (page_num - 1) * page_size`
   * and `end_idx = start_idx + page_size`.
   */
  function Page<T>(s: seq<T>, pageNum: int, pageSize: int): seq<T> {
    var start := (pageNum - 1) * pageSize;
    Slice(s, start, start + pageSize)
  }

  /**
   * From page 1 on, a page holds `page_size` entries from
   * `(page_num - 1) * page_size`, fewer at the end of the list, none past it.
   */
  lemma PageContents<T>(s: seq<T>, pageNum: int, pageSize: int)
    requires pageNum >= 1 && pageSize >= 0
    ensures var r, start := Page(s, pageNum, pageSize), (pageNum - 1) * pageSize;
            && |r| == (if start + pageSize <= |s| then pageSize else if start < |s| then |s| - start else 0)
            && forall k :: 0 <= k < |r| ==> r[k] == s[start + k]
  {
    NextPageStart(pageNum, pageSize);
    SliceWindow(s, (pageNum - 1) * pageSize, pageSize);
  }

  /** A window of `size` entries from `start` is cut short only by the end of the list. */
  lemma SliceWindow<T>(s: seq<T>, start: nat, size: nat)
    ensures var r := Slice(s, start, start + size);
            && |r| == (if start + size <= |s| then size else if start < |s| then |s| - start else 0)
            && forall k :: 0 <= k < |r| ==> r[k] == s[start + k]
  {
    SliceContents(s, start, start + size);
  }

  function Min(a: int, b: int): int {
    if a <= b then a else b
  }

  /** From non-negative bounds, `s[lo:hi]` is `s` between the bounds clipped to its length. */
  lemma SliceNonNegative<T>(s: seq<T>, lo: int, hi: int)
    requires 0 <= lo <= hi
    ensures Slice(s, lo, hi) == s[Min(lo, |s|)..Min(hi, |s|)]
  {
  }

  /** All pages in order, the first `count` of them. */
  function Pages<T>(s: seq<T>, pageSize: int, count: nat): seq<T> {
    if count == 0 then [] else Pages(s, pageSize, count - 1) + Page(s, count, pageSize)
  }

  lemma NextPageStart(count: nat, pageSize: nat)
    requires count > 0
    ensures 0 <= (count - 1) * pageSize && count * pageSize == (count - 1) * pageSize + pageSize
  {
  }

  /** Concatenating pages 1 to `count` gives the list up to entry `count * pageSize`. */
  lemma {:induction false} PagesConcatenate<T>(s: seq<T>, pageSize: nat, count: nat)
    ensures Pages(s, pageSize, count) == s[..Min(count * pageSize, |s|)]
  {
    if count > 0 {
      PagesConcatenate(s, pageSize, count - 1);
      NextPageStart(count, pageSize);
      var start := (count - 1) * pageSize;
      var lo, hi := Min(start, |s|), Min(start + pageSize, |s|);
      SliceNonNegative(s, start, start + pageSize);
      assert Pages(s, pageSize, count) == s[..lo] + s[lo..hi];
      assert s[..lo] + s[lo..hi] == s[..hi];
    }
  }

  /** Enough pages, read in order, give every entry exactly once. */
  lemma PagesCoverList<T>(s: seq<T>, pageSize: nat, count: nat)
    requires count * pageSize >= |s|
    ensures Pages(s, pageSize, count) == s
  {
    PagesConcatenate(s, pageSize, count);
  }

  /** Negative page numbers count from the end of the list, as Python slicing does. */
  lemma PageBeforeFirst<T>(s: seq<T>, pageSize: nat)
    requires 0 < pageSize && 2 * pageSize <= |s|
    ensures Page(s, 0, pageSize) == []
    ensures Page(s, -1, pageSize) == s[|s| - 2 * pageSize..|s| - pageSize]
  {
  }

  /**
   * `sort_and_paginate_entries`: sorts `entries` in place and returns the
   * requested page and the number of entries.
   */
  method SortAndPaginate(entries: array<Entry>, pageNum: int := 1, pageSize: int := 50,
                         sortBy: string := "name", sortOrder: string := "asc")
    returns (page: seq<Entry>, total: int)
    modifies entries
    ensures Sorted(entries[..], ParseSortField(sortBy), IsDescending(sortOrder))
    ensures multiset(entries[..]) == old(multiset(entries[..]))
    ensures SameKeyOrder(entries[..], old(entries[..]), ParseSortField(sortBy))
    ensures total == entries.Length
    ensures page == Page(entries[..], pageNum, pageSize)
  {
    SortEntries(entries, ParseSortField(sortBy), IsDescending(sortOrder));
    total := entries.Length;
    page := Page(entries[..], pageNum, pageSize);
  }
}
