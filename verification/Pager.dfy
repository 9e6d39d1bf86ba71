/**
 The paged table store of Qbase, on values.

 A table keeps a few of its pages in memory, in ascending order of page index and
 ending in the page that new rows go to; all other pages live in the data file.
 This module states what each routine of the server does to that state and proves
 that the whole arrangement is indistinguishable from one flat sequence of rows.
 `QbaseHeap` proves that the pointer-based routines compute these functions.
 */
module Pager {
  import opened Common
  import opened FlatTable

  /** A resident page.  Rows at `lastRow` and beyond are whatever the buffer held before. */
  datatype Page<R> = Page(index: nat, lastRow: nat, dirty: bool, data: seq<R>)

  /**
   `file` is the data file, by page; `header` is the row count in the header file.
   `syncReplaced` says whether a page replaced in place is synced first: `false` is the
   code as written, `true` is what its comment of 2006-02-10 says it does.
   */
  datatype Store<R> = Store(
    pages: seq<Page<R>>, file: map<nat, seq<R>>, header: nat, index: nat,
    pageRows: nat, lockPages: nat, syncReplaced: bool)
  {
    function Last(): Page<R>
      requires pages != []
    {
      pages[|pages| - 1]
    }
  }

  // ---------------------------------------------------------------- invariant

  ghost predicate Ascending<R>(pages: seq<Page<R>>) {
    forall i, j :: 0 <= i < j < |pages| ==> pages[i].index < pages[j].index
  }

  /** A page that is not dirty holds what the file holds, as far as its rows go. */
  ghost predicate Backed<R>(page: Page<R>, file: map<nat, seq<R>>) {
    !page.dirty && 0 < page.lastRow <= |page.data| ==>
      page.index in file && page.lastRow <= |file[page.index]|
      && file[page.index][..page.lastRow] == page.data[..page.lastRow]
  }

  ghost predicate PageOk<R>(st: Store<R>, i: nat)
    requires i < |st.pages|
  {
    var page := st.pages[i];
    && |page.data| == st.pageRows
    && page.lastRow <= st.pageRows
    && (i < |st.pages| - 1 ==> page.lastRow == st.pageRows)
    && Backed(page, st.file)
  }

  ghost predicate FileOk<R>(st: Store<R>)
    requires st.pages != []
  {
    && (forall k | k in st.file :: |st.file[k]| == st.pageRows)
    && (forall k: nat | k < st.Last().index :: k in st.file)
  }

  /** The number of rows on the first `k` pages, `k * m`. */
  function Start(k: nat, m: nat): nat {
    if k == 0 then 0 else Start(k - 1, m) + m
  }

  ghost predicate Valid<R>(st: Store<R>) {
    && 1 <= st.pageRows
    && 3 <= st.lockPages
    && 1 <= |st.pages| <= st.lockPages
    && Ascending(st.pages)
    && (forall i: nat | i < |st.pages| :: PageOk(st, i))
    && FileOk(st)
    && Start(st.Last().index, st.pageRows) + st.Last().lastRow == st.index
  }

  // ------------------------------------------------------ the flat table behind

  /** First position at or after `from` whose page index is at least `n`. */
  function Locate<R>(pages: seq<Page<R>>, n: nat, from: nat): (i: nat)
    requires from <= |pages|
    ensures from <= i <= |pages|
    ensures forall j | from <= j < i :: pages[j].index < n
    ensures i < |pages| ==> n <= pages[i].index
    decreases |pages| - from
  {
    if from == |pages| || n <= pages[from].index then from else Locate(pages, n, from + 1)
  }

  /** The rows of page `k`: from memory if the page is resident, from the file if not. */
  function Block<R>(st: Store<R>, k: nat): seq<R> {
    PageData(st.pages, st.file, k)
  }

  function PageData<R>(pages: seq<Page<R>>, file: map<nat, seq<R>>, k: nat): seq<R> {
    var i := Locate(pages, k, 0);
    if i < |pages| && pages[i].index == k then pages[i].data
    else if k in file then file[k] else []
  }

  ghost function RowAt<R>(st: Store<R>, i: nat): R
    requires Valid(st) && i < st.index
  {
    BlockSize(st, i);
    Block(st, i / st.pageRows)[i % st.pageRows]
  }

  /** The table as its clients see it. */
  ghost function Contents<R>(st: Store<R>): (rows: seq<R>)
    requires Valid(st)
    ensures |rows| == st.index
  {
    FirstRows(st, st.index)
  }

  ghost function FirstRows<R>(st: Store<R>, n: nat): (rows: seq<R>)
    requires Valid(st) && n <= st.index
    ensures |rows| == n
  {
    if n == 0 then [] else FirstRows(st, n - 1) + [RowAt(st, n - 1)]
  }

  lemma {:induction false} FirstRowsAt<R>(st: Store<R>, n: nat)
    requires Valid(st) && n <= st.index
    ensures forall i | 0 <= i < n :: FirstRows(st, n)[i] == RowAt(st, i)
  {
    if n != 0 { FirstRowsAt(st, n - 1); }
  }

  lemma ContentsAt<R>(st: Store<R>)
    requires Valid(st)
    ensures forall i | 0 <= i < st.index :: Contents(st)[i] == RowAt(st, i)
  {
    FirstRowsAt(st, st.index);
  }

  lemma SmallMultiple(d: int, m: int)
    requires -m < d * m < m
    ensures d == 0
  {
  }

  lemma Quotient(x: nat, m: nat, p: int)
    requires 0 <= x - p * m < m
    ensures x / m == p
  {
    var q := x / m;
    assert 0 <= x - q * m < m;
    assert (q - p) * m == q * m - p * m;
    SmallMultiple(q - p, m);
  }

  /** Page and row number of the `r`-th row of page `p`. */
  lemma Position(p: nat, r: nat, m: nat)
    requires r < m
    ensures (Start(p, m) + r) / m == p && (Start(p, m) + r) % m == r
  {
    StartIsProduct(p, m);
    Quotient(Start(p, m) + r, m, p);
  }

  lemma {:induction false} StartIsProduct(k: nat, m: nat)
    ensures Start(k, m) == k * m
  {
    if k != 0 {
      StartIsProduct(k - 1, m);
      assert k * m == (k - 1) * m + m;
    }
  }

  lemma {:induction false} StartMonotone(p: nat, q: nat, m: nat)
    requires p < q
    ensures Start(p, m) + m <= Start(q, m)
  {
    if p + 1 < q { StartMonotone(p, q - 1, m); }
  }

  /** The page and row a row number stands for. */
  lemma Split(i: nat, m: nat)
    requires 1 <= m
    ensures i == Start(i / m, m) + i % m
  {
    StartIsProduct(i / m, m);
  }

  lemma LocateResident<R>(pages: seq<Page<R>>, i: nat)
    requires Ascending(pages) && i < |pages|
    ensures Locate(pages, pages[i].index, 0) == i
  {
  }

  lemma BlockSize<R>(st: Store<R>, i: nat)
    requires Valid(st) && i < st.index
    ensures i / st.pageRows <= st.Last().index
    ensures i / st.pageRows == st.Last().index ==> i % st.pageRows < st.Last().lastRow
    ensures |Block(st, i / st.pageRows)| == st.pageRows
  {
    var m, k := st.pageRows, i / st.pageRows;
    Split(i, m);
    if st.Last().index < k { StartMonotone(st.Last().index, k, m); }
    var j := Locate(st.pages, k, 0);
    LocateResident(st.pages, |st.pages| - 1);
    if j < |st.pages| { assert PageOk(st, j); }
    assert PageOk(st, |st.pages| - 1);
  }

  // ------------------------------------------------------------ page lookup

  /** What writing one page to the data file does to the file (Qbase_PageSync). */
  function PageSynced<R>(page: Page<R>, file: map<nat, seq<R>>): map<nat, seq<R>> {
    if page.dirty then file[page.index := page.data] else file
  }

  function Loaded<R>(st: Store<R>, file: map<nat, seq<R>>, n: nat): Page<R>
    requires n in file
  {
    Page(n, st.pageRows, false, file[n])
  }

  function Inserted<T>(s: seq<T>, i: nat, x: T): seq<T>
    requires i <= |s|
  {
    s[..i] + [x] + s[i..]
  }

  /** Is the page after `n` going to be overwritten where it stands? */
  predicate ReplacesInPlace<R>(st: Store<R>, n: nat) {
    var i := Locate(st.pages, n, 0);
    && i < |st.pages| - 1
    && n < st.pages[i].index
    && st.lockPages <= |st.pages|
  }

  /** The first page is synced, taken out, and put back as page `n` before the last one. */
  function Recycled<R>(st: Store<R>, n: nat): (st': Store<R>)
    requires Valid(st) && 3 <= |st.pages| && n < st.Last().index
  {
    var file := PageSynced(st.pages[0], st.file);
    st.(pages := Inserted(st.pages[1..], |st.pages| - 2, Loaded(st, file, n)), file := file)
  }

  /** The page at position `i` is overwritten by page `n`. */
  function Replaced<R>(st: Store<R>, n: nat, i: nat): (st': Store<R>)
    requires Valid(st) && i < |st.pages| && n < st.Last().index
  {
    var file := if st.syncReplaced then PageSynced(st.pages[i], st.file) else st.file;
    st.(pages := st.pages[i := Loaded(st, file, n)], file := file)
  }

  /** Page `n` is added at position `i`. */
  function Grown<R>(st: Store<R>, n: nat, i: nat): (st': Store<R>)
    requires Valid(st) && i < |st.pages| && n < st.Last().index
  {
    st.(pages := Inserted(st.pages, i, Loaded(st, st.file, n)))
  }

  /**
   LockTablePage: find page `n`, bringing it into memory if need be, and say where it is.
   A full pool gives up either the page standing right after `n` or, when that is the
   last page, the first one.
   */
  function LockPage<R>(st: Store<R>, n: nat): (res: (Store<R>, Option<nat>))
    requires Valid(st)
    ensures Valid(res.0) && res.0.Last() == st.Last() && SameTable(st, res.0)
    ensures res.1.Some? <==> n <= st.Last().index
    ensures res.1.Some? ==> res.1.value < |res.0.pages| && res.0.pages[res.1.value].index == n
    ensures res.1.None? ==> res.0 == st
  {
    var i := Locate(st.pages, n, 0);
    LocateBound(st, n);
    if i == |st.pages| then (st, None)
    else if st.pages[i].index == n then (st, Some(i))
    else
      var (st', slot) := BroughtIn(st, n, i);
      (st', Some(slot))
  }

  /** Page `n` is brought in; the page at position `i` is the first one after it. */
  function BroughtIn<R>(st: Store<R>, n: nat, i: nat): (res: (Store<R>, nat))
    requires Valid(st) && i == Locate(st.pages, n, 0) < |st.pages| && n != st.pages[i].index
    ensures Arrived(st, res.0, res.1, n)
  {
    LocateBound(st, n);
    if st.lockPages <= |st.pages| then
      if i == |st.pages| - 1 then
        RecycledValid(st, n);
        (Recycled(st, n), i - 1)
      else
        ReplacedValid(st, n, i);
        (Replaced(st, n, i), i)
    else
      GrownValid(st, n, i);
      (Grown(st, n, i), i)
  }

  /** Two stores of one table: all but residency and the file's pages is the same. */
  ghost predicate SameTable<R>(st: Store<R>, st': Store<R>) {
    && st'.header == st.header && st'.index == st.index
    && st'.pageRows == st.pageRows && st'.lockPages == st.lockPages
    && st'.syncReplaced == st.syncReplaced
  }

  lemma LocateBound<R>(st: Store<R>, n: nat)
    requires Valid(st)
    ensures st.pages != [] && (st.lockPages <= |st.pages| ==> 3 <= |st.pages|)
    ensures var i := Locate(st.pages, n, 0);
      if i == |st.pages| then st.Last().index < n
      else n <= st.Last().index && (st.pages[i].index != n ==> n < st.Last().index)
  {
  }

  /** Page `n` is in memory, at position `slot`, and the table is otherwise as it was. */
  ghost predicate Arrived<R>(st: Store<R>, st': Store<R>, slot: nat, n: nat) {
    && Valid(st') && SameTable(st, st')
    && st.pages != [] && st'.Last() == st.Last()
    && slot < |st'.pages| && st'.pages[slot].index == n
  }

  lemma SyncKeepsBacked<R>(st: Store<R>, j: nat, i: nat)
    requires Valid(st) && j < |st.pages| && i < |st.pages|
    ensures Backed(st.pages[i], PageSynced(st.pages[j], st.file))
  {
    assert PageOk(st, i) && PageOk(st, j);
    if i != j { assert st.pages[i].index != st.pages[j].index; }
  }

  lemma SyncKeepsFile<R>(st: Store<R>, j: nat)
    requires Valid(st) && j < |st.pages|
    ensures FileOk(st.(file := PageSynced(st.pages[j], st.file)))
    ensures st.pages[j].lastRow == st.pageRows ==>
      var file := PageSynced(st.pages[j], st.file);
      st.pages[j].index in file && file[st.pages[j].index] == st.pages[j].data
  {
    assert PageOk(st, j);
  }

  lemma PlacedAscending<R>(pages: seq<Page<R>>, page: Page<R>, i: nat)
    requires Ascending(pages) && i < |pages| && page.index < pages[i].index
    requires forall j | 0 <= j < i :: pages[j].index < page.index
    ensures Ascending(Inserted(pages, i, page))
    ensures Ascending(pages[i := page])
  {
  }

  lemma GrownValid<R>(st: Store<R>, n: nat, i: nat)
    requires Valid(st) && |st.pages| < st.lockPages && n < st.Last().index
    requires i == Locate(st.pages, n, 0) < |st.pages| && n != st.pages[i].index
    ensures Arrived(st, Grown(st, n, i), i, n)
  {
    var st' := Grown(st, n, i);
    PlacedAscending(st.pages, Loaded(st, st.file, n), i);
    forall j: nat | j < |st'.pages| ensures PageOk(st', j) {
      if j < i { assert PageOk(st, j); }
      if i < j { assert PageOk(st, j - 1); }
    }
  }

  lemma ReplacedValid<R>(st: Store<R>, n: nat, i: nat)
    requires Valid(st) && n < st.Last().index
    requires i == Locate(st.pages, n, 0) < |st.pages| - 1 && n != st.pages[i].index
    ensures Arrived(st, Replaced(st, n, i), i, n)
  {
    var st' := Replaced(st, n, i);
    PlacedAscending(st.pages, Loaded(st, st'.file, n), i);
    SyncKeepsFile(st, i);
    forall j: nat | j < |st'.pages| ensures PageOk(st', j) {
      assert PageOk(st, j);
      SyncKeepsBacked(st, i, j);
    }
  }

  lemma RecycledValid<R>(st: Store<R>, n: nat)
    requires Valid(st) && 3 <= |st.pages| && n < st.Last().index
    requires Locate(st.pages, n, 0) == |st.pages| - 1
    ensures Arrived(st, Recycled(st, n), |st.pages| - 2, n)
  {
    var st' := Recycled(st, n);
    SyncKeepsFile(st, 0);
    forall j: nat | j < |st'.pages| ensures PageOk(st', j) {
      var old_j := if j < |st.pages| - 2 then j + 1 else |st.pages| - 1;
      assert PageOk(st, old_j);
      SyncKeepsBacked(st, 0, old_j);
    }
  }

  // ------------------------------------------- what page lookup does to the rows

  /** The page `ReplacesInPlace` is about. */
  function Victim<R>(st: Store<R>, n: nat): Page<R>
    requires ReplacesInPlace(st, n)
  {
    st.pages[Locate(st.pages, n, 0)]
  }

  /** The lookup overwrites a page without having synced it. */
  predicate DropsPage<R>(st: Store<R>, n: nat) {
    ReplacesInPlace(st, n) && !st.syncReplaced
  }

  ghost predicate Resident<R>(pages: seq<Page<R>>, k: nat) {
    exists j :: 0 <= j < |pages| && pages[j].index == k
  }

  lemma DataResident<R>(pages: seq<Page<R>>, file: map<nat, seq<R>>, j: nat)
    requires Ascending(pages) && j < |pages|
    ensures PageData(pages, file, pages[j].index) == pages[j].data
  {
    LocateResident(pages, j);
  }

  lemma DataInserted<R>(pages: seq<Page<R>>, file: map<nat, seq<R>>, i: nat, page: Page<R>, k: nat)
    requires i <= |pages| && Ascending(pages) && Ascending(Inserted(pages, i, page))
    ensures PageData(Inserted(pages, i, page), file, k) ==
      if k == page.index then page.data else PageData(pages, file, k)
  {
    var pages' := Inserted(pages, i, page);
    if k == page.index {
      assert pages'[i] == page;
      DataResident(pages', file, i);
    } else if Resident(pages, k) {
      var j :| 0 <= j < |pages| && pages[j].index == k;
      var j' := if j < i then j else j + 1;
      assert pages'[j'] == pages[j];
      DataResident(pages, file, j);
      DataResident(pages', file, j');
    } else {
      assert forall j | 0 <= j < |pages'| :: j != i ==> pages'[j] == pages[if j < i then j else j - 1];
    }
  }

  lemma DataReplaced<R>(pages: seq<Page<R>>, file: map<nat, seq<R>>, i: nat, page: Page<R>, k: nat)
    requires i < |pages| && Ascending(pages) && Ascending(pages[i := page])
    requires page.index != pages[i].index && !Resident(pages, page.index)
    ensures PageData(pages[i := page], file, k) ==
      if k == page.index then page.data
      else if k == pages[i].index then (if k in file then file[k] else [])
      else PageData(pages, file, k)
  {
    var pages' := pages[i := page];
    if k == page.index {
      DataResident(pages', file, i);
    } else if k == pages[i].index {
      assert !Resident(pages', k);
    } else if Resident(pages, k) {
      var j :| 0 <= j < |pages| && pages[j].index == k;
      DataResident(pages, file, j);
      DataResident(pages', file, j);
    } else {
      assert !Resident(pages', k);
    }
  }

  /** Writing a page to the file changes nothing while the page is resident. */
  lemma DataSynced<R>(pages: seq<Page<R>>, file: map<nat, seq<R>>, j: nat, k: nat)
    requires Ascending(pages) && j < |pages|
    ensures PageData(pages, PageSynced(pages[j], file), k) == PageData(pages, file, k)
  {
    if k == pages[j].index { DataResident(pages, file, j); }
  }

  /** The first page can go once the file has its rows. */
  lemma DataDropFirst<R>(pages: seq<Page<R>>, file: map<nat, seq<R>>, k: nat)
    requires pages != [] && Ascending(pages)
    requires pages[0].index in file && file[pages[0].index] == pages[0].data
    ensures PageData(pages[1..], file, k) == PageData(pages, file, k)
  {
    if k == pages[0].index {
      DataResident(pages, file, 0);
    } else if Resident(pages, k) {
      var j :| 0 <= j < |pages| && pages[j].index == k;
      DataResident(pages, file, j);
      assert pages[1..][j - 1] == pages[j];
      DataResident(pages[1..], file, j - 1);
    }
  }

  lemma NotResident<R>(pages: seq<Page<R>>, n: nat)
    requires Ascending(pages)
    requires var i := Locate(pages, n, 0); i < |pages| && pages[i].index != n
    ensures !Resident(pages, n)
  {
  }

  /** Once synced, a full page is in the file as it stands in memory. */
  lemma FullPageSynced<R>(st: Store<R>, j: nat)
    requires Valid(st) && j < |st.pages| - 1
    ensures var file := PageSynced(st.pages[j], st.file);
      st.pages[j].index in file && file[st.pages[j].index] == st.pages[j].data
  {
    assert PageOk(st, j);
    assert st.pages[j].index < st.Last().index;
  }

  lemma GrownBlock<R>(st: Store<R>, n: nat, i: nat, k: nat)
    requires Valid(st) && |st.pages| < st.lockPages && n < st.Last().index
    requires i == Locate(st.pages, n, 0) < |st.pages| && n != st.pages[i].index
    ensures Block(Grown(st, n, i), k) == Block(st, k)
  {
    GrownValid(st, n, i);
    NotResident(st.pages, n);
    DataInserted(st.pages, st.file, i, Loaded(st, st.file, n), k);
  }

  lemma ReplacedBlock<R>(st: Store<R>, n: nat, i: nat, k: nat)
    requires Valid(st) && n < st.Last().index && k <= st.Last().index
    requires i == Locate(st.pages, n, 0) < |st.pages| - 1 && n != st.pages[i].index
    ensures Block(Replaced(st, n, i), k) ==
      if k == st.pages[i].index && !st.syncReplaced then st.file[k] else Block(st, k)
  {
    var st' := Replaced(st, n, i);
    ReplacedValid(st, n, i);
    NotResident(st.pages, n);
    assert PageOk(st, i);
    DataResident(st.pages, st.file, i);
    DataSynced(st.pages, st.file, i, k);
    DataReplaced(st.pages, st'.file, i, Loaded(st, st'.file, n), k);
  }

  lemma RecycledBlock<R>(st: Store<R>, n: nat, k: nat)
    requires Valid(st) && 3 <= |st.pages| && n < st.Last().index
    requires Locate(st.pages, n, 0) == |st.pages| - 1
    ensures Block(Recycled(st, n), k) == Block(st, k)
  {
    var file := PageSynced(st.pages[0], st.file);
    RecycledValid(st, n);
    NotResident(st.pages, n);
    FullPageSynced(st, 0);
    DataSynced(st.pages, st.file, 0, k);
    DataDropFirst(st.pages, file, k);
    DataInserted(st.pages[1..], file, |st.pages| - 2, Loaded(st, file, n), k);
  }

  /** Page lookup leaves every page's rows alone, but for a page it drops. */
  lemma LockPageBlock<R>(st: Store<R>, n: nat, k: nat)
    requires Valid(st) && k <= st.Last().index
    ensures Block(LockPage(st, n).0, k) ==
      if DropsPage(st, n) && k == Victim(st, n).index then st.file[k] else Block(st, k)
  {
    var i := Locate(st.pages, n, 0);
    LocateResident(st.pages, |st.pages| - 1);
    if i < |st.pages| && st.pages[i].index != n {
      if |st.pages| < st.lockPages { GrownBlock(st, n, i, k); }
      else if i == |st.pages| - 1 { RecycledBlock(st, n, k); }
      else { ReplacedBlock(st, n, i, k); }
    }
  }

  /** Stores with the same blocks hold the same table. */
  lemma SameBlocks<R>(st: Store<R>, st': Store<R>)
    requires Valid(st) && Valid(st') && st'.index == st.index && st'.pageRows == st.pageRows
    requires forall k | 0 <= k <= st.Last().index :: Block(st', k) == Block(st, k)
    ensures Contents(st') == Contents(st)
  {
    forall i | 0 <= i < st.index ensures RowAt(st', i) == RowAt(st, i) {
      BlockSize(st, i);
    }
    ContentsAt(st);
    ContentsAt(st');
  }

  /**
   When page lookup keeps the table: unless it drops a page whose rows differ from the
   file's.  Both directions, for every state the server can be in.
   */
  lemma LockPageKeepsTable<R>(st: Store<R>, n: nat)
    requires Valid(st)
    ensures Contents(LockPage(st, n).0) == Contents(st) <==>
      !(DropsPage(st, n) && Victim(st, n).data != st.file[Victim(st, n).index])
  {
    var st' := LockPage(st, n).0;
    forall k: nat | k <= st.Last().index
      ensures Block(st', k) == if DropsPage(st, n) && k == Victim(st, n).index then st.file[k] else Block(st, k)
    {
      LockPageBlock(st, n, k);
    }
    if DropsPage(st, n) {
      var v, j := Victim(st, n), Locate(st.pages, n, 0);
      DataResident(st.pages, st.file, j);
      assert PageOk(st, j);
      if v.data == st.file[v.index] { SameBlocks(st, st'); }
      else { LostRow(st, st', v.index, v.data, st.file[v.index]); }
    } else {
      SameBlocks(st, st');
    }
  }

  lemma LostRow<R>(st: Store<R>, st': Store<R>, k: nat, data: seq<R>, other: seq<R>)
    requires Valid(st) && Valid(st') && SameTable(st, st') && k < st.Last().index
    requires Block(st, k) == data && Block(st', k) == other
    requires |data| == |other| == st.pageRows && data != other
    ensures Contents(st') != Contents(st)
  {
    var r: nat :| r < |data| && data[r] != other[r];
    var i := Start(k, st.pageRows) + r;
    Position(k, r, st.pageRows);
    StartMonotone(k, st.Last().index, st.pageRows);
    ContentsAt(st);
    ContentsAt(st');
    assert Contents(st)[i] == data[r] && Contents(st')[i] == other[r];
  }

  /**
   Nothing that looking up page `p` or a later one could drop is unsaved: there is room in
   memory for all pages of the table, or every page after `p`, but for the last, is clean.
   */
  ghost predicate Quiet<R>(st: Store<R>, p: nat) {
    st.syncReplaced || AllFit(st) || CleanFrom(st, p + 1)
  }

  predicate AllFit<R>(st: Store<R>) {
    st.pages != [] && st.Last().index < st.lockPages
  }

  ghost predicate CleanFrom<R>(st: Store<R>, mark: nat) {
    forall i: nat | i < |st.pages| - 1 && mark <= st.pages[i].index :: !st.pages[i].dirty
  }

  lemma LockPageQuiet<R>(st: Store<R>, p: nat)
    requires Valid(st) && Quiet(st, p)
    ensures Contents(LockPage(st, p).0) == Contents(st)
    ensures Quiet(LockPage(st, p).0, p)
  {
    LockPageKeepsTable(st, p);
    if DropsPage(st, p) {
      var i := Locate(st.pages, p, 0);
      assert PageOk(st, i);
      if AllFit(st) { FullPool(st, p); }
    }
    if CleanFrom(st, p + 1) { LockPageClean(st, p, p + 1); }
  }

  lemma {:induction false} IndexAtLeast<R>(pages: seq<Page<R>>, i: nat)
    requires Ascending(pages) && i < |pages|
    ensures i <= pages[i].index
  {
    if i != 0 { IndexAtLeast(pages, i - 1); }
  }

  lemma {:induction false} IndexBeyond<R>(pages: seq<Page<R>>, i: nat, j: nat)
    requires Ascending(pages) && i <= j < |pages| && i < pages[i].index
    ensures j < pages[j].index
  {
    if i < j { IndexBeyond(pages, i, j - 1); }
  }

  /** A full pool without page `p` leaves the table more pages than the pool. */
  lemma FullPool<R>(st: Store<R>, p: nat)
    requires Valid(st) && ReplacesInPlace(st, p)
    ensures st.lockPages <= st.Last().index
  {
    var i := Locate(st.pages, p, 0);
    if i != 0 { IndexAtLeast(st.pages, i - 1); }
    IndexBeyond(st.pages, i, |st.pages| - 1);
  }

  /** Looking a page up dirties none. */
  lemma LockPageClean<R>(st: Store<R>, n: nat, mark: nat)
    requires Valid(st) && CleanFrom(st, mark)
    ensures CleanFrom(LockPage(st, n).0, mark)
  {
    var i := Locate(st.pages, n, 0);
    if i < |st.pages| && st.pages[i].index != n {
      if |st.pages| < st.lockPages {
        InsertedClean(st.pages, i, Loaded(st, st.file, n), mark);
      } else if i == |st.pages| - 1 {
        InsertedClean(st.pages[1..], i - 1, Loaded(st, PageSynced(st.pages[0], st.file), n), mark);
      }
    }
  }

  lemma InsertedClean<R>(pages: seq<Page<R>>, i: nat, page: Page<R>, mark: nat)
    requires i < |pages| && !page.dirty
    requires forall j: nat | j < |pages| - 1 && mark <= pages[j].index :: !pages[j].dirty
    ensures forall j: nat | j < |pages| && mark <= Inserted(pages, i, page)[j].index ::
      !Inserted(pages, i, page)[j].dirty
  {
    InsertedAt(pages, i, page);
  }

  lemma InsertedAt<T>(s: seq<T>, i: nat, x: T)
    requires i <= |s|
    ensures forall j | 0 <= j <= |s| && j != i :: Inserted(s, i, x)[j] == s[if j < i then j else j - 1]
    ensures Inserted(s, i, x)[i] == x
  {
  }

  // --------------------------------------------------------------- single rows

  /** Row `r` of the page at position `i` is rewritten and the page marked dirty. */
  function SetRow<R>(st: Store<R>, i: nat, r: nat, row: R): (st': Store<R>)
    requires i < |st.pages| && r < |st.pages[i].data|
  {
    var page := st.pages[i];
    st.(pages := st.pages[i := page.(data := page.data[r := row], dirty := true)])
  }

  /** Number of the row `r` of the page at position `i`. */
  function RowNumber<R>(st: Store<R>, i: nat, r: nat): nat
    requires i < |st.pages|
  {
    Start(st.pages[i].index, st.pageRows) + r
  }

  lemma SetRowValid<R>(st: Store<R>, i: nat, r: nat, row: R)
    requires Valid(st) && i < |st.pages| && r < st.pages[i].lastRow && PageOk(st, i)
    ensures Valid(SetRow(st, i, r, row)) && SameTable(st, SetRow(st, i, r, row))
    ensures SetRow(st, i, r, row).Last().index == st.Last().index
  {
    var st' := SetRow(st, i, r, row);
    forall j: nat | j < |st'.pages| ensures PageOk(st', j) {
      assert PageOk(st, j);
    }
  }

  lemma RowNumberBound<R>(st: Store<R>, i: nat, r: nat)
    requires Valid(st) && i < |st.pages| && r < st.pages[i].lastRow
    ensures PageOk(st, i) && RowNumber(st, i, r) < st.index
  {
    if i < |st.pages| - 1 { StartMonotone(st.pages[i].index, st.Last().index, st.pageRows); }
    assert PageOk(st, i);
  }

  lemma RowIs<R>(st: Store<R>, i: nat, r: nat)
    requires Valid(st) && i < |st.pages| && r < st.pages[i].lastRow
    ensures PageOk(st, i) && RowNumber(st, i, r) < st.index
    ensures Contents(st)[RowNumber(st, i, r)] == st.pages[i].data[r]
  {
    RowNumberBound(st, i, r);
    Position(st.pages[i].index, r, st.pageRows);
    DataResident(st.pages, st.file, i);
    ContentsAt(st);
  }

  lemma SetRowContents<R>(st: Store<R>, i: nat, r: nat, row: R)
    requires Valid(st) && i < |st.pages| && r < st.pages[i].lastRow && PageOk(st, i)
    requires Valid(SetRow(st, i, r, row)) && RowNumber(st, i, r) < st.index
    ensures Contents(SetRow(st, i, r, row)) == Contents(st)[RowNumber(st, i, r) := row]
  {
    var st', n, m := SetRow(st, i, r, row), RowNumber(st, i, r), st.pageRows;
    Position(st.pages[i].index, r, m);
    DataResident(st.pages, st.file, i);
    DataResident(st'.pages, st.file, i);
    forall x | 0 <= x < st.index ensures RowAt(st', x) == if x == n then row else RowAt(st, x) {
      BlockSize(st, x);
      Split(x, m);
      if x / m != st.pages[i].index { SetRowOther(st, i, r, row, x / m); }
    }
    ContentsAt(st);
    ContentsAt(st');
  }

  lemma SetRowOther<R>(st: Store<R>, i: nat, r: nat, row: R, k: nat)
    requires Ascending(st.pages) && i < |st.pages| && r < |st.pages[i].data| && k != st.pages[i].index
    ensures Block(SetRow(st, i, r, row), k) == Block(st, k)
  {
    var st' := SetRow(st, i, r, row);
    assert forall j | 0 <= j < |st.pages| :: st'.pages[j].index == st.pages[j].index;
    if Resident(st.pages, k) {
      var j :| 0 <= j < |st.pages| && st.pages[j].index == k;
      DataResident(st.pages, st.file, j);
      DataResident(st'.pages, st.file, j);
    } else {
      assert !Resident(st'.pages, k);
    }
  }

  // ----------------------------------------------------------------- fetching

  /**
   The read handler: `p` and `r` are the page and row it looks at, `rec` the cursor.
   `None` is the reply the client gets when a page could not be had.
   */
  function FetchPages<R>(st: Store<R>, p: nat, r: nat, rec: nat, filter: R -> Verdict):
      (res: (Store<R>, Option<Reply<R>>, nat))
    requires Valid(st)
    ensures Valid(res.0) && SameTable(st, res.0)
    decreases if p <= st.Last().index then st.Last().index - p + 1 else 0, 1, 0
  {
    if rec < st.index then
      var (st', slot) := LockPage(st, p);
      if slot.None? then (st', None, rec) else FetchRows(st', slot.value, r, rec, filter)
    else (st, Some(LastRow), rec)
  }

  function FetchRows<R>(st: Store<R>, i: nat, r: nat, rec: nat, filter: R -> Verdict):
      (res: (Store<R>, Option<Reply<R>>, nat))
    requires Valid(st) && i < |st.pages|
    ensures Valid(res.0) && SameTable(st, res.0)
    decreases st.Last().index - st.pages[i].index + 1, 0, st.pages[i].lastRow - r
  {
    assert PageOk(st, i);
    if r < st.pages[i].lastRow then
      match filter(st.pages[i].data[r])
      case Pass => (st, Some(Row(st.pages[i].data[r])), rec + 1)
      case Stop => (st, Some(LastRow), rec)
      case Reject => FetchRows(st, i, r + 1, rec + 1, filter)
    else FetchPages(st, st.pages[i].index + 1, 0, rec, filter)
  }

  ghost predicate Fetched<R>(st: Store<R>, res: (Store<R>, Option<Reply<R>>, nat), rec: nat, filter: R -> Verdict)
    requires Valid(st) && Valid(res.0)
  {
    var (st', reply, rec') := res;
    && Contents(st') == Contents(st)
    && reply == Some(Fetch(Contents(st), rec, filter).0)
    && rec' == Fetch(Contents(st), rec, filter).1
  }

  lemma RowInRange<R>(st: Store<R>, p: nat, r: nat)
    requires Valid(st) && r < st.pageRows && Start(p, st.pageRows) + r < st.index
    ensures p <= st.Last().index
    ensures p == st.Last().index ==> r < st.Last().lastRow
  {
    if st.Last().index < p { StartMonotone(st.Last().index, p, st.pageRows); }
    assert PageOk(st, |st.pages| - 1);
  }

  /** Looking up the page of an existing row finds the page, with that row on it. */
  lemma Landed<R>(st: Store<R>, p: nat, r: nat)
    requires Valid(st) && Quiet(st, p) && r < st.pageRows && Start(p, st.pageRows) + r < st.index
    ensures p <= st.Last().index
    ensures var (st', slot) := LockPage(st, p);
      && slot.Some? && slot.value < |st'.pages| && st'.pages[slot.value].index == p
      && Valid(st') && SameTable(st, st') && st'.Last().index == st.Last().index
      && Contents(st') == Contents(st) && Quiet(st', p)
      && r < st'.pages[slot.value].lastRow
  {
    RowInRange(st, p, r);
    LockPageQuiet(st, p);
    var (st', slot) := LockPage(st, p);
    assert PageOk(st', slot.value);
  }

  /** Past the rows of a page come those of the next one, or the end of the table. */
  lemma PageEnd<R>(st: Store<R>, i: nat)
    requires Valid(st) && i < |st.pages|
    ensures PageOk(st, i)
    ensures RowNumber(st, i, st.pages[i].lastRow) ==
      if i < |st.pages| - 1 then Start(st.pages[i].index + 1, st.pageRows) else st.index
    ensures RowNumber(st, i, st.pages[i].lastRow) <= st.index && 0 < st.pageRows
    ensures st.pages[i].index <= st.Last().index
    ensures Quiet(st, st.pages[i].index) ==> Quiet(st, st.pages[i].index + 1)
  {
    assert PageOk(st, i);
    if i < |st.pages| - 1 { StartMonotone(st.pages[i].index, st.Last().index, st.pageRows); }
  }

  /** Fetching through the cache is fetching from the flat table, and leaves the table alone. */
  lemma {:induction false} FetchPagesIsFetch<R>(st: Store<R>, p: nat, r: nat, rec: nat, filter: R -> Verdict)
    requires Valid(st) && Quiet(st, p)
    requires rec < st.index ==> rec == Start(p, st.pageRows) + r && r < st.pageRows
    ensures Fetched(st, FetchPages(st, p, r, rec, filter), rec, filter)
    decreases if p <= st.Last().index then st.Last().index - p + 1 else 0, 1, 0
  {
    if rec < st.index {
      Landed(st, p, r);
      var (st', slot) := LockPage(st, p);
      FetchRowsIsFetch(st', slot.value, r, rec, filter);
    }
  }

  lemma {:induction false} FetchRowsIsFetch<R>(st: Store<R>, i: nat, r: nat, rec: nat, filter: R -> Verdict)
    requires Valid(st) && i < |st.pages| && Quiet(st, st.pages[i].index)
    requires r <= st.pages[i].lastRow && rec == RowNumber(st, i, r)
    ensures Fetched(st, FetchRows(st, i, r, rec, filter), rec, filter)
    decreases st.Last().index - st.pages[i].index + 1, 0, st.pages[i].lastRow - r
  {
    hide Valid, Contents, Quiet, PageOk, SameTable, LockPage;
    PageEnd(st, i);
    if r < st.pages[i].lastRow {
      RowIs(st, i, r);
      if filter(st.pages[i].data[r]).Reject? { FetchRowsIsFetch(st, i, r + 1, rec + 1, filter); }
    } else {
      FetchPagesIsFetch(st, st.pages[i].index + 1, 0, rec, filter);
    }
  }

  // ----------------------------------------------------- updating and deleting

  /**
   The loop shared by UPDATE, UPDCUR and DELETE: `t` rows are still to be looked at, `one`
   says that only one is wanted.  The result says whether every page could be had.
   */
  function SweepPages<R>(st: Store<R>, p: nat, r: nat, t: nat, one: bool, filter: R -> Verdict, f: R -> R):
      (res: (Store<R>, bool))
    requires Valid(st)
    ensures Valid(res.0) && SameTable(st, res.0)
    decreases if p <= st.Last().index then st.Last().index - p + 1 else 0, 1, 0
  {
    if t == 0 then (st, true) else
    var (st', slot) := LockPage(st, p);
    if slot.None? then (st', false) else SweepRows(st', slot.value, r, t, one, filter, f)
  }

  function SweepRows<R>(st: Store<R>, i: nat, r: nat, t: nat, one: bool, filter: R -> Verdict, f: R -> R):
      (res: (Store<R>, bool))
    requires Valid(st) && i < |st.pages|
    ensures Valid(res.0) && SameTable(st, res.0)
    decreases st.Last().index - st.pages[i].index + 1, 0, st.pages[i].lastRow - r
  {
    assert PageOk(st, i);
    if r < st.pages[i].lastRow && 0 < t then
      var st' := SweptRow(st, i, r, filter, f);
      if Stops(st, i, r, filter) || one then (st', true)
      else SweepRows(st', i, r + 1, t - 1, one, filter, f)
    else SweepPages(st, st.pages[i].index + 1, 0, t, one, filter, f)
  }

  predicate Stops<R>(st: Store<R>, i: nat, r: nat, filter: R -> Verdict)
    requires Valid(st) && i < |st.pages| && r < st.pages[i].lastRow
  {
    assert PageOk(st, i);
    filter(st.pages[i].data[r]).Stop?
  }

  /** One row goes past the filter and, if it passes, is rewritten. */
  function SweptRow<R>(st: Store<R>, i: nat, r: nat, filter: R -> Verdict, f: R -> R): (st': Store<R>)
    requires Valid(st) && i < |st.pages| && r < st.pages[i].lastRow
    ensures Valid(st') && SameTable(st, st') && st'.Last().index == st.Last().index
    ensures |st'.pages| == |st.pages| && st'.pages[i].index == st.pages[i].index
    ensures st'.pages[i].lastRow == st.pages[i].lastRow
  {
    assert PageOk(st, i);
    var row := st.pages[i].data[r];
    if filter(row).Pass? then
      SetRowValid(st, i, r, f(row));
      SetRow(st, i, r, f(row))
    else st
  }

  lemma SweptRowContents<R>(st: Store<R>, i: nat, r: nat, filter: R -> Verdict, f: R -> R)
    requires Valid(st) && i < |st.pages| && r < st.pages[i].lastRow
    requires Quiet(st, st.pages[i].index)
    ensures Contents(SweptRow(st, i, r, filter, f)) == UpdateOne(Contents(st), RowNumber(st, i, r), filter, f)
    ensures Quiet(SweptRow(st, i, r, filter, f), st.pages[i].index)
    ensures RowNumber(st, i, r) < st.index
    ensures PageOk(st, i) && Contents(st)[RowNumber(st, i, r)] == st.pages[i].data[r]
  {
    RowIs(st, i, r);
    var row := st.pages[i].data[r];
    if filter(row).Pass? {
      SetRowValid(st, i, r, f(row));
      SetRowContents(st, i, r, f(row));
    }
  }

  ghost predicate Swept<R>(res: (Store<R>, bool), rows: seq<R>)
    requires Valid(res.0)
  {
    res.1 && Contents(res.0) == rows
  }

  /** UPDATE and DELETE through the cache are one sweep of the flat table. */
  lemma {:induction false} SweepPagesIsSweep<R>(
    st: Store<R>, p: nat, r: nat, t: nat, filter: R -> Verdict, f: R -> R)
    requires Valid(st) && Quiet(st, p)
    requires 0 < t ==> st.index - t == Start(p, st.pageRows) + r && r < st.pageRows
    requires t <= st.index
    ensures Swept(SweepPages(st, p, r, t, false, filter, f), Sweep(Contents(st), st.index - t, filter, f))
    decreases if p <= st.Last().index then st.Last().index - p + 1 else 0, 1, 0
  {
    hide Valid, Contents, Quiet, SameTable, LockPage;
    if 0 < t {
      Landed(st, p, r);
      var (st', slot) := LockPage(st, p);
      SweepRowsIsSweep(st', slot.value, r, t, filter, f);
    }
  }

  lemma {:induction false} SweepRowsIsSweep<R>(
    st: Store<R>, i: nat, r: nat, t: nat, filter: R -> Verdict, f: R -> R)
    requires Valid(st) && i < |st.pages| && Quiet(st, st.pages[i].index)
    requires r <= st.pages[i].lastRow && t <= st.index && st.index - t == RowNumber(st, i, r)
    ensures Swept(SweepRows(st, i, r, t, false, filter, f), Sweep(Contents(st), st.index - t, filter, f))
    decreases st.Last().index - st.pages[i].index + 1, 0, st.pages[i].lastRow - r
  {
    hide Valid, Contents, Quiet, PageOk, SweptRow, Stops, SameTable, Sweep;
    PageEnd(st, i);
    if r < st.pages[i].lastRow {
      SweepRowStep(st, i, r, filter, f);
      if !Stops(st, i, r, filter) {
        SweepRowsIsSweep(SweptRow(st, i, r, filter, f), i, r + 1, t - 1, filter, f);
      }
    } else {
      SweepPagesIsSweep(st, st.pages[i].index + 1, 0, t, filter, f);
    }
  }

  /** One row of a sweep, in the cache and on the flat table. */
  lemma SweepRowStep<R>(st: Store<R>, i: nat, r: nat, filter: R -> Verdict, f: R -> R)
    requires Valid(st) && i < |st.pages| && Quiet(st, st.pages[i].index) && r < st.pages[i].lastRow
    ensures st.pages[i].index <= st.Last().index
    ensures var st', n := SweptRow(st, i, r, filter, f), RowNumber(st, i, r);
      && n < st.index && i < |st'.pages| && Valid(st') && st'.index == st.index
      && st'.pages[i].index == st.pages[i].index && r < st'.pages[i].lastRow
      && st'.Last().index == st.Last().index
      && Quiet(st', st'.pages[i].index)
      && RowNumber(st', i, r + 1) == n + 1
      && Sweep(Contents(st), n, filter, f) ==
        if Stops(st, i, r, filter) then Contents(st') else Sweep(Contents(st'), n + 1, filter, f)
  {
    SweptRowContents(st, i, r, filter, f);
  }

  /** UPDCUR through the cache changes at most the cursor's row; it fails exactly when there is none. */
  lemma UpdateCurrentIsUpdateOne<R>(st: Store<R>, rec: nat, filter: R -> Verdict, f: R -> R)
    requires Valid(st) && Quiet(st, rec / st.pageRows)
    ensures var res := SweepPages(st, rec / st.pageRows, rec % st.pageRows, st.index, true, filter, f);
      && Valid(res.0) && SameTable(st, res.0)
      && Contents(res.0) == UpdateOne(Contents(st), rec, filter, f)
      && (res.1 <==> rec < st.index || st.index == 0)
  {
    hide Contents, Quiet, LockPage;
    var p, r := rec / st.pageRows, rec % st.pageRows;
    Split(rec, st.pageRows);
    if rec < st.index {
      Landed(st, p, r);
      var (st', slot) := LockPage(st, p);
      SweepOneIs(st', slot.value, r, st.index, filter, f);
    } else if 0 < st.index {
      UpdateBeyond(st, p, r, filter, f);
    }
  }

  lemma SweepOneIs<R>(st: Store<R>, i: nat, r: nat, t: nat, filter: R -> Verdict, f: R -> R)
    requires Valid(st) && i < |st.pages| && r < st.pages[i].lastRow && 0 < t
    requires Quiet(st, st.pages[i].index)
    ensures var res := SweepRows(st, i, r, t, true, filter, f);
      res.1 && Contents(res.0) == UpdateOne(Contents(st), RowNumber(st, i, r), filter, f)
  {
    SweptRowContents(st, i, r, filter, f);
  }

  /** A cursor past the last row finds no row and no page. */
  lemma UpdateBeyond<R>(st: Store<R>, p: nat, r: nat, filter: R -> Verdict, f: R -> R)
    requires Valid(st) && Quiet(st, p) && r < st.pageRows
    requires 0 < st.index <= Start(p, st.pageRows) + r
    ensures var res := SweepPages(st, p, r, st.index, true, filter, f);
      Valid(res.0) && SameTable(st, res.0) && Contents(res.0) == Contents(st) && !res.1
  {
    hide Contents, Quiet;
    LockPageQuiet(st, p);
    if p <= st.Last().index {
      var (st', slot) := LockPage(st, p);
      LastPageOnly(st, p, r);
      LastSlot(st', slot.value);
      SweepMiss(st', slot.value, r, st.index, filter, f);
    }
  }

  lemma LastSlot<R>(st: Store<R>, i: nat)
    requires Valid(st) && i < |st.pages| && st.pages[i].index == st.Last().index
    ensures i == |st.pages| - 1
  {
  }

  lemma LastPageOnly<R>(st: Store<R>, p: nat, r: nat)
    requires Valid(st) && r < st.pageRows && st.index <= Start(p, st.pageRows) + r
    ensures st.Last().index <= p && (p == st.Last().index ==> st.Last().lastRow <= r)
  {
    if p < st.Last().index { StartMonotone(p, st.Last().index, st.pageRows); }
  }

  // ------------------------------------------------- which pages can be unsaved

  lemma {:induction false} FetchPagesClean<R>(st: Store<R>, p: nat, r: nat, rec: nat, filter: R -> Verdict, mark: nat)
    requires Valid(st) && CleanFrom(st, mark)
    ensures CleanFrom(FetchPages(st, p, r, rec, filter).0, mark)
    decreases if p <= st.Last().index then st.Last().index - p + 1 else 0, 1, 0
  {
    if rec < st.index {
      LockPageClean(st, p, mark);
      var (st', slot) := LockPage(st, p);
      if slot.Some? { FetchRowsClean(st', slot.value, r, rec, filter, mark); }
    }
  }

  lemma {:induction false} FetchRowsClean<R>(st: Store<R>, i: nat, r: nat, rec: nat, filter: R -> Verdict, mark: nat)
    requires Valid(st) && i < |st.pages| && CleanFrom(st, mark)
    ensures CleanFrom(FetchRows(st, i, r, rec, filter).0, mark)
    decreases st.Last().index - st.pages[i].index + 1, 0, st.pages[i].lastRow - r
  {
    hide CleanFrom, Valid, Quiet, LockPage, PageOk;
    PageEnd(st, i);
    if r < st.pages[i].lastRow {
      if filter(st.pages[i].data[r]).Reject? { FetchRowsClean(st, i, r + 1, rec + 1, filter, mark); }
    } else {
      FetchPagesClean(st, st.pages[i].index + 1, 0, rec, filter, mark);
    }
  }

  /** Updating one row dirties its page at most. */
  lemma UpdateCurrentClean<R>(st: Store<R>, rec: nat, filter: R -> Verdict, f: R -> R, mark: nat)
    requires Valid(st) && CleanFrom(st, mark)
    requires rec / st.pageRows < mark
    ensures CleanFrom(SweepPages(st, rec / st.pageRows, rec % st.pageRows, st.index, true, filter, f).0, mark)
  {
    var p, r := rec / st.pageRows, rec % st.pageRows;
    LockPageClean(st, p, mark);
    var (st', slot) := LockPage(st, p);
    if 0 < st.index && slot.Some? { SweepOneClean(st', slot.value, r, st.index, filter, f, mark); }
  }

  lemma SweepOneClean<R>(st: Store<R>, i: nat, r: nat, t: nat, filter: R -> Verdict, f: R -> R, mark: nat)
    requires Valid(st) && i < |st.pages| && r < st.pageRows && 0 < t
    requires CleanFrom(st, mark) && st.pages[i].index < mark
    ensures CleanFrom(SweepRows(st, i, r, t, true, filter, f).0, mark)
  {
    if r < st.pages[i].lastRow {
      SweptRowClean(st, i, r, filter, f, mark);
    } else {
      SweepMiss(st, i, r, t, filter, f);
    }
  }

  lemma SweptRowClean<R>(st: Store<R>, i: nat, r: nat, filter: R -> Verdict, f: R -> R, mark: nat)
    requires Valid(st) && i < |st.pages| && r < st.pages[i].lastRow
    requires CleanFrom(st, mark) && st.pages[i].index < mark
    ensures CleanFrom(SweptRow(st, i, r, filter, f), mark)
  {
  }

  /** Past the last row of the last page there is nothing to update. */
  lemma SweepMiss<R>(st: Store<R>, i: nat, r: nat, t: nat, filter: R -> Verdict, f: R -> R)
    requires Valid(st) && i < |st.pages| && st.pages[i].lastRow <= r < st.pageRows && 0 < t
    ensures SweepRows(st, i, r, t, true, filter, f) == (st, false)
  {
    assert PageOk(st, i);
    assert LockPage(st, st.pages[i].index + 1).1.None?;
  }

  /** No page but the last comes after the last. */
  lemma CleanFromLast<R>(st: Store<R>)
    requires Valid(st)
    ensures CleanFrom(st, st.index / st.pageRows)
  {
    assert PageOk(st, |st.pages| - 1);
    if st.Last().lastRow < st.pageRows { Position(st.Last().index, st.Last().lastRow, st.pageRows); }
    else { Position(st.Last().index + 1, 0, st.pageRows); }
  }

  // ------------------------------------------------------------------ writing

  /** The full last page is synced, with the header, and becomes the next page, empty. */
  function Turned<R>(st: Store<R>): (st': Store<R>)
    requires st.pages != []
  {
    var last := st.Last();
    st.(pages := st.pages[|st.pages| - 1 := last.(index := last.index + 1, lastRow := 0, dirty := false)],
        file := PageSynced(last, st.file),
        header := st.index)
  }

  /** The row goes after the rows of the last page. */
  function Placed<R>(st: Store<R>, row: R): (st': Store<R>)
    requires st.pages != [] && st.Last().lastRow < |st.Last().data|
  {
    var last := st.Last();
    var page := last.(data := last.data[last.lastRow := row], lastRow := last.lastRow + 1, dirty := true);
    st.(pages := st.pages[|st.pages| - 1 := page], index := st.index + 1)
  }

  /** The write handler. */
  function Appended<R>(st: Store<R>, row: R): (st': Store<R>)
    requires Valid(st)
    ensures Valid(st') && st'.index == st.index + 1
  {
    assert PageOk(st, |st.pages| - 1);
    var room := if st.pageRows <= st.Last().lastRow then TurnedValid(st); Turned(st) else st;
    PlacedValid(room, row);
    Placed(room, row)
  }

  lemma TurnedValid<R>(st: Store<R>)
    requires Valid(st) && st.pageRows <= st.Last().lastRow
    ensures Valid(Turned(st)) && Turned(st).Last().lastRow == 0 && |Turned(st).Last().data| == st.pageRows
    ensures PageOk(st, |st.pages| - 1)
  {
    var st', z := Turned(st), |st.pages| - 1;
    assert PageOk(st, z);
    SyncKeepsFile(st, z);
    forall j: nat | j < |st'.pages| ensures PageOk(st', j) {
      assert PageOk(st, j);
      SyncKeepsBacked(st, z, j);
    }
  }

  lemma TurnedContents<R>(st: Store<R>)
    requires Valid(st) && st.pageRows <= st.Last().lastRow
    ensures Valid(Turned(st)) && Contents(Turned(st)) == Contents(st)
  {
    TurnedValid(st);
    var st', z := Turned(st), |st.pages| - 1;
    SyncKeepsFile(st, z);
    forall k: nat | k <= st.Last().index ensures Block(st', k) == Block(st, k) {
      TurnedBlock(st, k);
    }
    SameBlocks(st, st');
  }

  lemma TurnedBlock<R>(st: Store<R>, k: nat)
    requires Valid(st) && st.pageRows <= st.Last().lastRow && k <= st.Last().index
    ensures Block(Turned(st), k) == Block(st, k)
  {
    var st', z := Turned(st), |st.pages| - 1;
    SyncKeepsFile(st, z);
    assert PageOk(st, z);
    TurnedValid(st);
    if k == st.Last().index {
      DataResident(st.pages, st.file, z);
      assert !Resident(st'.pages, k);
    } else if Resident(st.pages, k) {
      var j :| 0 <= j < |st.pages| && st.pages[j].index == k;
      DataResident(st.pages, st.file, j);
      DataResident(st'.pages, st'.file, j);
    } else {
      assert !Resident(st'.pages, k);
    }
  }

  lemma PlacedValid<R>(st: Store<R>, row: R)
    requires Valid(st) && st.Last().lastRow < st.pageRows == |st.Last().data|
    ensures Valid(Placed(st, row)) && Placed(st, row).Last().index == st.Last().index
  {
    var st' := Placed(st, row);
    forall j: nat | j < |st'.pages| ensures PageOk(st', j) {
      assert PageOk(st, j);
    }
  }

  lemma PlacedContents<R>(st: Store<R>, row: R)
    requires Valid(st) && st.Last().lastRow < st.pageRows == |st.Last().data|
    ensures Valid(Placed(st, row)) && Contents(Placed(st, row)) == Contents(st) + [row]
  {
    PlacedValid(st, row);
    var st', z := Placed(st, row), |st.pages| - 1;
    RowIs(st', z, st.Last().lastRow);
    assert RowNumber(st', z, st.Last().lastRow) == st.index;
    forall i | 0 <= i < st.index ensures RowAt(st', i) == RowAt(st, i) {
      BlockSize(st, i);
      Split(i, st.pageRows);
      PlacedRow(st, row, i / st.pageRows, i % st.pageRows);
    }
    ContentsAt(st);
    ContentsAt(st');
  }

  lemma PlacedRow<R>(st: Store<R>, row: R, k: nat, r: nat)
    requires Valid(st) && st.Last().lastRow < st.pageRows == |st.Last().data| && k <= st.Last().index
    requires r < |Block(st, k)| && (k == st.Last().index ==> r < st.Last().lastRow)
    ensures r < |Block(Placed(st, row), k)| && Block(Placed(st, row), k)[r] == Block(st, k)[r]
  {
    var st', z := Placed(st, row), |st.pages| - 1;
    PlacedValid(st, row);
    if Resident(st.pages, k) {
      var j :| 0 <= j < |st.pages| && st.pages[j].index == k;
      DataResident(st.pages, st.file, j);
      DataResident(st'.pages, st'.file, j);
    } else {
      assert !Resident(st'.pages, k);
    }
  }

  /** A write adds its row at the end, turns no page unsaved, and keeps the rest. */
  lemma AppendedIsAppend<R>(st: Store<R>, row: R)
    requires Valid(st)
    ensures Contents(Appended(st, row)) == Contents(st) + [row]
    ensures forall mark: nat | CleanFrom(st, mark) :: CleanFrom(Appended(st, row), mark)
  {
    assert PageOk(st, |st.pages| - 1);
    if st.pageRows <= st.Last().lastRow {
      TurnedContents(st);
      TurnedValid(st);
      PlacedContents(Turned(st), row);
    } else {
      PlacedContents(st, row);
    }
  }

  // ------------------------------------------------- flushing and selecting again

  /** The data file after every page from position `i` on has been synced. */
  function PagesSynced<R>(pages: seq<Page<R>>, file: map<nat, seq<R>>, i: nat): (file': map<nat, seq<R>>)
    requires i <= |pages|
    decreases |pages| - i
  {
    if i == |pages| then file else PagesSynced(pages, PageSynced(pages[i], file), i + 1)
  }

  function Cleaned<R>(pages: seq<Page<R>>): (pages': seq<Page<R>>)
    ensures |pages'| == |pages|
    ensures forall j | 0 <= j < |pages| :: pages'[j] == pages[j].(dirty := false)
  {
    if pages == [] then [] else [pages[0].(dirty := false)] + Cleaned(pages[1..])
  }

  /** Qbase_TableSync: the header, then every page. */
  function TableSynced<R>(st: Store<R>): (st': Store<R>) {
    st.(header := st.index, file := PagesSynced(st.pages, st.file, 0), pages := Cleaned(st.pages))
  }

  /** TBLSELECT of a table on disk: only the page that new rows go to is read. */
  function Opened<R>(
    file: map<nat, seq<R>>, header: nat, pageRows: nat, lockPages: nat, syncReplaced: bool, garbage: seq<R>):
      (st: Store<R>)
    requires 1 <= pageRows
  {
    var k := header / pageRows;
    var page := Page(k, header % pageRows, false, if k in file then file[k] else garbage);
    Store([page], file, header, header, pageRows, lockPages, syncReplaced)
  }

  /** TBLCREATE; the one page and its copy in the file hold whatever the buffer held. */
  function Created<R>(pageRows: nat, lockPages: nat, syncReplaced: bool, garbage: seq<R>): (st: Store<R>) {
    Store([Page(0, 0, false, garbage)], map[0 := garbage], 0, 0, pageRows, lockPages, syncReplaced)
  }

  lemma {:induction false} PagesSyncedAt<R>(pages: seq<Page<R>>, file: map<nat, seq<R>>, i: nat)
    requires Ascending(pages) && i <= |pages|
    ensures var file' := PagesSynced(pages, file, i);
      && (forall j | i <= j < |pages| && pages[j].dirty ::
            pages[j].index in file' && file'[pages[j].index] == pages[j].data)
      && (forall k | k in file && (forall j | i <= j < |pages| && pages[j].dirty :: pages[j].index != k) ::
            k in file' && file'[k] == file[k])
      && (forall k | k in file' :: k in file || exists j :: i <= j < |pages| && pages[j].index == k)
      && (forall k | k in file :: k in file')
    decreases |pages| - i
  {
    if i < |pages| {
      PagesSyncedAt(pages, PageSynced(pages[i], file), i + 1);
    }
  }

  lemma PagesSyncedSizes<R>(pages: seq<Page<R>>, file: map<nat, seq<R>>, i: nat, m: nat)
    requires i <= |pages|
    requires forall j | i <= j < |pages| :: |pages[j].data| == m
    requires forall k | k in file :: |file[k]| == m
    ensures forall k | k in PagesSynced(pages, file, i) :: |PagesSynced(pages, file, i)[k]| == m
    decreases |pages| - i
  {
    if i < |pages| { PagesSyncedSizes(pages, PageSynced(pages[i], file), i + 1, m); }
  }

  lemma TableSyncedPage<R>(st: Store<R>, j: nat)
    requires Valid(st) && j < |st.pages|
    ensures var page, file := st.pages[j], PagesSynced(st.pages, st.file, 0); Backed(page.(dirty := false), file)
  {
    assert PageOk(st, j);
    PagesSyncedAt(st.pages, st.file, 0);
    TableSyncedSizes(st);
  }

  lemma TableSyncedSizes<R>(st: Store<R>)
    requires Valid(st)
    ensures var file := PagesSynced(st.pages, st.file, 0); forall k | k in file :: |file[k]| == st.pageRows
  {
    forall j: nat | j < |st.pages| ensures |st.pages[j].data| == st.pageRows { assert PageOk(st, j); }
    PagesSyncedSizes(st.pages, st.file, 0, st.pageRows);
  }

  lemma TableSyncedValid<R>(st: Store<R>)
    requires Valid(st)
    ensures Valid(TableSynced(st)) && CleanFrom(TableSynced(st), 0) && TableSynced(st).Last().index == st.Last().index
  {
    var st' := TableSynced(st);
    PagesSyncedAt(st.pages, st.file, 0);
    TableSyncedSizes(st);
    forall j: nat | j < |st'.pages| ensures PageOk(st', j) {
      assert PageOk(st, j);
      TableSyncedPage(st, j);
    }
  }

  /** Flushing keeps the table. */
  lemma TableSyncedContents<R>(st: Store<R>)
    requires Valid(st)
    ensures Valid(TableSynced(st)) && Contents(TableSynced(st)) == Contents(st)
  {
    var st' := TableSynced(st);
    TableSyncedValid(st);
    forall k: nat | k <= st.Last().index ensures Block(st', k) == Block(st, k) {
      if Resident(st.pages, k) {
        var j :| 0 <= j < |st.pages| && st.pages[j].index == k;
        DataResident(st.pages, st.file, j);
        DataResident(st'.pages, st'.file, j);
      } else {
        assert !Resident(st'.pages, k);
        PagesSyncedAt(st.pages, st.file, 0);
      }
    }
    SameBlocks(st, st');
  }

  /** After a flush the two files alone determine the table. */
  lemma FileHasRow<R>(st: Store<R>, i: nat)
    requires Valid(st) && i < st.index && forall j | 0 <= j < |st.pages| :: !st.pages[j].dirty
    ensures var k, r := i / st.pageRows, i % st.pageRows;
      k in st.file && r < |st.file[k]| && st.file[k][r] == RowAt(st, i)
  {
    var k, r := i / st.pageRows, i % st.pageRows;
    BlockSize(st, i);
    if Resident(st.pages, k) {
      var j :| 0 <= j < |st.pages| && st.pages[j].index == k;
      assert PageOk(st, j);
      DataResident(st.pages, st.file, j);
      if k == st.Last().index { LastSlot(st, j); }
      assert st.pages[j].data[r] == st.pages[j].data[..st.pages[j].lastRow][r];
    }
  }

  lemma OpenedValid<R>(st: Store<R>, garbage: seq<R>)
    requires Valid(st) && st.header == st.index && |garbage| == st.pageRows
    requires forall j | 0 <= j < |st.pages| :: !st.pages[j].dirty
    ensures Valid(Opened(st.file, st.header, st.pageRows, st.lockPages, st.syncReplaced, garbage))
  {
    var st' := Opened(st.file, st.header, st.pageRows, st.lockPages, st.syncReplaced, garbage);
    var k, last := st.header / st.pageRows, st.Last();
    Split(st.header, st.pageRows);
    assert PageOk(st, |st.pages| - 1);
    if last.lastRow < st.pageRows { Position(last.index, last.lastRow, st.pageRows); }
    else { Position(last.index + 1, 0, st.pageRows); }
    assert PageOk(st', 0) by {
      if 0 < st'.pages[0].lastRow { FileHasRow(st, st.index - 1); }
    }
  }

  /** Flush, then select: the table is back, and every invariant with it. */
  lemma FlushThenOpen<R>(st: Store<R>, garbage: seq<R>)
    requires Valid(st) && |garbage| == st.pageRows
    ensures var flushed := TableSynced(st);
      var st' := Opened(flushed.file, flushed.header, st.pageRows, st.lockPages, st.syncReplaced, garbage);
      Valid(st') && CleanFrom(st', 0) && Contents(st') == Contents(st)
  {
    var flushed := TableSynced(st);
    TableSyncedValid(st);
    TableSyncedContents(st);
    OpenedValid(flushed, garbage);
    var st' := Opened(flushed.file, flushed.header, st.pageRows, st.lockPages, st.syncReplaced, garbage);
    forall i | 0 <= i < st.index ensures RowAt(st', i) == RowAt(flushed, i) {
      FileHasRow(flushed, i);
      FileHasRow(st', i);
    }
    ContentsAt(flushed);
    ContentsAt(st');
  }

  lemma CreatedValid<R>(pageRows: nat, lockPages: nat, syncReplaced: bool, garbage: seq<R>)
    requires 1 <= pageRows == |garbage| && 3 <= lockPages
    ensures var st := Created(pageRows, lockPages, syncReplaced, garbage);
      Valid(st) && CleanFrom(st, 0) && Contents(st) == []
  {
    assert PageOk(Created(pageRows, lockPages, syncReplaced, garbage), 0);
  }

  // --------------------------------------------------------- the code's one gap

  /**
   A table of five one-row pages with three of them in memory.  Page 2 has been updated
   and not flushed; fetching row 1 overwrites it, and the update is gone.
   */
  function GapBefore(): Store<int> {
    Store([Page(0, 1, false, [10]), Page(2, 1, true, [99]), Page(4, 1, false, [14])],
          map[0 := [10], 1 := [11], 2 := [12], 3 := [13], 4 := [14]], 5, 5, 1, 3, false)
  }

  lemma GapBeforeValid()
    ensures Valid(GapBefore())
  {
    var st := GapBefore();
    assert PageOk(st, 0) && PageOk(st, 1) && PageOk(st, 2);
    StartIsProduct(4, 1);
  }

  /** What was row 2 before is not row 2 after. */
  lemma CodeLosesAnUpdate()
    ensures Valid(GapBefore())
    ensures LockPage(GapBefore(), 1).1.Some?
    ensures Contents(LockPage(GapBefore(), 1).0) != Contents(GapBefore())
  {
    hide LockPage, Contents, DropsPage, Victim, GapBefore, Valid;
    GapBeforeValid();
    GapDrops();
    LockPageKeepsTable(GapBefore(), 1);
  }

  lemma GapDrops()
    ensures DropsPage(GapBefore(), 1) && Victim(GapBefore(), 1) == Page(2, 1, true, [99])
    ensures GapBefore().pages != [] && GapBefore().Last().index == 4 && GapBefore().file[2] == [12]
  {
    assert Locate(GapBefore().pages, 1, 0) == 1;
  }
}
