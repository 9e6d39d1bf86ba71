/**
 The table server's routines as the server runs them: pages as nodes of a doubly linked
 list, rows overwritten in their buffers.  Each method computes its `Pager` function.
 */
module QbaseHeap {
  import opened Common
  import opened FlatTable
  import opened Pager

  class PageNode<R(0)> {
    const Data: array<R>
    var Index: nat
    var LastRow: nat
    var NeedSync: bool
    var Prev: PageNode?<R>
    var Next: PageNode?<R>

    constructor (rows: nat)
      ensures fresh(Data) && Data.Length == rows
      ensures Prev == null && Next == null
    {
      Data := new R[rows];
      Index, LastRow, NeedSync := 0, 0, false;
      Prev, Next := null, null;
    }

    ghost function View(): Page<R>
      reads `Index, `LastRow, `NeedSync, Data
    {
      Page(Index, LastRow, NeedSync, Data[..])
    }
  }

  /** The nodes hold these pages, in this order. */
  ghost predicate Holds<R(0)>(nodes: seq<PageNode<R>>, pages: seq<Page<R>>)
    reads nodes`Index, nodes`LastRow, nodes`NeedSync, set x | x in nodes :: x.Data
  {
    |nodes| == |pages| && forall i | 0 <= i < |nodes| :: nodes[i].View() == pages[i]
  }

  /** No node occurs twice, no two nodes share a buffer, and every buffer holds a page. */
  ghost predicate Separate<R(0)>(nodes: seq<PageNode<R>>, rows: nat) {
    && (forall i, j | 0 <= i < j < |nodes| :: nodes[i] != nodes[j] && nodes[i].Data != nodes[j].Data)
    && (forall i | 0 <= i < |nodes| :: nodes[i].Data.Length == rows)
  }

  /** The nodes form a doubly linked list in this order. */
  ghost predicate Chained<R(0)>(nodes: seq<PageNode<R>>)
    reads nodes`Next, nodes`Prev
  {
    nodes != [] ==>
      && nodes[0].Prev == null && nodes[|nodes| - 1].Next == null
      && (forall i {:trigger nodes[i].Prev} | 1 <= i < |nodes| :: nodes[i].Prev == nodes[i - 1])
      && (forall i {:trigger nodes[i].Next} | 0 <= i < |nodes| - 1 :: nodes[i].Next == nodes[i + 1])
  }

  lemma SeparateInserted<R(0)>(nodes: seq<PageNode<R>>, i: nat, page: PageNode<R>, rows: nat)
    requires Separate(nodes, rows) && i <= |nodes| && page.Data.Length == rows
    requires forall j | 0 <= j < |nodes| :: nodes[j] != page && nodes[j].Data != page.Data
    ensures Separate(Inserted(nodes, i, page), rows)
  {
    InsertedAt(nodes, i, page);
  }

  lemma LoadReady<R(0)>(st: Store<R>, n: nat, i: nat)
    requires Pager.Valid(st) && n < st.Last().index && i < |st.pages|
    ensures |st.pages[i].data| == st.pageRows
    ensures n in st.file && |st.file[n]| == st.pageRows
    ensures var file := PageSynced(st.pages[i], st.file); n in file && |file[n]| == st.pageRows
  {
    assert Pager.PageOk(st, i);
  }

  lemma LocateIs<R(0)>(st: Store<R>, n: nat, i: nat)
    requires Pager.Valid(st) && i <= |st.pages|
    requires forall j | 0 <= j < i :: st.pages[j].index < n
    requires i < |st.pages| ==> n <= st.pages[i].index
    ensures Locate(st.pages, n, 0) == i
    ensures LockPage(st, n) ==
      if i == |st.pages| then (st, None)
      else if st.pages[i].index == n then (st, Some(i))
      else if st.lockPages <= |st.pages| then
        if i == |st.pages| - 1 then (Recycled(st, n), Some(i - 1)) else (Replaced(st, n, i), Some(i))
      else (Grown(st, n, i), Some(i))
    ensures i < |st.pages| && st.pages[i].index != n ==> n < st.Last().index
    ensures st.lockPages <= |st.pages| ==> 3 <= |st.pages|
  {
  }

  lemma PageShape<R(0)>(st: Store<R>, i: nat)
    requires Pager.Valid(st) && i < |st.pages|
    ensures st.pages[i].lastRow <= |st.pages[i].data| == st.pageRows
  {
    assert Pager.PageOk(st, i);
  }

  /** The pages while a flush is at position `i`. */
  ghost function CleanTo<R>(pages: seq<Page<R>>, i: nat): (pages': seq<Page<R>>)
    requires i <= |pages|
    ensures |pages'| == |pages|
    ensures forall j | 0 <= j < |pages| :: pages'[j] == if j < i then pages[j].(dirty := false) else pages[j]
  {
    Cleaned(pages[..i]) + pages[i..]
  }

  /** The first element goes before the last one. */
  function Moved<T>(s: seq<T>): (s': seq<T>)
    requires 3 <= |s|
    ensures |s'| == |s| && s'[|s| - 2] == s[0] && s'[|s| - 1] == s[|s| - 1]
    ensures forall k | 0 <= k < |s| - 2 :: s'[k] == s[k + 1]
  {
    InsertedAt(s[1..], |s| - 2, s[0]);
    Inserted(s[1..], |s| - 2, s[0])
  }

  lemma RecycledIs<R(0)>(st: Store<R>, n: nat)
    requires Pager.Valid(st) && 3 <= |st.pages| && n < st.Last().index
    ensures n in PageSynced(st.pages[0], st.file)
    ensures var file := PageSynced(st.pages[0], st.file);
      Recycled(st, n) ==
        st.(pages := Moved(st.pages)[|st.pages| - 2 := Page(n, st.pageRows, false, file[n])], file := file)
  {
    InsertedAt(st.pages[1..], |st.pages| - 2, Loaded(st, PageSynced(st.pages[0], st.file), n));
    assert Recycled(st, n).pages == Moved(st.pages)[|st.pages| - 2 := Recycled(st, n).pages[|st.pages| - 2]];
  }

  lemma HoldsInserted<R(0)>(
    nodes: seq<PageNode<R>>, pages: seq<Page<R>>, i: nat, node: PageNode<R>, page: Page<R>)
    requires Holds(nodes, pages) && i <= |nodes| && node.View() == page
    ensures Holds(Inserted(nodes, i, node), Inserted(pages, i, page))
  {
    InsertedAt(nodes, i, node);
    InsertedAt(pages, i, page);
  }

  class Table<R(0)> {
    const PageRows: nat
    const LockPages: nat
    const SyncReplaced: bool
    var Pages: PageNode?<R>
    var LastPage: PageNode?<R>
    var PLocks: nat
    var Index: nat
    var Header: nat
    var File: map<nat, seq<R>>
    ghost var List: seq<PageNode<R>>

    /** `List` is the doubly linked list from `Pages` to `LastPage`; no two pages share a buffer. */
    ghost predicate Linked()
      reads `Pages, `LastPage, `PLocks, `List, List`Next, List`Prev
    {
      && List != [] && Pages == List[0] && LastPage == List[|List| - 1] && PLocks == |List|
      && Separate(List, PageRows) && Chained(List)
    }

    ghost function Buffers(): (buffers: set<object>)
      reads `List
      ensures forall x | x in List :: x.Data in buffers
    {
      set x | x in List :: x.Data
    }

    ghost function Footprint(): (objects: set<object>)
      reads `List
      ensures forall x | x in List :: x in objects && x.Data in objects
    {
      (set x: PageNode<R> | x in List :: x as object) + Buffers()
    }

    /** What is in memory and on disk is the state `st`. */
    ghost predicate Is(st: Store<R>)
      reads this, List, Buffers()
    {
      && Linked() && Holds(List, st.pages)
      && st == Store(st.pages, File, Header, Index, PageRows, LockPages, SyncReplaced)
    }

    /** TBLCREATE, once the request has asked for enough pages: the files are started, too. */
    constructor Create(rows: nat, locks: nat, sync: bool)
      ensures fresh(Footprint()) && LastPage != null
      ensures Is(Created(rows, locks, sync, LastPage.Data[..]))
    {
      PageRows, LockPages, SyncReplaced := rows, locks, sync;
      var page := new PageNode<R>(rows);
      page.Index, page.LastRow, page.NeedSync := 0, 0, false;
      Pages, LastPage, PLocks := page, page, 1;
      Index, Header := 0, 0;
      File := map[0 := page.Data[..]];
      List := [page];
    }

    /** TBLSELECT of a table on disk: the header says which page is the last, and it is read. */
    constructor Open(file: map<nat, seq<R>>, header: nat, rows: nat, locks: nat, sync: bool)
      requires 1 <= rows
      requires forall k | k in file :: |file[k]| == rows
      ensures fresh(Footprint())
      ensures exists junk :: |junk| == rows && Is(Opened(file, header, rows, locks, sync, junk))
    {
      PageRows, LockPages, SyncReplaced := rows, locks, sync;
      var page := new PageNode<R>(rows);
      ghost var junk := page.Data[..];
      page.Index := header / rows;
      page.LastRow := header % rows;
      page.NeedSync := false;
      if page.Index in file {
        forall k | 0 <= k < rows { page.Data[k] := file[page.Index][k]; }
        assert page.Data[..] == file[page.Index];
      }
      Pages, LastPage, PLocks := page, page, 1;
      Index, Header := header, header;
      File := file;
      List := [page];
      new;
      assert Is(Opened(file, header, rows, locks, sync, junk));
    }

    /** Qbase_PageSync. */
    method PageSync(page: PageNode<R>)
      modifies `File, page`NeedSync
      ensures File == PageSynced(old(page.View()), old(File))
      ensures !page.NeedSync
    {
      if page.NeedSync {
        File := File[page.Index := page.Data[..]];
        page.NeedSync := false;
      }
    }

    /** Link `page` in before `rpage`, which stands at position `i`. */
    method LinkBefore(page: PageNode<R>, rpage: PageNode<R>, ghost i: nat)
      requires List != [] && Pages == List[0] && LastPage == List[|List| - 1] && PLocks == |List| + 1
      requires Separate(List, PageRows) && Chained(List)
      requires i < |List| && rpage == List[i] && page.Data.Length == PageRows
      requires forall j | 0 <= j < |List| :: List[j] != page && List[j].Data != page.Data
      modifies `Pages, `List, page`Next, page`Prev, (set x | x in List)`Prev, (set x | x in List)`Next
      ensures Linked() && List == Inserted(old(List), i, page)
    {
      page.Next := rpage;
      page.Prev := rpage.Prev;
      rpage.Prev := page;
      if page.Prev != null {
        page.Prev.Next := page;
      } else {
        Pages := page;
      }
      ghost var was := List;
      SeparateInserted(was, i, page, PageRows);
      InsertedAt(was, i, page);
      List := Inserted(was, i, page);
      forall k | 1 <= k < |List| ensures List[k].Prev == List[k - 1] {
        if i + 1 < k { assert was[k - 1].Prev == was[k - 2]; }
      }
      forall k | 0 <= k < |List| - 1 ensures List[k].Next == List[k + 1] {
        if i < k { assert was[k - 1].Next == was[k]; }
      }
    }

    /** Take the first page out of the list. */
    method UnlinkFirst() returns (page: PageNode<R>)
      requires Linked() && 2 <= |List|
      modifies `Pages, `List, (set x | x in List)`Prev
      ensures page == old(List)[0] && List == old(List)[1..]
      ensures Pages == List[0] && LastPage == List[|List| - 1]
      ensures Separate(List, PageRows) && Chained(List)
    {
      assert List[0].Next == List[1];
      page := Pages;
      page.Next.Prev := null;
      Pages := page.Next;
      ghost var was := List;
      List := List[1..];
      forall k | 1 <= k < |List| ensures List[k].Prev == List[k - 1] { assert was[k + 1].Prev == was[k]; }
      forall k | 0 <= k < |List| - 1 ensures List[k].Next == List[k + 1] { assert was[k + 1].Next == was[k + 2]; }
    }

    /** Read page `n` from the data file into a page's buffer. */
    method Load(page: PageNode<R>, n: nat)
      requires n in File && |File[n]| == PageRows == page.Data.Length
      modifies page`Index, page`NeedSync, page`LastRow, page.Data
      ensures page.View() == Page(n, PageRows, false, File[n])
    {
      page.Index := n;
      page.NeedSync := false;
      page.LastRow := PageRows;
      forall k | 0 <= k < PageRows { page.Data[k] := File[n][k]; }
      assert page.Data[..] == File[n];
    }

    /** The first page is moved to stand before the last one. */
    method ReuseFirst(rpage: PageNode<R>, ghost pages: seq<Page<R>>) returns (page: PageNode<R>)
      requires Linked() && 3 <= |List| && rpage == LastPage && Holds(List, pages)
      modifies `Pages, `List, (set x | x in List)`Prev, (set x | x in List)`Next
      ensures Linked() && List == Moved(old(List)) && page == List[|List| - 2] == old(List)[0]
      ensures Holds(List, Moved(pages)) && forall x | x in List :: x in old(List)
    {
      page := UnlinkFirst();
      LinkBefore(page, rpage, |List| - 1);
    }

    /** Save the page at position `i` if told to, then read page `n` over it. */
    method Refill(page: PageNode<R>, n: nat, save: bool, ghost i: nat, ghost pages: seq<Page<R>>)
      requires Linked() && Holds(List, pages) && i < |List| && page == List[i]
      requires var file := if save then PageSynced(pages[i], File) else File; n in file && |file[n]| == PageRows
      modifies `File, page`Index, page`NeedSync, page`LastRow, page.Data
      ensures Linked()
      ensures File == if save then PageSynced(pages[i], old(File)) else old(File)
      ensures Holds(List, pages[i := Page(n, PageRows, false, File[n])])
    {
      if save { PageSync(page); }
      Load(page, n);
    }

    /** A full pool, and only the last page after the wanted one: the first page is reused. */
    method RecyclePage(rpage: PageNode<R>, n: nat, ghost st: Store<R>) returns (page: PageNode<R>)
      requires Is(st) && Pager.Valid(st) && 3 <= |List| && rpage == LastPage && n < st.Last().index
      modifies `Pages, `List, `File, List, Buffers()
      ensures Linked() && |List| == |old(List)| && page == List[|List| - 2]
      ensures Holds(List, Recycled(st, n).pages)
      ensures File == Recycled(st, n).file
      ensures forall x | x in List :: x in old(List)
    {
      hide Pager.Valid, Recycled, Moved, Separate, Chained;
      LoadReady(st, n, 0);
      RecycledIs(st, n);
      ghost var moved := Moved(st.pages);
      assert List[0] in List && moved[|List| - 2] == st.pages[0];
      page := ReuseFirst(rpage, st.pages);
      Refill(page, n, true, |List| - 2, moved);
    }

    /** Allocate a page and link it in before `rpage`. */
    method AddBefore(rpage: PageNode<R>, ghost i: nat) returns (page: PageNode<R>)
      requires Linked() && i < |List| && rpage == List[i]
      modifies `Pages, `List, `PLocks, (set x | x in List)`Prev, (set x | x in List)`Next
      ensures Linked() && fresh(page) && fresh(page.Data) && List == Inserted(old(List), i, page)
      ensures page == List[i] && page.Data.Length == PageRows
      ensures forall x | x in List :: x == page || x in old(List)
    {
      page := new PageNode<R>(PageRows);
      PLocks := PLocks + 1;
      LinkBefore(page, rpage, i);
      InsertedAt(old(List), i, page);
    }

    /** Room in the pool: page `n` gets a new node before `rpage`. */
    method GrowPage(rpage: PageNode<R>, n: nat, ghost i: nat, ghost st: Store<R>) returns (page: PageNode<R>)
      requires Is(st) && Pager.Valid(st) && i < |List| && rpage == List[i] && n < st.Last().index
      modifies `Pages, `List, `PLocks, (set x | x in List)`Prev, (set x | x in List)`Next
      ensures Linked() && i < |List| && page == List[i]
      ensures fresh(page) && fresh(page.Data) && forall x | x in List :: x == page || x in old(List)
      ensures Holds(List, Grown(st, n, i).pages)
      ensures File == Grown(st, n, i).file
    {
      hide Pager.Valid, Linked;
      LoadReady(st, n, i);
      page := AddBefore(rpage, i);
      Load(page, n);
      HoldsInserted(old(List), st.pages, i, page, Loaded(st, st.file, n));
    }

    /** A full pool: page `n` is read over the page at position `i`. */
    method ReplacePage(page: PageNode<R>, n: nat, ghost i: nat, ghost st: Store<R>)
      requires Is(st) && Pager.Valid(st) && i < |List| && page == List[i] && n < st.Last().index
      modifies `File, page`Index, page`NeedSync, page`LastRow, page.Data
      ensures Linked()
      ensures Holds(List, Replaced(st, n, i).pages)
      ensures File == Replaced(st, n, i).file
    {
      hide Pager.Valid;
      LoadReady(st, n, i);
      Refill(page, n, SyncReplaced, i, st.pages);
    }

    /** LockTablePage: the page with index `n`, or null if the table has none. */
    method LockTablePage(n: nat, ghost st: Store<R>) returns (page: PageNode?<R>)
      requires Is(st) && Pager.Valid(st)
      modifies this, Footprint()
      ensures Is(LockPage(st, n).0)
      ensures page == null <==> LockPage(st, n).1.None?
      ensures page != null ==> page == List[LockPage(st, n).1.value]
      ensures fresh(Footprint() - old(Footprint()))
    {
      hide Pager.Valid, Pager.LockPage, Recycled, Replaced, Grown, Holds, Linked;
      ghost var i;
      page, i := FindPage(n, st);
      LocateIs(st, n, i);
      if page != null && page.Index != n {
        if LockPages <= PLocks {
          if page == LastPage {
            page := RecyclePage(page, n, st);
          } else {
            ReplacePage(page, n, i, st);
          }
        } else {
          page := GrowPage(page, n, i, st);
        }
      }
    }

    /** Walk the list to the first page with an index of at least `n`. */
    method FindPage(n: nat, ghost st: Store<R>) returns (page: PageNode?<R>, ghost i: nat)
      requires Is(st)
      ensures i <= |List| == PLocks == |st.pages| && page == if i < |List| then List[i] else null
      ensures forall j | 0 <= j < i :: st.pages[j].index < n
      ensures page != null ==> n <= page.Index == st.pages[i].index
      ensures page != null ==> (page == LastPage <==> i == |List| - 1)
    {
      i := 0;
      page := Pages;
      while page != null && page.Index < n
        invariant i <= |List| && page == if i < |List| then List[i] else null
        invariant forall j | 0 <= j < i :: st.pages[j].index < n
        decreases |List| - i
      {
        assert st.pages[i] == List[i].View();
        page := page.Next;
        i := i + 1;
      }
      if i < |List| { assert st.pages[i] == List[i].View(); }
    }

    /** Scan the rows of one page from row `r` on; `None` says none of them ended the search. */
    method ScanPage(page: PageNode<R>, row: nat, start: nat, filter: R -> Verdict, ghost i: nat, ghost st: Store<R>)
      returns (reply: Option<Reply<R>>, rec: nat)
      requires Is(st) && Pager.Valid(st) && i < |List| && page == List[i]
      ensures FetchRows(st, i, row, start, filter) ==
        if reply.Some? then (st, reply, rec) else FetchPages(st, st.pages[i].index + 1, 0, rec, filter)
    {
      hide Pager.Valid, FetchPages, Linked;
      var r := row;
      rec := start;
      PageShape(st, i);
      assert st.pages[i] == page.View();
      while r < page.LastRow
        invariant FetchRows(st, i, r, rec, filter) == FetchRows(st, i, row, start, filter)
      {
        match filter(page.Data[r]) {
          case Pass => return Some(Row(page.Data[r])), rec + 1;
          case Stop => return Some(Reply.LastRow), rec;
          case Reject => r, rec := r + 1, rec + 1;
        }
      }
      reply := None;
    }

    /** The loop of the read handler, over pages. */
    method ReadFrom(firstPage: nat, firstRow: nat, start: nat, filter: R -> Verdict, ghost st: Store<R>)
      returns (reply: Option<Reply<R>>, rec: nat, ghost st': Store<R>)
      requires Is(st) && Pager.Valid(st)
      modifies this, Footprint()
      ensures Is(st') && Pager.Valid(st')
      ensures (st', reply, rec) == FetchPages(st, firstPage, firstRow, start, filter)
      ensures fresh(Footprint() - old(Footprint()))
    {
      hide Pager.Valid, LockPage, Linked, Holds, FetchRows, Is;
      st' := st;
      SomePage(st);
      var p: nat, r: nat := firstPage, firstRow;
      rec := start;
      while rec < Index
        invariant Is(st') && Pager.Valid(st') && st'.pages != [] && Index == st'.index
        invariant fresh(Footprint() - old(Footprint()))
        invariant FetchPages(st', p, r, rec, filter) == FetchPages(st, firstPage, firstRow, start, filter)
        decreases if p <= st'.Last().index then st'.Last().index - p + 1 else 0
      {
        var page := LockTablePage(p, st');
        ghost var slot := LockPage(st', p).1;
        st' := LockPage(st', p).0;
        SomePage(st');
        if page == null { return None, rec, st'; }
        reply, rec := ScanPage(page, r, rec, filter, slot.value, st');
        if reply.Some? { return; }
        p, r := p + 1, 0;
      }
      reply := Some(Reply.LastRow);
    }

    /**
     Qbase_read: scan from the cursor `start` to the next row that passes.  `None` is the
     empty reply given when a page could not be had.
     */
    method Read(start: nat, filter: R -> Verdict, ghost st: Store<R>)
      returns (reply: Option<Reply<R>>, rec: nat, ghost st': Store<R>)
      requires Is(st) && Pager.Valid(st)
      modifies this, Footprint()
      ensures Is(st') && Pager.Valid(st')
      ensures (st', reply, rec) == FetchPages(st, start / PageRows, start % PageRows, start, filter)
      ensures fresh(Footprint() - old(Footprint()))
    {
      reply, rec, st' := ReadFrom(start / PageRows, start % PageRows, start, filter, st);
    }

    /** Rewrite row `r` of a page in its buffer. */
    method RewriteRow(page: PageNode<R>, r: nat, row: R, ghost i: nat, ghost st: Store<R>)
      requires Is(st) && i < |List| && page == List[i] && r < page.Data.Length
      modifies page`NeedSync, page.Data
      ensures r < |st.pages[i].data| && Is(SetRow(st, i, r, row))
    {
      assert st.pages[i] == page.View();
      page.Data[r] := row;
      page.NeedSync := true;
    }

    /** One page of an update: stops at its end, or when the pass is over. */
    method SweepPage(page: PageNode<R>, row: nat, left: nat, one: bool, filter: R -> Verdict, f: R -> R,
                     ghost i: nat, ghost st: Store<R>)
      returns (over: bool, t: nat, ghost st': Store<R>)
      requires Is(st) && Pager.Valid(st) && i < |List| && page == List[i]
      modifies page`NeedSync, page.Data
      ensures Is(st') && Pager.Valid(st') && st'.pages != [] && st'.Last().index == st.Last().index
      ensures SweepRows(st, i, row, left, one, filter, f) ==
        if over then (st', true) else SweepPages(st', st.pages[i].index + 1, 0, t, one, filter, f)
    {
      hide Pager.Valid, SweepPages, Linked, Holds;
      var r := row;
      t := left;
      st' := st;
      HoldsAt(i, st);
      PageShape(st, i);
      while r < page.LastRow && t > 0
        invariant Is(st') && Pager.Valid(st') && i < |st'.pages| && i < |List|
        invariant st'.Last().index == st.Last().index
        invariant st'.pages[i] == page.View() && page.LastRow <= page.Data.Length
        invariant st'.pages[i].index == st.pages[i].index
        invariant SweepRows(st', i, r, t, one, filter, f) == SweepRows(st, i, row, left, one, filter, f)
      {
        var c := filter(page.Data[r]);
        ghost var next := SweptRow(st', i, r, filter, f);
        if c == Pass {
          RewriteRow(page, r, f(page.Data[r]), i, st');
        }
        st' := next;
        HoldsAt(i, st');
        if c == Stop || one { return true, t, st'; }
        r, t := r + 1, t - 1;
      }
      over := false;
    }

    lemma HoldsAt(i: nat, st: Store<R>)
      requires Is(st) && i < |List|
      ensures i < |st.pages| == |List| && st.pages[i] == List[i].View()
    {
    }

    lemma SomePage(st: Store<R>)
      requires Is(st)
      ensures st.pages != [] && |st.pages| == |List| && Index == st.index && PageRows == st.pageRows
    {
    }

    /** The loop of UPDATE, UPDCUR and DELETE; `ok` is false if a page could not be had. */
    method SweepTable(firstPage: nat, firstRow: nat, one: bool, filter: R -> Verdict, f: R -> R, ghost st: Store<R>)
      returns (ok: bool, ghost st': Store<R>)
      requires Is(st) && Pager.Valid(st)
      modifies this, Footprint()
      ensures Is(st') && Pager.Valid(st')
      ensures (st', ok) == SweepPages(st, firstPage, firstRow, st.index, one, filter, f)
      ensures fresh(Footprint() - old(Footprint()))
    {
      hide Pager.Valid, LockPage, Linked, Holds, SweepRows, Is;
      st' := st;
      SomePage(st);
      var p: nat, r: nat, t: nat, over := firstPage, firstRow, Index, false;
      while t > 0
        invariant Is(st') && Pager.Valid(st') && st'.pages != [] && Index == st'.index
        invariant fresh(Footprint() - old(Footprint()))
        invariant SweepPages(st', p, r, t, one, filter, f) ==
          SweepPages(st, firstPage, firstRow, st.index, one, filter, f)
        decreases if p <= st'.Last().index then st'.Last().index - p + 1 else 0
      {
        var page := LockTablePage(p, st');
        ghost var slot := LockPage(st', p).1;
        st' := LockPage(st', p).0;
        SomePage(st');
        if page == null { return false, st'; }
        assert page in List;
        over, t, st' := SweepPage(page, r, t, one, filter, f, slot.value, st');
        if over { return true, st'; }
        p, r := p + 1, 0;
      }
      ok := true;
    }

    /** A full last page is saved, with the header, and turned into the next page. */
    method TurnLast(page: PageNode<R>, ghost st: Store<R>)
      requires Is(st) && page == LastPage
      modifies `File, `Header, page`NeedSync, page`Index, page`LastRow
      ensures st.pages != [] && Is(Turned(st))
    {
      hide Chained;
      SomePage(st);
      HoldsAt(|List| - 1, st);
      PageSync(page);
      Header := Index;
      page.Index := page.Index + 1;
      page.LastRow := 0;
    }

    /** Qbase_write: add a row (which already carries its primary key) after the last one. */
    method Write(row: R, ghost st: Store<R>)
      requires Is(st) && Pager.Valid(st)
      modifies `File, `Header, `Index, Footprint()
      ensures Is(Appended(st, row))
    {
      ghost var st' := st;
      var page := LastPage;
      SomePage(st);
      HoldsAt(|List| - 1, st);
      PageShape(st, |List| - 1);
      if page.LastRow >= PageRows {
        TurnLast(page, st);
        st' := Turned(st);
      }
      Place(page, row, st');
    }

    method Place(page: PageNode<R>, row: R, ghost st: Store<R>)
      requires Is(st) && page == LastPage && page.LastRow < PageRows
      modifies `Index, page`LastRow, page`NeedSync, page.Data
      ensures st.pages != [] && st.Last().lastRow < |st.Last().data| && Is(Placed(st, row))
    {
      SomePage(st);
      HoldsAt(|List| - 1, st);
      Index := Index + 1;
      page.Data[page.LastRow] := row;
      page.LastRow := page.LastRow + 1;
      page.NeedSync := true;
    }

    /** Where a flush stands when the first `i` pages are done. */
    ghost predicate Flushing(st: Store<R>, i: nat, page: PageNode?<R>)
      reads this, List, Buffers()
    {
      && Linked() && i <= |List| == |st.pages| && page == (if i < |List| then List[i] else null)
      && Holds(List, CleanTo(st.pages, i))
      && PagesSynced(st.pages, File, i) == PagesSynced(st.pages, st.file, 0)
    }

    /** Qbase_TableSync: save the header and every page that needs it. */
    method TableSync(ghost st: Store<R>)
      requires Is(st)
      modifies `File, `Header, (set x | x in List)`NeedSync
      ensures Is(TableSynced(st))
    {
      hide Flushing, Holds, Linked;
      Header := Index;
      var page := Pages;
      ghost var i := 0;
      FlushStarts(st);
      while page != null
        invariant Flushing(st, i, page) && i <= |st.pages| && (page == null <==> i == |st.pages|)
        invariant page != null ==> page in List
        invariant Header == Index == st.index
        decreases |st.pages| - i
      {
        page := SyncOne(page, i, st);
        i := i + 1;
      }
      FlushEnds(st);
    }

    lemma FlushStarts(st: Store<R>)
      requires Linked() && Holds(List, st.pages) && File == st.file
      ensures Flushing(st, 0, Pages) && st.pages != [] && Pages != null && Pages in List
    {
      assert CleanTo(st.pages, 0) == st.pages;
    }

    lemma FlushEnds(st: Store<R>)
      requires Flushing(st, |st.pages|, null)
      ensures Linked() && Holds(List, Cleaned(st.pages)) && File == PagesSynced(st.pages, st.file, 0)
    {
      assert CleanTo(st.pages, |st.pages|) == Cleaned(st.pages);
    }

    /** One page of a flush. */
    method SyncOne(page: PageNode<R>, ghost i: nat, ghost st: Store<R>) returns (next: PageNode?<R>)
      requires Flushing(st, i, page)
      modifies `File, page`NeedSync
      ensures i < |st.pages| && Flushing(st, i + 1, next) && (next == null <==> i + 1 == |st.pages|)
      ensures next != null ==> next in List
    {
      hide CleanTo;
      assert CleanTo(st.pages, i)[i] == page.View();
      next := page.Next;
      PageSync(page);
    }
  }
}
