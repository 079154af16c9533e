/** The sales dashboard (question-2-dashboard/script.js): the transactions
    table shown five rows at a time with previous/next navigation, the search
    and status filters, the date-sort toggle and the live activity feed capped
    at ten entries.

    The page state (`currentPage`, the loaded data, the feed) is module-level
    and changed by event handlers, so it is a class here. Dates are given as
    integer keys; the amounts, the charts and the page's other widgets play no
    part. */
module Dashboard {
  import opened Text

  /** `itemsPerPage`. */
  const PageSize: nat := 5
  /** The activity feed keeps at most this many entries. */
  const FeedLimit: nat := 10

  datatype Transaction = Transaction(id: string, customer: string, status: string, date: int, category: string)

  // ------------------------------------------------------------ paging

  /** `Math.ceil(n / itemsPerPage)`: the least number of pages that hold `n` rows. */
  function TotalPages(n: nat): (p: nat)
    ensures p * PageSize >= n
    ensures p == 0 || (p - 1) * PageSize < n
  {
    (n + PageSize - 1) / PageSize
  }

  /** `transactions.slice((page - 1) * 5, (page - 1) * 5 + 5)`: the rows of one
      page, fewer on the last page and none past it. */
  function PageSlice(ts: seq<Transaction>, page: nat): (r: seq<Transaction>)
    requires page >= 1
    ensures var start := (page - 1) * PageSize;
      |r| == if start >= |ts| then 0 else if |ts| - start < PageSize then |ts| - start else PageSize
    ensures forall k :: 0 <= k < |r| ==> r[k] == ts[(page - 1) * PageSize + k]
  {
    var start := (page - 1) * PageSize;
    if start >= |ts| then []
    else if start + PageSize <= |ts| then ts[start..start + PageSize]
    else ts[start..]
  }

  /** Every row lies on exactly one page, at the position the page arithmetic
      gives it, and that page is within range. */
  lemma RowOnItsPage(ts: seq<Transaction>, i: nat)
    requires i < |ts|
    ensures var page := i / PageSize + 1;
      && 1 <= page <= TotalPages(|ts|)
      && i - (page - 1) * PageSize < |PageSlice(ts, page)|
      && PageSlice(ts, page)[i - (page - 1) * PageSize] == ts[i]
  {
    var page := i / PageSize + 1;
    assert (page - 1) * PageSize <= i < page * PageSize;
  }

  // ------------------------------------------------------------ filtering

  /** The positions among the first `n` transactions that satisfy `keep`. */
  function Positions(ts: seq<Transaction>, keep: Transaction -> bool, n: nat): (idx: seq<nat>)
    requires n <= |ts|
    ensures forall k :: 0 <= k < |idx| ==> idx[k] < n
    ensures forall a, b :: 0 <= a < b < |idx| ==> idx[a] < idx[b]
  {
    if n == 0 then []
    else Positions(ts, keep, n - 1) + (if keep(ts[n - 1]) then [n - 1] else [])
  }

  /** A position is listed exactly when its transaction passes. */
  lemma {:induction false} PositionsMembers(ts: seq<Transaction>, keep: Transaction -> bool, n: nat)
    requires n <= |ts|
    ensures forall i: nat :: i in Positions(ts, keep, n) <==> i < n && keep(ts[i])
  {
    if n > 0 {
      PositionsMembers(ts, keep, n - 1);
    }
  }

  /** When every transaction passes, every position is listed in order. */
  lemma {:induction false} PositionsAll(ts: seq<Transaction>, keep: Transaction -> bool, n: nat)
    requires n <= |ts|
    requires forall t :: t in ts ==> keep(t)
    ensures |Positions(ts, keep, n)| == n
    ensures forall k :: 0 <= k < n ==> Positions(ts, keep, n)[k] == k
  {
    if n > 0 {
      PositionsAll(ts, keep, n - 1);
    }
  }

  /** `ts.filter(keep)`: the passing transactions, in their original order. */
  function Select(ts: seq<Transaction>, keep: Transaction -> bool): (r: seq<Transaction>)
    ensures |r| <= |ts|
  {
    var idx := Positions(ts, keep, |ts|);
    assert forall k :: 0 <= k < |idx| ==> idx[k] < |ts|;
    PositionsLength(idx, |ts|);
    seq(|idx|, k requires 0 <= k < |idx| => ts[idx[k]])
  }

  /** A strictly increasing list of positions below `n` has at most `n` entries. */
  lemma {:induction false} PositionsLength(idx: seq<nat>, n: nat)
    requires forall k :: 0 <= k < |idx| ==> idx[k] < n
    requires forall a, b :: 0 <= a < b < |idx| ==> idx[a] < idx[b]
    ensures |idx| <= n
  {
    if |idx| > 0 {
      var m := idx[|idx| - 1];
      assert forall k :: 0 <= k < |idx| - 1 ==> idx[k] < m;
      PositionsLength(idx[..|idx| - 1], m);
    }
  }

  /** `Select` keeps, in order, exactly the passing transactions: it is the list
      of the passing positions read off `ts`. */
  lemma SelectSpec(ts: seq<Transaction>, keep: Transaction -> bool)
    ensures var idx := Positions(ts, keep, |ts|);
      && |Select(ts, keep)| == |idx|
      && (forall k :: 0 <= k < |idx| ==> Select(ts, keep)[k] == ts[idx[k]])
      && (forall i: nat :: i in idx <==> i < |ts| && keep(ts[i]))
  {
    PositionsMembers(ts, keep, |ts|);
  }

  /** A filter that every transaction passes returns the list unchanged. */
  lemma SelectAll(ts: seq<Transaction>, keep: Transaction -> bool)
    requires forall t :: t in ts ==> keep(t)
    ensures Select(ts, keep) == ts
  {
    PositionsAll(ts, keep, |ts|);
  }

  /** The test of `filterTransactions`: the lower-cased customer, id or
      category contains the lower-cased term. */
  predicate MatchesSearch(t: Transaction, term: string) {
    var q := Lower(term);
    Contains(Lower(t.customer), q) || Contains(Lower(t.id), q) || Contains(Lower(t.category), q)
  }

  function SearchResults(ts: seq<Transaction>, term: string): seq<Transaction> {
    Select(ts, t => MatchesSearch(t, term))
  }

  /** The empty search term matches every transaction. */
  lemma EmptySearchKeepsAll(ts: seq<Transaction>)
    ensures SearchResults(ts, []) == ts
  {
    forall t | t in ts ensures MatchesSearch(t, []) {
      assert OccursAt(Lower(t.customer), [], 0);
    }
    SelectAll(ts, t => MatchesSearch(t, []));
  }

  /** `filterTransactionsByStatus`: 'all' is the whole list, any other status
      keeps exact matches. */
  function StatusResults(ts: seq<Transaction>, status: string): (r: seq<Transaction>)
    ensures status == "all" ==> r == ts
  {
    if status == "all" then ts else Select(ts, (t: Transaction) => t.status == status)
  }

  /** Every transaction shown for a status other than 'all' has that status, and
      every transaction with it is shown. */
  lemma StatusResultsExact(ts: seq<Transaction>, status: string)
    requires status != "all"
    ensures forall t :: t in StatusResults(ts, status) <==> t in ts && t.status == status
  {
    var keep := (t: Transaction) => t.status == status;
    var idx := Positions(ts, keep, |ts|);
    SelectSpec(ts, keep);
    var r := Select(ts, keep);
    forall t | t in r ensures t in ts && t.status == status {
      var k :| 0 <= k < |r| && r[k] == t;
      assert idx[k] in idx;
    }
    forall t | t in ts && t.status == status ensures t in r {
      var i :| 0 <= i < |ts| && ts[i] == t;
      assert i in idx;
      var k :| 0 <= k < |idx| && idx[k] == i;
      assert r[k] == t;
    }
  }

  // ------------------------------------------------------------ sorting by date

  /** `a` may come before `b`: newest first compares dates downwards. */
  predicate InOrder(a: Transaction, b: Transaction, newestFirst: bool) {
    if newestFirst then a.date >= b.date else a.date <= b.date
  }

  predicate Sorted(s: seq<Transaction>, newestFirst: bool) {
    forall i, j :: 0 <= i < j < |s| ==> InOrder(s[i], s[j], newestFirst)
  }

  /** Inserts `x` into a list before the first entry it may precede. */
  function Insert(x: Transaction, s: seq<Transaction>, newestFirst: bool): (r: seq<Transaction>)
    ensures multiset(r) == multiset(s) + multiset{x}
  {
    if s == [] || InOrder(x, s[0], newestFirst) then [x] + s
    else
      assert s == [s[0]] + s[1..];
      [s[0]] + Insert(x, s[1..], newestFirst)
  }

  /** Inserting into a sorted list keeps it sorted. */
  lemma {:induction false} InsertSorted(x: Transaction, s: seq<Transaction>, newestFirst: bool)
    requires Sorted(s, newestFirst)
    ensures Sorted(Insert(x, s, newestFirst), newestFirst)
  {
    if s != [] && !InOrder(x, s[0], newestFirst) {
      var rest := Insert(x, s[1..], newestFirst);
      InsertSorted(x, s[1..], newestFirst);
      InsertBound(s[0], x, s[1..], newestFirst);
      var r := [s[0]] + rest;
      forall i, j | 0 <= i < j < |r| ensures InOrder(r[i], r[j], newestFirst) {
        if i > 0 {
          assert r[i] == rest[i - 1] && r[j] == rest[j - 1];
        } else {
          assert r[j] == rest[j - 1];
        }
      }
    }
  }

  /** What may precede `x` and every entry of `s` may precede every entry of
      their insertion. */
  lemma {:induction false} InsertBound(y: Transaction, x: Transaction, s: seq<Transaction>, newestFirst: bool)
    requires InOrder(y, x, newestFirst)
    requires forall j :: 0 <= j < |s| ==> InOrder(y, s[j], newestFirst)
    ensures forall j :: 0 <= j < |Insert(x, s, newestFirst)| ==> InOrder(y, Insert(x, s, newestFirst)[j], newestFirst)
  {
    if s != [] && !InOrder(x, s[0], newestFirst) {
      InsertBound(y, x, s[1..], newestFirst);
    }
  }

  /** The list `sort` produces: the same transactions, ordered by date. */
  function SortByDate(s: seq<Transaction>, newestFirst: bool): (r: seq<Transaction>)
    ensures multiset(r) == multiset(s)
    ensures Sorted(r, newestFirst)
  {
    if s == [] then []
    else
      assert s == [s[0]] + s[1..];
      var rest := SortByDate(s[1..], newestFirst);
      InsertSorted(s[0], rest, newestFirst);
      Insert(s[0], rest, newestFirst)
  }

  // ------------------------------------------------------------ the page

  class Page {
    /** `dashboardData.transactions`. */
    var transactions: seq<Transaction>
    /** `currentPage`. */
    var page: nat
    /** The rows in the table body. */
    var shown: seq<Transaction>
    /** The page count in "Page p of n". */
    var pagesShown: nat
    var prevDisabled: bool
    var nextDisabled: bool
    /** The messages of the activity feed, newest first. */
    var feed: seq<string>

    /** The current page is never below 1 nor beyond the last page. */
    ghost predicate Valid()
      reads this
    {
      1 <= page && (page == 1 || page <= TotalPages(|transactions|))
    }

    /** The page once `dashboardData` is loaded and drawn. */
    constructor (ts: seq<Transaction>, activities: seq<string>)
      ensures Valid() && transactions == ts && page == 1 && feed == activities
      ensures shown == PageSlice(ts, 1) && pagesShown == TotalPages(|ts|)
      ensures prevDisabled && nextDisabled == (TotalPages(|ts|) == 1)
    {
      transactions := ts;
      page := 1;
      feed := activities;
      shown := PageSlice(ts, 1);
      pagesShown := TotalPages(|ts|);
      prevDisabled := true;
      nextDisabled := TotalPages(|ts|) == 1;
    }

    /** The table and the pagination controls show the current page, as
        `populateTransactionsTable` and `updatePagination` leave them. */
    predicate Drawn()
      reads this
    {
      && page >= 1
      && shown == PageSlice(transactions, page)
      && pagesShown == TotalPages(|transactions|)
      && prevDisabled == (page == 1)
      && nextDisabled == (page == TotalPages(|transactions|))
    }

    /** `populateTransactionsTable` followed by `updatePagination`. */
    method Populate()
      requires Valid()
      modifies this
      ensures Valid() && transactions == old(transactions) && page == old(page) && feed == old(feed)
      ensures shown == PageSlice(transactions, page)
      ensures pagesShown == TotalPages(|transactions|)
      ensures prevDisabled <==> page == 1
      ensures nextDisabled <==> page == TotalPages(|transactions|)
    {
      shown := PageSlice(transactions, page);
      pagesShown := TotalPages(|transactions|);
      prevDisabled := page == 1;
      nextDisabled := page == TotalPages(|transactions|);
    }

    /** The previous-page handler. */
    method PrevPage()
      requires Valid()
      modifies this
      ensures Valid() && transactions == old(transactions) && feed == old(feed)
      ensures old(page) > 1 ==> page == old(page) - 1 && Drawn()
      ensures old(page) == 1 ==> unchanged(this)
    {
      if page > 1 {
        page := page - 1;
        Populate();
      }
    }

    /** The next-page handler. */
    method NextPage()
      requires Valid()
      modifies this
      ensures Valid() && transactions == old(transactions) && feed == old(feed)
      ensures old(page) < TotalPages(|transactions|) ==> page == old(page) + 1 && Drawn()
      ensures old(page) >= TotalPages(|transactions|) ==> unchanged(this)
    {
      if page < TotalPages(|transactions|) {
        page := page + 1;
        Populate();
      }
    }

    /** `filterTransactions` with `displayFilteredTransactions`: the current
        page of the matches is shown, with their page count; the page number
        itself is kept. */
    method FilterTransactions(term: string) returns (matches: seq<Transaction>)
      requires Valid()
      modifies this`shown, this`pagesShown
      ensures matches == SearchResults(transactions, term)
      ensures shown == PageSlice(matches, page) && pagesShown == TotalPages(|matches|)
    {
      matches := SearchResults(transactions, term);
      shown := PageSlice(matches, page);
      pagesShown := TotalPages(|matches|);
    }

    /** `filterTransactionsByStatus` with `displayFilteredTransactions`. */
    method FilterByStatus(status: string) returns (matches: seq<Transaction>)
      requires Valid()
      modifies this`shown, this`pagesShown
      ensures matches == StatusResults(transactions, status)
      ensures shown == PageSlice(matches, page) && pagesShown == TotalPages(|matches|)
    {
      matches := StatusResults(transactions, status);
      shown := PageSlice(matches, page);
      pagesShown := TotalPages(|matches|);
    }

    /** `sortTransactionsByDate`: newest first when the first transaction is
        older than the last, oldest first otherwise; back to page 1. With no
        transactions the handler throws on `transactions[0].date` and nothing
        changes. */
    method SortTransactionsByDate() returns (newestFirst: Option<bool>)
      requires Valid()
      modifies this
      ensures Valid() && feed == old(feed)
      ensures old(transactions) == [] ==> newestFirst == None && unchanged(this)
      ensures old(transactions) != [] ==>
        && newestFirst == Some(old(transactions[0].date < transactions[|transactions| - 1].date))
        && multiset(transactions) == multiset(old(transactions))
        && Sorted(transactions, newestFirst.value)
        && page == 1 && Drawn()
    {
      if transactions == [] {
        return None;
      }
      var ascending := transactions[0].date < transactions[|transactions| - 1].date;
      transactions := SortByDate(transactions, ascending);
      page := 1;
      Populate();
      newestFirst := Some(ascending);
    }

    /** `addNewActivity`: the new entry goes first, then entries are removed
        from the end while more than ten remain. */
    method AddNewActivity(message: string)
      modifies this`feed
      ensures |feed| == if |old(feed)| + 1 <= FeedLimit then |old(feed)| + 1 else FeedLimit
      ensures feed[0] == message
      ensures feed[1..] == old(feed)[..|feed| - 1]
    {
      feed := [message] + feed;
      while |feed| > FeedLimit
        invariant |feed| >= 1 && feed[0] == message
        invariant |feed| >= FeedLimit || |feed| == |old(feed)| + 1
        invariant |feed| <= |old(feed)| + 1
        invariant feed[1..] == old(feed)[..|feed| - 1]
        decreases |feed|
      {
        feed := feed[..|feed| - 1];
      }
    }
  }
}
