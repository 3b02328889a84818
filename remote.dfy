/** The paginated listings of the platform client, as the page-walking loops
    see them, and the reference definitions those loops are proved against. */
module Remote {
  import opened Wrappers
  import opened Seqs

  /** How an operation fails. An exception from the client library is kept by
      its message; the bot-provisioning workflow raises two errors of its own. */
  datatype Error =
    | Thrown(message: string)
    | PersonalWorkspaceNotFound   // raised when no personal workspace is listed
    | BotCreationFailed           // raised when bot creation returns nothing

  /** What one awaited list call gives when a client exists: it throws, or it
      returns a list of records. */
  datatype Reply<T> = Threw(message: string) | Listed(items: seq<T>)

  /** A remote listing. `NoClient`: the client handle is null, so every
      optional-chained call evaluates to undefined. `Pages(pages)`: the request
      for page n (counted from 1) is answered by `pages[n - 1]`; every page past
      the end is an empty list. */
  datatype Listing<T> = NoClient | Pages(pages: seq<Reply<T>>)

  /** The response to the request for page `n`; `None` is undefined. */
  function Fetch<T>(l: Listing<T>, n: nat): (r: Option<Reply<T>>)
    requires n >= 1
    ensures r.None? <==> l.NoClient?
    ensures l.Pages? && n > |l.pages| ==> r == Some(Listed([]))
  {
    match l
    case NoClient => None
    case Pages(pages) => if n <= |pages| then Some(pages[n - 1]) else Some(Listed([]))
  }

  /** The loop's `hasMore` test: the response is a list of exactly `size`
      records (undefined compares unequal). */
  predicate IsFull<T>(r: Option<Reply<T>>, size: nat): (full: bool)
    ensures r.None? ==> !full
  {
    r.Some? && r.value.Listed? && |r.value.items| == size
  }

  /** The response is an exception. */
  predicate Failed<T>(r: Option<Reply<T>>) {
    r.Some? && r.value.Threw?
  }

  /** The records of a response, `[]` for undefined (the `|| []` fallback). */
  function ItemsOf<T>(r: Option<Reply<T>>): (items: seq<T>)
    ensures r.None? || Failed(r) ==> items == []
  {
    if r.Some? && r.value.Listed? then r.value.items else []
  }

  /** How many listed pages are left from page `n` on: the termination measure. */
  function PagesLeft<T>(l: Listing<T>, n: nat): nat {
    match l
    case NoClient => 0
    case Pages(pages) => if n <= |pages| then |pages| + 1 - n else 0
  }

  /** Every page before page `n` came back full. */
  ghost predicate FullBefore<T>(l: Listing<T>, size: nat, n: nat) {
    forall m :: 1 <= m < n ==> IsFull(Fetch(l, m), size)
  }

  /** The first page from `n` on that is not full: the last page a loop
      starting at `n` asks for, so the number of passes of a loop starting at
      page 1 (each pass sends one request when a client exists). */
  function LastPage<T>(l: Listing<T>, size: nat, n: nat): (k: nat)
    requires n >= 1 && size > 0
    ensures n <= k && !IsFull(Fetch(l, k), size)
    ensures forall m :: n <= m < k ==> IsFull(Fetch(l, m), size)
    decreases PagesLeft(l, n)
  {
    if IsFull(Fetch(l, n), size) then LastPage(l, size, n + 1) else n
  }

  /** The records of pages 1..k, page after page. */
  function Gathered<T>(l: Listing<T>, k: nat): (g: seq<T>)
    ensures l.NoClient? ==> g == []
  {
    if k == 0 then [] else Gathered(l, k - 1) + ItemsOf(Fetch(l, k))
  }

  /** Reference definition of a page-walking search: the first record, in
      page-then-index order, satisfying `p` among the pages the walk reads; if
      there is none, the exception of the last page read, or else null. */
  function Search<T>(l: Listing<T>, size: nat, p: T -> bool): (r: Result<Option<T>, Error>)
    requires size > 0
    ensures var seen := Gathered(l, LastPage(l, size, 1));
      (exists i :: 0 <= i < |seen| && p(seen[i])) ==>
        exists i :: 0 <= i < |seen| && r == Success(Some(seen[i])) && p(seen[i])
          && forall j :: 0 <= j < i ==> !p(seen[j])
    ensures var k := LastPage(l, size, 1); var seen := Gathered(l, k);
      (forall i :: 0 <= i < |seen| ==> !p(seen[i])) ==>
        r == if Failed(Fetch(l, k)) then Failure(Thrown(Fetch(l, k).value.message)) else Success(None)
  {
    var k := LastPage(l, size, 1);
    var seen := Gathered(l, k);
    match FindFirst(seen, p)
    case Some(i) => Success(Some(seen[i]))
    case None => if Failed(Fetch(l, k)) then Failure(Thrown(Fetch(l, k).value.message)) else Success(None)
  }

  /** Reference definition of a page-walking accumulation: every record of the
      pages the walk reads, or the exception of the last page read. */
  function Collect<T>(l: Listing<T>, size: nat): (r: Result<seq<T>, Error>)
    requires size > 0
    ensures r.Failure? <==> Failed(Fetch(l, LastPage(l, size, 1)))
    ensures r.Success? ==> forall m :: 1 <= m <= LastPage(l, size, 1) ==> !Failed(Fetch(l, m))
    ensures r.Success? ==> r.value == Gathered(l, LastPage(l, size, 1))
  {
    var k := LastPage(l, size, 1);
    if Failed(Fetch(l, k)) then Failure(Thrown(Fetch(l, k).value.message)) else Success(Gathered(l, k))
  }

  // ---------------------------------------------------------------------
  // Facts about the walk

  /** The walk stops at the first page that is not full. */
  lemma LastPageIs<T>(l: Listing<T>, size: nat, n: nat)
    requires n >= 1 && size > 0
    requires FullBefore(l, size, n) && !IsFull(Fetch(l, n), size)
    ensures LastPage(l, size, 1) == n
  {
  }

  /** A walk whose first pages are full reads at least up to the next one. */
  lemma LastPageAtLeast<T>(l: Listing<T>, size: nat, n: nat)
    requires size > 0 && FullBefore(l, size, n)
    ensures n <= LastPage(l, size, 1)
  {
  }

  /** Reading more pages only extends what was gathered. */
  lemma {:induction false} GatheredPrefix<T>(l: Listing<T>, a: nat, b: nat)
    requires a <= b
    ensures |Gathered(l, a)| <= |Gathered(l, b)|
    ensures Gathered(l, b)[..|Gathered(l, a)|] == Gathered(l, a)
  {
    if a < b {
      GatheredPrefix(l, a, b - 1);
      assert Gathered(l, b) == Gathered(l, b - 1) + ItemsOf(Fetch(l, b));
    }
  }

  /** The records gathered up to page `k` start with those up to page `n`. */
  lemma GatheredThrough<T>(l: Listing<T>, n: nat, k: nat)
    requires 1 <= n <= k
    ensures |Gathered(l, n - 1)| + |ItemsOf(Fetch(l, n))| <= |Gathered(l, k)|
    ensures Gathered(l, k)[..|Gathered(l, n - 1)| + |ItemsOf(Fetch(l, n))|]
      == Gathered(l, n - 1) + ItemsOf(Fetch(l, n))
  {
    GatheredPrefix(l, n, k);
    assert Gathered(l, n) == Gathered(l, n - 1) + ItemsOf(Fetch(l, n));
  }

  /** The search returns the record its first match points at. */
  lemma SearchFinds<T>(l: Listing<T>, size: nat, p: T -> bool, i: nat)
    requires size > 0
    requires FindFirst(Gathered(l, LastPage(l, size, 1)), p) == Some(i)
    ensures i < |Gathered(l, LastPage(l, size, 1))|
    ensures Search(l, size, p) == Success(Some(Gathered(l, LastPage(l, size, 1))[i]))
  {
  }

  /** A search that finds its match at index `j` of page `n`, after no match
      on the pages before, returns that record. */
  lemma SearchHit<T>(l: Listing<T>, size: nat, p: T -> bool, n: nat, j: nat)
    requires size > 0 && n >= 1 && FullBefore(l, size, n)
    requires NoMatch(Gathered(l, n - 1), p)
    requires j < |ItemsOf(Fetch(l, n))| && p(ItemsOf(Fetch(l, n))[j])
    requires NoMatch(ItemsOf(Fetch(l, n))[..j], p)
    ensures Search(l, size, p) == Success(Some(ItemsOf(Fetch(l, n))[j]))
  {
    var k := LastPage(l, size, 1);
    LastPageAtLeast(l, size, n);
    var g := Gathered(l, n - 1);
    var items := ItemsOf(Fetch(l, n));
    GatheredThrough(l, n, k);
    FindFirstAfter(Gathered(l, k), g, items, p, j);
    SearchFinds(l, size, p, |g| + j);
  }

  /** A search that reaches page `n`, the first page that is not full,
      without a match returns that page's exception, or else null. */
  lemma SearchMiss<T>(l: Listing<T>, size: nat, p: T -> bool, n: nat)
    requires size > 0 && n >= 1 && FullBefore(l, size, n) && !IsFull(Fetch(l, n), size)
    requires NoMatch(Gathered(l, n), p)
    ensures Search(l, size, p)
      == if Failed(Fetch(l, n)) then Failure(Thrown(Fetch(l, n).value.message)) else Success(None)
  {
    LastPageIs(l, size, n);
  }

  /** Without a client the walk makes one request and finds nothing. */
  lemma NoClientStopsAtOnce<T>(size: nat, p: T -> bool)
    requires size > 0
    ensures LastPage(Listing<T>.NoClient, size, 1) == 1
    ensures Collect(Listing<T>.NoClient, size) == Success([])
    ensures Search(NoClient, size, p) == Success(None)
  {
    var l := Listing<T>.NoClient;
    assert Gathered(l, 1) == Gathered(l, 0) + ItemsOf(Fetch(l, 1));
  }

  /** A page with more records than the page size also stops the walk: the
      pages after it are never read. */
  lemma OversizedPageStops<T>(l: Listing<T>, size: nat, n: nat)
    requires size > 0 && n >= 1 && FullBefore(l, size, n)
    requires Fetch(l, n).Some? && Fetch(l, n).value.Listed? && |Fetch(l, n).value.items| > size
    ensures LastPage(l, size, 1) == n
  {
    LastPageIs(l, size, n);
  }

  // ---------------------------------------------------------------------
  // A well-formed listing is read completely and in order

  /** The records of the given pages, concatenated in order. */
  function AllItems<T>(pages: seq<Reply<T>>): seq<T> {
    if pages == [] then [] else ItemsOf(Some(pages[0])) + AllItems(pages[1..])
  }

  /** A listing as a server paginates it: no page throws, every page but the
      last holds exactly `size` records and the last at most `size`. */
  ghost predicate WellPaged<T>(pages: seq<Reply<T>>, size: nat) {
    && (forall i :: 0 <= i < |pages| ==> pages[i].Listed?)
    && (forall i :: 0 <= i < |pages| - 1 ==> |pages[i].items| == size)
    && (|pages| > 0 ==> |pages[|pages| - 1].items| <= size)
  }

  lemma {:induction false} AllItemsAppend<T>(a: seq<Reply<T>>, x: Reply<T>)
    ensures AllItems(a + [x]) == AllItems(a) + ItemsOf(Some(x))
  {
    if a != [] {
      assert (a + [x])[1..] == a[1..] + [x];
      AllItemsAppend(a[1..], x);
    } else {
      assert [x][1..] == [];
    }
  }

  lemma {:induction false} GatheredPages<T>(pages: seq<Reply<T>>, k: nat)
    requires k <= |pages|
    ensures Gathered(Pages(pages), k) == AllItems(pages[..k])
  {
    if k > 0 {
      GatheredPages(pages, k - 1);
      assert pages[..k] == pages[..k - 1] + [pages[k - 1]];
      AllItemsAppend(pages[..k - 1], pages[k - 1]);
    }
  }

  /** Listings are complete and order-preserving: on a well-paged listing the
      walk returns every record of every page, in order. It reads the short
      last page and stops, or, when the last page is full (or there are no
      pages), it reads one extra empty page past the end. */
  lemma CompleteListing<T>(pages: seq<Reply<T>>, size: nat)
    requires size > 0 && WellPaged(pages, size)
    ensures LastPage(Pages(pages), size, 1)
      == if |pages| > 0 && |pages[|pages| - 1].items| < size then |pages| else |pages| + 1
    ensures Collect(Pages(pages), size) == Success(AllItems(pages))
  {
    var l := Pages(pages);
    var n := |pages|;
    assert FullBefore(l, size, n);
    assert pages[..n] == pages;
    if n > 0 && |pages[n - 1].items| < size {
      LastPageIs(l, size, n);
      GatheredPages(pages, n);
    } else {
      assert FullBefore(l, size, n + 1);
      assert Fetch(l, n + 1) == Some(Listed([]));
      LastPageIs(l, size, n + 1);
      GatheredPages(pages, n);
      assert Gathered(l, n) == AllItems(pages);
      assert Gathered(l, n + 1) == Gathered(l, n) + [];
      assert !Failed(Fetch(l, n + 1));
      assert Gathered(l, n + 1) == AllItems(pages);
    }
  }
}
