/** The query pipeline of UserServiceImpl.getUsers: filter the cached users, then cut one page. */
module UserService {
  import opened Wrappers
  import opened Users
  import opened Queries
  import opened Specifications
  import opened SpecificationFactory

  /** The response envelope. */
  datatype PaginationResponse<T> = PaginationResponse(
    page: int,
    size: int,
    totalItems: int,
    totalPages: int,
    data: seq<T>)

  function Min(a: int, b: int): (r: int)
    ensures r <= a && r <= b && (r == a || r == b)
  {
    if a <= b then a else b
  }

  /**
   * a * b as repeated addition. The pagination arithmetic multiplies two variables; writing the
   * product through Mul keeps the solver's nonlinear arithmetic out of every proof that merely
   * mentions a page, and MulIsProduct ties Mul to `*`.
   */
  function Mul(a: nat, b: nat): nat {
    if a == 0 then 0 else Mul(a - 1, b) + b
  }

  lemma {:induction false} MulIsProduct(a: nat, b: nat)
    ensures Mul(a, b) == a * b
  {
    if a > 0 {
      MulIsProduct(a - 1, b);
    }
  }

  lemma {:induction false} MulMonotone(a: nat, b: nat, d: nat)
    requires a <= b
    ensures Mul(a, d) <= Mul(b, d)
    decreases b - a
  {
    if a < b {
      MulMonotone(a + 1, b, d);
    }
  }

  /**
   * totalPages = ceil(n / d): the least r with n <= r * d. For a non-negative n and a positive d
   * this is exactly what `(int) Math.ceil((double) n / d)` computes for Java ints.
   */
  function CeilDiv(n: nat, d: nat): (r: nat)
    requires d >= 1
    ensures Mul(r, d) - d < n <= Mul(r, d)
    decreases n
  {
    if n == 0 then 0 else 1 + CeilDiv(if n <= d then 0 else n - d, d)
  }

  /** Integer division is the unique quotient: r * d <= m < r * d + d determines m / d. */
  lemma DivIsUnique(m: int, d: int, r: int)
    requires d >= 1 && r * d <= m < r * d + d
    ensures m / d == r
  {
    var q := m / d;
    assert m == q * d + m % d;
    if q > r {
      ProductMonotone(r + 1, q, d);
    } else if q < r {
      ProductMonotone(q + 1, r, d);
    }
  }

  lemma ProductMonotone(a: int, b: int, d: nat)
    requires a <= b
    ensures a * d <= b * d
  {
  }

  /** The recursive ceiling agrees with the closed form (n + d - 1) / d. */
  lemma CeilDivClosedForm(n: nat, d: nat)
    requires d >= 1
    ensures CeilDiv(n, d) == (n + d - 1) / d
  {
    var r := CeilDiv(n, d);
    MulIsProduct(r, d);
    DivIsUnique(n + d - 1, d, r);
  }

  /** startIndex = (page - 1) * size, which is never negative for a valid query. */
  function StartIndex(page: int, size: int): (r: nat)
    requires page >= 1 && size >= 1
    ensures r == 0 <==> page == 1
    ensures page > 1 ==> r >= size
  {
    Mul(page - 1, size)
  }

  /** The repeated-addition startIndex is the product (page - 1) * size of the source. */
  lemma StartIndexIsProduct(page: int, size: int)
    requires page >= 1 && size >= 1
    ensures StartIndex(page, size) == (page - 1) * size
  {
    MulIsProduct(page - 1, size);
  }

  /**
   * The pagination arithmetic of getUsers applied to the filtered list: totalPages, startIndex,
   * endIndex and the page slice, with page and size echoed back.
   */
  function Paginate<T>(items: seq<T>, page: int, size: int): (r: PaginationResponse<T>)
    requires page >= 1 && size >= 1
    ensures r.page == page && r.size == size
    ensures r.totalItems == |items|
    ensures r.totalPages == CeilDiv(r.totalItems, size)
    ensures StartIndex(page, size) >= |items| ==> r.data == []
    ensures StartIndex(page, size) < |items| ==>
              |r.data| == Min(size, |items| - StartIndex(page, size))
              && r.data == items[StartIndex(page, size)..StartIndex(page, size) + |r.data|]
    ensures |r.data| <= size
  {
    var totalItems := |items|;
    var totalPages := CeilDiv(totalItems, size);
    var startIndex := StartIndex(page, size);
    var endIndex := Min(startIndex + size, totalItems);
    var pageData := if startIndex >= totalItems then [] else items[startIndex..endIndex];
    PaginationResponse(page, size, totalItems, totalPages, pageData)
  }

  /** Every user on a page comes from the list being paginated. */
  lemma PageDataIsDrawnFrom<T>(items: seq<T>, page: int, size: int)
    requires page >= 1 && size >= 1
    ensures forall x :: x in Paginate(items, page, size).data ==> x in items
  {
    var start := StartIndex(page, size);
    var data := Paginate(items, page, size).data;
    if start < |items| {
      assert data == items[start..start + |data|];
      forall x | x in data ensures x in items {
        var i :| 0 <= i < |data| && data[i] == x;
        assert items[start + i] == x;
      }
    }
  }

  /** getUsers(query), with the cached user list passed in: filter, then paginate. */
  function GetUsers(allUsers: seq<User>, q: UserQuery): (r: PaginationResponse<User>)
    ensures r.page == q.page && r.size == q.size
    ensures r.totalItems == |Filter(allUsers, q)| <= |allUsers|
    ensures r.totalPages == CeilDiv(r.totalItems, q.size)
    ensures |r.data| <= q.size
    ensures forall i :: 0 <= i < |r.data| ==> IsSatisfiedBy(CompositeOf(q), r.data[i]) && r.data[i] in allUsers
  {
    var filtered := Filter(allUsers, q);
    var r := Paginate(filtered, q.page, q.size);
    PageDataIsDrawnFrom(filtered, q.page, q.size);
    FilterMembers(allUsers, q);
    assert forall i :: 0 <= i < |r.data| ==> r.data[i] in r.data;
    r
  }

  /** getUsers is the pagination arithmetic applied to the filtered list. */
  lemma GetUsersPaginatesFiltered(allUsers: seq<User>, q: UserQuery)
    ensures GetUsers(allUsers, q) == Paginate(Filter(allUsers, q), q.page, q.size)
  {
  }

  /** A page has data exactly when its number is at most totalPages; beyond that it is empty, not an error. */
  lemma DataNonEmptyIff<T>(items: seq<T>, page: int, size: int)
    requires page >= 1 && size >= 1
    ensures Paginate(items, page, size).data != [] <==> page <= Paginate(items, page, size).totalPages
  {
    var r := Paginate(items, page, size);
    if page <= r.totalPages {
      MulMonotone(page - 1, r.totalPages - 1, size);
    } else {
      MulMonotone(r.totalPages, page - 1, size);
    }
  }

  /** Zero items give zero pages, not one. */
  lemma NoItemsNoPages<T>(items: seq<T>, page: int, size: int)
    requires page >= 1 && size >= 1
    requires items == []
    ensures Paginate(items, page, size).totalPages == 0
    ensures Paginate(items, page, size).data == []
  {
  }

  /** Without an active filter the totals count the whole dataset. */
  lemma UnfilteredTotals(allUsers: seq<User>, q: UserQuery)
    requires !HasNameFilter(q) && !HasUsernameFilter(q)
    ensures GetUsers(allUsers, q).totalItems == |allUsers|
    ensures GetUsers(allUsers, q).totalPages == CeilDiv(|allUsers|, q.size)
  {
    FilterWithoutActiveFilter(allUsers, q);
  }

  /** A sequence of pages, one after the other. */
  function Concat<T>(pages: seq<seq<T>>): seq<T> {
    if pages == [] then [] else Concat(pages[..|pages| - 1]) + pages[|pages| - 1]
  }

  /** The data of pages 1..n of a list. */
  function Pages<T>(items: seq<T>, size: int, n: nat): (r: seq<seq<T>>)
    requires size >= 1
    ensures |r| == n
  {
    seq(n, k requires 0 <= k < n => Paginate(items, k + 1, size).data)
  }

  /** The data of pages 1..n of a list, one after the other. */
  function PagesUpTo<T>(items: seq<T>, size: int, n: nat): seq<T>
    requires size >= 1
  {
    Concat(Pages(items, size, n))
  }

  /** Pages 1..n are pages 1..n - 1 followed by page n. */
  lemma PagesUpToStep<T>(items: seq<T>, size: int, n: nat)
    requires size >= 1 && n >= 1
    ensures PagesUpTo(items, size, n) == PagesUpTo(items, size, n - 1) + Paginate(items, n, size).data
  {
    var pages, shorter := Pages(items, size, n), Pages(items, size, n - 1);
    assert pages[..n - 1] == shorter by {
      forall k | 0 <= k < n - 1 ensures pages[k] == shorter[k] {
      }
    }
  }

  /** A non-empty page n is the slice from its start index to the next page's start index or the end. */
  lemma PageIsSlice<T>(items: seq<T>, size: int, n: nat)
    requires size >= 1 && n >= 1
    requires StartIndex(n, size) < |items|
    ensures StartIndex(n, size) <= Min(StartIndex(n + 1, size), |items|) <= |items|
    ensures Paginate(items, n, size).data
            == items[StartIndex(n, size)..Min(StartIndex(n + 1, size), |items|)]
  {
    assert StartIndex(n + 1, size) == StartIndex(n, size) + size;
  }

  /** Pages 1..n, when page n is not empty, are the list up to page n's end index. */
  lemma {:induction false} PagesUpToPrefix<T>(items: seq<T>, size: int, n: nat)
    requires size >= 1 && n >= 1
    requires StartIndex(n, size) < |items|
    ensures PagesUpTo(items, size, n) == items[..Min(StartIndex(n + 1, size), |items|)]
  {
    var start := StartIndex(n, size);
    var stop := Min(StartIndex(n + 1, size), |items|);
    PagesUpToStep(items, size, n);
    PageIsSlice(items, size, n);
    if n > 1 {
      MulMonotone(n - 2, n - 1, size);
      PagesUpToPrefix(items, size, n - 1);
    }
    assert PagesUpTo(items, size, n - 1) == items[..start];
    JoinSlices(items, start, stop);
  }

  lemma JoinSlices<T>(items: seq<T>, start: nat, stop: nat)
    requires start <= stop <= |items|
    ensures items[..start] + items[start..stop] == items[..stop]
  {
  }

  /** Concatenating the data of pages 1..totalPages reproduces the list exactly. */
  lemma PagesReassemble<T>(items: seq<T>, size: int)
    requires size >= 1
    ensures PagesUpTo(items, size, Paginate(items, 1, size).totalPages) == items
  {
    var n := Paginate(items, 1, size).totalPages;
    if n == 0 {
      assert items == [];
    } else {
      PagesUpToPrefix(items, size, n);
      assert items[..|items|] == items;
    }
  }

  /** The filtered list does not depend on the page number. */
  lemma FilterIgnoresPage(allUsers: seq<User>, q: UserQuery, p: int)
    requires p >= 1
    ensures Filter(allUsers, q.(page := p)) == Filter(allUsers, q)
  {
    var qp: UserQuery := q.(page := p);
    assert HasNameFilter(qp) == HasNameFilter(q);
    assert HasUsernameFilter(qp) == HasUsernameFilter(q);
    assert CompositeOf(qp) == CompositeOf(q);
  }

  /** The data getUsers returns for pages 1..n of a query's filters and size. */
  function Responses(allUsers: seq<User>, q: UserQuery, n: nat): (r: seq<seq<User>>)
    ensures |r| == n
  {
    seq(n, k requires 0 <= k < n => GetUsers(allUsers, q.(page := k + 1)).data)
  }

  /** The data getUsers returns for pages 1..n, one after the other. */
  function ResponsesUpTo(allUsers: seq<User>, q: UserQuery, n: nat): seq<User> {
    Concat(Responses(allUsers, q, n))
  }

  /** The response for page n carries page n of the filtered list. */
  lemma ResponseIsPage(allUsers: seq<User>, q: UserQuery, n: nat)
    requires n >= 1
    ensures GetUsers(allUsers, q.(page := n)).data == Paginate(Filter(allUsers, q), n, q.size).data
  {
    FilterIgnoresPage(allUsers, q, n);
    GetUsersPaginatesFiltered(allUsers, q.(page := n));
  }

  /** The responses to pages 1..n carry pages 1..n of the filtered list. */
  lemma ResponsesArePages(allUsers: seq<User>, q: UserQuery, n: nat)
    ensures ResponsesUpTo(allUsers, q, n) == PagesUpTo(Filter(allUsers, q), q.size, n)
  {
    var responses := Responses(allUsers, q, n);
    var pages := Pages(Filter(allUsers, q), q.size, n);
    forall k | 0 <= k < n ensures responses[k] == pages[k] {
      ResponseIsPage(allUsers, q, k + 1);
    }
    assert responses == pages;
  }

  /** Requesting pages 1..totalPages in order returns every filtered user once, in order. */
  lemma ResponsesReassembleFiltered(allUsers: seq<User>, q: UserQuery)
    ensures ResponsesUpTo(allUsers, q, GetUsers(allUsers, q).totalPages) == Filter(allUsers, q)
  {
    var filtered := Filter(allUsers, q);
    ResponsesArePages(allUsers, q, GetUsers(allUsers, q).totalPages);
    assert GetUsers(allUsers, q).totalPages == Paginate(filtered, 1, q.size).totalPages;
    PagesReassemble(filtered, q.size);
  }

  // ----- the same computation in Java's 32-bit int arithmetic -----

  const IntMin: int := -0x8000_0000
  const IntMax: int := 0x7fff_ffff

  predicate IsInt32(x: int) {
    IntMin <= x <= IntMax
  }

  /** Two's-complement wrap-around of a Java int operation. */
  function Wrap32(x: int): (r: int)
    ensures IsInt32(r)
    ensures (x - r) % 0x1_0000_0000 == 0
    ensures IsInt32(x) ==> r == x
    ensures IntMax < x <= IntMax + 0x1_0000_0000 ==> r == x - 0x1_0000_0000
  {
    (x - IntMin) % 0x1_0000_0000 + IntMin
  }

  /**
   * The exceptions subList throws on bad bounds: IndexOutOfBoundsException for a negative
   * fromIndex, IllegalArgumentException for a fromIndex above toIndex.
   */
  datatype ServiceError =
    | IndexOutOfBounds(fromIndex: int)
    | IllegalArgument(fromIndex: int, toIndex: int)

  /** The pagination arithmetic of getUsers exactly as written, with startIndex and endIndex in int. */
  function PaginateInt32<T>(items: seq<T>, page: int, size: int): (r: Result<PaginationResponse<T>, ServiceError>)
    requires 1 <= page <= IntMax && 1 <= size <= IntMax && |items| <= IntMax
    ensures r.Success? ==> r.value.page == page && r.value.size == size && r.value.totalItems == |items|
    ensures r.Success? ==> |r.value.data| <= size
    ensures r.Success? ==> r.value.totalPages == CeilDiv(|items|, size)
    ensures var start := Wrap32(StartIndex(page, size));
            r.Failure? <==> start < 0 || (start < |items| && start + size > IntMax)
    ensures var start := Wrap32(StartIndex(page, size));
            r.Success? ==> r.value.data == if start >= |items| then [] else items[start..Min(start + size, |items|)]
    ensures var start := Wrap32(StartIndex(page, size));
            r.Failure? && start < 0 ==> r.error == IndexOutOfBounds(start)
    ensures var start := Wrap32(StartIndex(page, size));
            r.Failure? && start >= 0 ==> r.error == IllegalArgument(start, Wrap32(start + size))
  {
    var totalItems := |items|;
    var totalPages := CeilDiv(totalItems, size);
    var startIndex := Wrap32(StartIndex(page, size));
    var endIndex := Min(Wrap32(startIndex + size), totalItems);
    if startIndex >= totalItems then
      Success(PaginationResponse(page, size, totalItems, totalPages, []))
    else if startIndex < 0 then
      Failure(IndexOutOfBounds(startIndex))
    else if startIndex > endIndex then
      Failure(IllegalArgument(startIndex, endIndex))
    else
      Success(PaginationResponse(page, size, totalItems, totalPages, items[startIndex..endIndex]))
  }

  /** Whenever the page's end index fits in an int, the 32-bit computation is the exact one. */
  lemma Int32AgreesWithoutOverflow<T>(items: seq<T>, page: int, size: int)
    requires 1 <= page <= IntMax && 1 <= size <= IntMax && |items| <= IntMax
    requires StartIndex(page + 1, size) <= IntMax
    ensures PaginateInt32(items, page, size) == Success(Paginate(items, page, size))
  {
    assert StartIndex(page + 1, size) == StartIndex(page, size) + size;
  }

  /**
   * Page 1073741825 of size 4: (page - 1) * size is 2^32, which wraps to 0, so the response
   * carries the first four users although the page is far beyond totalPages.
   */
  lemma StartIndexWrapsToFirstPage<T>(items: seq<T>)
    requires 4 <= |items| <= IntMax
    ensures PaginateInt32(items, 1073741825, 4).Success?
    ensures PaginateInt32(items, 1073741825, 4).value.data == items[..4]
    ensures 1073741825 > PaginateInt32(items, 1073741825, 4).value.totalPages
    ensures Paginate(items, 1073741825, 4).data == []
  {
    MulIsProduct(1073741824, 4);
    assert Wrap32(StartIndex(1073741825, 4)) == 0;
    DataNonEmptyIff(items, 1073741825, 4);
  }

  /**
   * Page 1073741825 of size 2: (page - 1) * size is 2^31, which wraps to a negative start index,
   * and subList throws.
   */
  lemma StartIndexWrapsNegative<T>(items: seq<T>)
    requires |items| <= IntMax
    ensures PaginateInt32(items, 1073741825, 2) == Failure(IndexOutOfBounds(IntMin))
  {
    MulIsProduct(1073741824, 2);
    assert Wrap32(StartIndex(1073741825, 2)) == IntMin;
  }
}
