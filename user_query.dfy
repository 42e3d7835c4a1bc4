/** The validated query record: text filters plus page and size. */
module Queries {
  import opened Wrappers
  import opened JavaText

  /** The record's components before the compact constructor has checked them. */
  datatype QueryFields = QueryFields(
    name: Option<string>,
    username: Option<string>,
    page: int,
    size: int)

  /** A query that exists has passed the constructor: page and size are at least 1. */
  type UserQuery = q: QueryFields | q.page >= 1 && q.size >= 1
    witness QueryFields(None, None, 1, 1)

  /** The IllegalArgumentException the compact constructor throws. */
  datatype QueryError = PageNotPositive | SizeNotPositive {
    function Message(): string {
      match this
      case PageNotPositive => "Page must be greater than 0"
      case SizeNotPositive => "Size must be greater than 0"
    }
  }

  const DefaultPage := 1
  const DefaultSize := 10

  /** The compact constructor: the page is checked first, then the size. */
  function NewUserQuery(name: Option<string>, username: Option<string>, page: int, size: int)
    : (r: Result<UserQuery, QueryError>)
    ensures r.Success? <==> page >= 1 && size >= 1
    ensures r.Success? ==> r.value == QueryFields(name, username, page, size)
    ensures page <= 0 ==> r == Failure(PageNotPositive)
    ensures page >= 1 && size <= 0 ==> r == Failure(SizeNotPositive)
  {
    if page <= 0 then Failure(PageNotPositive)
    else if size <= 0 then Failure(SizeNotPositive)
    else Success(QueryFields(name, username, page, size))
  }

  /** UserQuery.of: an absent page becomes 1 and an absent size 10; the filters pass through. */
  function Of(name: Option<string>, username: Option<string>, page: Option<int>, size: Option<int>)
    : (r: Result<UserQuery, QueryError>)
    ensures page.None? && size.None? ==> r.Success? && r.value.page == 1 && r.value.size == 10
    ensures r.Success? <==> (page.None? || page.value >= 1) && (size.None? || size.value >= 1)
    ensures r.Success? ==> r.value.name == name && r.value.username == username
    ensures r.Success? && page.Some? ==> r.value.page == page.value
    ensures r.Success? && size.Some? ==> r.value.size == size.value
    ensures r.Success? && page.None? ==> r.value.page == DefaultPage
    ensures r.Success? && size.None? ==> r.value.size == DefaultSize
    ensures page.Some? && page.value <= 0 ==> r.Failure? && r.error.Message() == "Page must be greater than 0"
    ensures (page.None? || page.value >= 1) && size.Some? && size.value <= 0 ==>
              r.Failure? && r.error.Message() == "Size must be greater than 0"
  {
    NewUserQuery(name, username, page.GetOr(DefaultPage), size.GetOr(DefaultSize))
  }

  /** A text filter is active when present and not blank after trim(). */
  predicate IsActiveFilter(text: Option<string>) {
    text.Some? && Trim(text.value) != []
  }

  /** An optional filter is active exactly when it has a character above U+0020. */
  lemma ActiveFilterIff(text: Option<string>)
    ensures IsActiveFilter(text) <==>
              text.Some? && exists i :: 0 <= i < |text.value| && !IsTrimmable(text.value[i])
  {
    if text.Some? {
      TrimEmptyIff(text.value);
    }
  }

  function HasNameFilter(q: UserQuery): (r: bool)
    ensures r <==> q.name.Some? && exists i :: 0 <= i < |q.name.value| && !IsTrimmable(q.name.value[i])
  {
    ActiveFilterIff(q.name);
    IsActiveFilter(q.name)
  }

  function HasUsernameFilter(q: UserQuery): (r: bool)
    ensures r <==> q.username.Some? && exists i :: 0 <= i < |q.username.value| && !IsTrimmable(q.username.value[i])
  {
    ActiveFilterIff(q.username);
    IsActiveFilter(q.username)
  }

  /** normalizedName(): the trimmed, lowercased name, or null when the name filter is inactive. */
  function NormalizedName(q: UserQuery): (r: Option<string>)
    ensures r.None? <==> !HasNameFilter(q)
    ensures r.Some? ==> r.value == Lower(Trim(q.name.value))
    ensures r.Some? ==> r.value != [] && !IsTrimmable(r.value[0]) && !IsTrimmable(r.value[|r.value| - 1])
    ensures r.Some? ==> forall i :: 0 <= i < |r.value| ==> !('A' <= r.value[i] <= 'Z')
  {
    if HasNameFilter(q) then Some(Lower(Trim(q.name.value))) else None
  }
}
