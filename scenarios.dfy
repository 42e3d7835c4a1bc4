/**
 * The fixed scenarios of the service's unit tests, stated over the model: a list of mock users
 * with ids 1..count, named "FirstName" + id, "LastName" + id and "user" + id.
 */
module ServiceScenarios {
  import opened Wrappers
  import opened JavaText
  import opened Users
  import opened Queries
  import opened Specifications
  import opened SpecificationFactory
  import opened UserService

  function Digit(d: int): (c: char)
    requires 0 <= d < 10
    ensures '0' <= c <= '9'
  {
    ('0' as int + d) as char
  }

  /** Long.toString for a non-negative number: its decimal digits, most significant first. */
  function DecimalString(n: nat): (r: string)
    ensures |r| >= 1
    ensures forall i :: 0 <= i < |r| ==> '0' <= r[i] <= '9'
  {
    if n < 10 then [Digit(n)] else DecimalString(n / 10) + [Digit(n % 10)]
  }

  /** The mock user the tests build for one id. */
  function MockUser(id: nat): User {
    User(id,
         Some("FirstName" + DecimalString(id)),
         Some("LastName" + DecimalString(id)),
         Some("user" + DecimalString(id)))
  }

  /** createMockUsers(count): users with ids 1..count, in id order. */
  function MockUsers(count: nat): (r: seq<User>)
    ensures |r| == count
    ensures forall k :: 0 <= k < count ==> r[k] == MockUser(k + 1)
  {
    seq(count, k requires 0 <= k < count => MockUser(k + 1))
  }

  // ----- paging without filters -----

  /** A query built by `of` with no filters: filtering keeps every mock user. */
  lemma {:induction false} UnfilteredQuery(count: nat, page: int, size: int)
    requires page >= 1 && size >= 1
    ensures Of(None, None, Some(page), Some(size)) == Success(QueryFields(None, None, page, size))
    ensures GetUsers(MockUsers(count), QueryFields(None, None, page, size))
            == Paginate(MockUsers(count), page, size)
  {
    var q: UserQuery := QueryFields(None, None, page, size);
    FilterWithoutActiveFilter(MockUsers(count), q);
  }

  /** First page of 100 users in pages of 10: ids 1..10, ten pages in all. */
  lemma FirstPageScenario()
    ensures var r := GetUsers(MockUsers(100), Of(None, None, Some(1), Some(10)).value);
            r.page == 1 && r.size == 10 && r.totalItems == 100 && r.totalPages == 10
            && |r.data| == 10 && r.data[0].id == 1
  {
    UnfilteredQuery(100, 1, 10);
    var r := Paginate(MockUsers(100), 1, 10);
    assert r.totalPages == 10 by {
      CeilDivClosedForm(100, 10);
    }
    assert StartIndex(1, 10) == 0 by {
      MulIsProduct(0, 10);
    }
    assert r.data[0] == MockUsers(100)[0];
  }

  /** Second page of 100 users in pages of 10 starts at id 11. */
  lemma SecondPageScenario()
    ensures var r := GetUsers(MockUsers(100), Of(None, None, Some(2), Some(10)).value);
            r.page == 2 && r.size == 10 && r.totalItems == 100 && r.totalPages == 10
            && |r.data| == 10 && r.data[0].id == 11
  {
    UnfilteredQuery(100, 2, 10);
    var r := Paginate(MockUsers(100), 2, 10);
    assert r.totalPages == 10 by {
      CeilDivClosedForm(100, 10);
    }
    assert StartIndex(2, 10) == 10 by {
      MulIsProduct(1, 10);
    }
    assert r.data[0] == MockUsers(100)[10];
  }

  /** Last page of 100 users in pages of 10 starts at id 91. */
  lemma LastPageScenario()
    ensures var r := GetUsers(MockUsers(100), Of(None, None, Some(10), Some(10)).value);
            r.page == 10 && r.size == 10 && r.totalItems == 100 && r.totalPages == 10
            && |r.data| == 10 && r.data[0].id == 91
  {
    UnfilteredQuery(100, 10, 10);
    var r := Paginate(MockUsers(100), 10, 10);
    assert r.totalPages == 10 by {
      CeilDivClosedForm(100, 10);
    }
    assert StartIndex(10, 10) == 90 by {
      MulIsProduct(9, 10);
    }
    assert r.data[0] == MockUsers(100)[90];
  }

  /** Page 100 of 100 users in pages of 10 is empty, not an error, and still reports ten pages. */
  lemma PageBeyondTotalScenario()
    ensures var r := GetUsers(MockUsers(100), Of(None, None, Some(100), Some(10)).value);
            r.page == 100 && r.size == 10 && r.totalItems == 100 && r.totalPages == 10
            && r.data == []
  {
    UnfilteredQuery(100, 100, 10);
    var r := Paginate(MockUsers(100), 100, 10);
    assert r.totalPages == 10 by {
      CeilDivClosedForm(100, 10);
    }
    assert StartIndex(100, 10) == 990 by {
      MulIsProduct(99, 10);
    }
  }

  /** 100 users in pages of 25: four pages, the first holding 25 users. */
  lemma CustomPageSizeScenario()
    ensures var r := GetUsers(MockUsers(100), Of(None, None, Some(1), Some(25)).value);
            r.page == 1 && r.size == 25 && r.totalItems == 100 && r.totalPages == 4
            && |r.data| == 25
  {
    UnfilteredQuery(100, 1, 25);
    var r := Paginate(MockUsers(100), 1, 25);
    assert r.totalPages == 4 by {
      CeilDivClosedForm(100, 25);
    }
    assert |r.data| == 25 by {
      assert StartIndex(1, 25) == 0;
    }
  }

  /** 23 users in pages of 10: the third and last page holds three users. */
  lemma PartialLastPageScenario()
    ensures var r := GetUsers(MockUsers(23), Of(None, None, Some(3), Some(10)).value);
            r.page == 3 && r.size == 10 && r.totalItems == 23 && r.totalPages == 3
            && |r.data| == 3
  {
    UnfilteredQuery(23, 3, 10);
    var r := Paginate(MockUsers(23), 3, 10);
    assert r.totalPages == 3 by {
      CeilDivClosedForm(23, 10);
    }
    assert |r.data| == 3 by {
      MulIsProduct(2, 10);
    }
  }

  /** Page 0 or -1, size 0 or -1: `of` fails with the message the tests expect. */
  lemma InvalidQueryScenarios()
    ensures Of(None, None, Some(0), Some(10)).Failure?
    ensures Of(None, None, Some(0), Some(10)).error.Message() == "Page must be greater than 0"
    ensures Of(None, None, Some(-1), Some(10)).error.Message() == "Page must be greater than 0"
    ensures Of(None, None, Some(1), Some(0)).Failure?
    ensures Of(None, None, Some(1), Some(0)).error.Message() == "Size must be greater than 0"
    ensures Of(None, None, Some(1), Some(-1)).error.Message() == "Size must be greater than 0"
  {
  }

  // ----- filtering by name -----

  lemma LowerOfDigits(d: string)
    requires forall i :: 0 <= i < |d| ==> '0' <= d[i] <= '9'
    ensures Lower(d) == d
  {
  }

  lemma LowerPrefixed(prefix: string, lowered: string, n: nat)
    requires Lower(prefix) == lowered
    ensures Lower(prefix + DecimalString(n)) == lowered + DecimalString(n)
  {
    LowerAppend(prefix, DecimalString(n));
    LowerOfDigits(DecimalString(n));
  }

  lemma DecimalStringSizes(n: nat)
    requires 1 <= n <= 100
    ensures n < 10 ==> |DecimalString(n)| == 1
    ensures 10 <= n < 100 ==> |DecimalString(n)| == 2 && (DecimalString(n) == "50" <==> n == 50)
    ensures n == 100 ==> DecimalString(n) == "100"
  {
    if 10 <= n < 100 {
      assert DecimalString(n) == [Digit(n / 10), Digit(n % 10)];
      if DecimalString(n) == "50" {
        assert Digit(n / 10) == '5' && Digit(n % 10) == '0';
      }
    }
  }

  /** The search term "FirstName50" normalises to "firstname50". */
  lemma SearchTermOfFirstName50()
    ensures Trim("FirstName50") == "FirstName50"
    ensures Lower("FirstName50") == "firstname50"
    ensures NameSpecification(Some("FirstName50")) == NameSpec(Some("firstname50"))
  {
    assert TrimStart("FirstName50") == "FirstName50";
    assert TrimEnd("FirstName50") == "FirstName50";
  }

  lemma NotFirstName50(s: string)
    requires s == "firstname" + "100"
    ensures !Contains(s, "firstname50")
  {
    var term := "firstname50";
    assert s[1] == 'i' && s[9] == '1';
    forall i | 0 <= i <= |s| ensures !OccursAt(s, term, i) {
      if i == 0 {
        assert s[0..11][9] != term[9];
      } else if i == 1 {
        assert s[1..12][0] != term[0];
      }
    }
  }

  /** Among the mock users 1..100, only user 50 contains "firstname50" in a lowercased name. */
  lemma {:induction false} MockUserMatchesFirstName50(id: nat)
    requires 1 <= id <= 100
    ensures IsSatisfiedBy(NameSpec(Some("firstname50")), MockUser(id)) <==> id == 50
  {
    var term := "firstname50";
    var u := MockUser(id);
    var d := DecimalString(id);
    LowerPrefixed("FirstName", "firstname", id);
    LowerPrefixed("LastName", "lastname", id);
    var first, last := "firstname" + d, "lastname" + d;
    assert LowerOrEmpty(u.firstName) == first;
    assert LowerOrEmpty(u.lastName) == last;
    DecimalStringSizes(id);
    ContainsByLength(first, term);
    ContainsByLength(last, term);
    if id == 100 {
      NotFirstName50(first);
      assert last[0] != term[0];
    } else if first == term {
      assert d == first[9..] == term[9..] == "50";
    }
  }

  /** Searching the 100 mock users for "FirstName50" finds exactly one user, FirstName50. */
  lemma FilterByNameScenario()
    ensures Of(Some("FirstName50"), None, Some(1), Some(10)).Success?
    ensures var r := GetUsers(MockUsers(100), Of(Some("FirstName50"), None, Some(1), Some(10)).value);
            r.totalItems == 1 && |r.data| == 1 && r.data[0].firstName == Some("FirstName50")
  {
    var q := Of(Some("FirstName50"), None, Some(1), Some(10)).value;
    var users := MockUsers(100);
    FilterByFirstName50();
    var found := [MockUser(50)];
    assert GetUsers(users, q) == Paginate(found, 1, 10);
    var r := Paginate(found, 1, 10);
    assert r.data == found[0..1];
    MockUser50FirstName();
  }

  lemma MockUser50FirstName()
    ensures MockUser(50).firstName == Some("FirstName50")
  {
    assert DecimalString(50) == [Digit(5), Digit(0)] == "50";
    assert "FirstName" + "50" == "FirstName50";
  }

  /** The query for "FirstName50" builds a composite holding only the name specification. */
  lemma QueryForFirstName50()
    ensures Of(Some("FirstName50"), None, Some(1), Some(10)).Success?
    ensures CompositeOf(Of(Some("FirstName50"), None, Some(1), Some(10)).value)
            == AllMatch([NameSpec(Some("firstname50"))])
  {
    var q := QueryFields(Some("FirstName50"), None, 1, 10);
    assert Of(Some("FirstName50"), None, Some(1), Some(10)) == Success(q);
    assert HasNameFilter(q) by {
      assert !IsTrimmable(q.name.value[0]);
    }
    assert NameSpecification(q.name) == NameSpec(Some("firstname50")) by {
      SearchTermOfFirstName50();
    }
    assert CompositeOf(q) == AllOf(true, NameSpec(Some("firstname50")), false, UsernameSpecification(None));
  }

  /** Of the 100 mock users, the composite for "FirstName50" accepts only the one at index 49. */
  lemma OnlyUser50Matches()
    ensures forall k :: 0 <= k < 100 ==>
              (IsSatisfiedBy(AllMatch([NameSpec(Some("firstname50"))]), MockUsers(100)[k]) <==> k == 49)
  {
    forall k | 0 <= k < 100
      ensures IsSatisfiedBy(AllMatch([NameSpec(Some("firstname50"))]), MockUsers(100)[k]) <==> k == 49
    {
      MockUserMatchesFirstName50(k + 1);
    }
  }

  lemma FilterByFirstName50()
    ensures Of(Some("FirstName50"), None, Some(1), Some(10)).Success?
    ensures Filter(MockUsers(100), Of(Some("FirstName50"), None, Some(1), Some(10)).value) == [MockUser(50)]
  {
    QueryForFirstName50();
    OnlyUser50Matches();
    SelectSingleAccepted(MockUsers(100), Verdict(AllMatch([NameSpec(Some("firstname50"))])), 49);
  }
}
