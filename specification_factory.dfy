/** The factory that turns a query into one composite specification, and the list filter. */
module SpecificationFactory {
  import opened Users
  import opened Queries
  import opened Specifications

  /**
   * allMatch over the sub-specifications that are switched on, the name specification first,
   * then the username specification.
   */
  function AllOf(hasName: bool, name: UserSpecification, hasUsername: bool, username: UserSpecification)
    : (r: UserSpecification)
    requires name.NameSpec? && username.UsernameSpec?
    ensures r.AllMatch?
    ensures name in r.specs <==> hasName
    ensures username in r.specs <==> hasUsername
    ensures |r.specs| == (if hasName then 1 else 0) + (if hasUsername then 1 else 0)
    ensures forall s <- r.specs :: s == name || s == username
  {
    AllMatch((if hasName then [name] else []) + (if hasUsername then [username] else []))
  }

  /**
   * The composite specification build(query) returns: allMatch over the sub-specifications
   * the query switches on, name first, then username.
   */
  function CompositeOf(q: UserQuery): (r: UserSpecification)
    ensures r.AllMatch?
    ensures NameSpecification(q.name) in r.specs <==> HasNameFilter(q)
    ensures UsernameSpecification(q.username) in r.specs <==> HasUsernameFilter(q)
    ensures |r.specs| == (if HasNameFilter(q) then 1 else 0) + (if HasUsernameFilter(q) then 1 else 0)
    ensures forall s <- r.specs :: s == NameSpecification(q.name) || s == UsernameSpecification(q.username)
  {
    AllOf(HasNameFilter(q), NameSpecification(q.name), HasUsernameFilter(q), UsernameSpecification(q.username))
  }

  /** build(query): collect the active sub-specifications in a list, then combine them with allMatch. */
  method Build(q: UserQuery) returns (spec: UserSpecification)
    ensures spec == CompositeOf(q)
  {
    var hasName, hasUsername := HasNameFilter(q), HasUsernameFilter(q);
    var name, username := NameSpecification(q.name), UsernameSpecification(q.username);
    var specs: seq<UserSpecification> := [];
    if hasName {
      specs := specs + [name];
    }
    assert specs == if hasName then [name] else [];
    if hasUsername {
      specs := specs + [username];
    }
    spec := AllMatch(specs);
    assert spec == AllOf(hasName, name, hasUsername, username);
  }

  lemma AllOfIff(hasName: bool, name: UserSpecification, hasUsername: bool, username: UserSpecification, u: User)
    requires name.NameSpec? && username.UsernameSpec?
    ensures IsSatisfiedBy(AllOf(hasName, name, hasUsername, username), u) <==>
              (hasName ==> IsSatisfiedBy(name, u)) && (hasUsername ==> IsSatisfiedBy(username, u))
  {
    var specs := AllOf(hasName, name, hasUsername, username).specs;
    if hasName && hasUsername {
      assert specs == [name, username];
    } else if hasName {
      assert specs == [name];
    } else if hasUsername {
      assert specs == [username];
    } else {
      assert specs == [];
    }
  }

  /** build(query) holds for a user iff every active sub-specification holds for it. */
  lemma CompositeIff(q: UserQuery, u: User)
    ensures IsSatisfiedBy(CompositeOf(q), u) <==>
              (HasNameFilter(q) ==> IsSatisfiedBy(NameSpecification(q.name), u))
              && (HasUsernameFilter(q) ==> IsSatisfiedBy(UsernameSpecification(q.username), u))
  {
    AllOfIff(HasNameFilter(q), NameSpecification(q.name), HasUsernameFilter(q), UsernameSpecification(q.username), u);
  }

  /** Composing zero sub-specifications yields "always true", not "always false". */
  lemma NoActiveFilterMatchesEveryone(q: UserQuery, u: User)
    requires !HasNameFilter(q) && !HasUsernameFilter(q)
    ensures IsSatisfiedBy(CompositeOf(q), u)
  {
    CompositeIff(q, u);
  }

  /** With both filters active, matching the name alone is not enough. */
  lemma BothFiltersRequired(q: UserQuery, u: User)
    requires HasNameFilter(q) && HasUsernameFilter(q)
    requires !IsSatisfiedBy(UsernameSpecification(q.username), u)
    ensures !IsSatisfiedBy(CompositeOf(q), u)
  {
    CompositeIff(q, u);
  }

  // ----- filtering -----

  /** stream().filter(keep).toList(): the elements keep accepts, in their original order. */
  function Select<T(==, !new)>(xs: seq<T>, keep: T -> bool): (r: seq<T>)
    ensures |r| <= |xs|
    ensures forall i :: 0 <= i < |r| ==> keep(r[i])
  {
    if xs == [] then []
    else
      var rest := Select(xs[1..], keep);
      if keep(xs[0]) then [xs[0]] + rest else rest
  }

  /** Select keeps every occurrence of an accepted element and no occurrence of a rejected one. */
  lemma {:induction false} SelectCounts<T(!new)>(xs: seq<T>, keep: T -> bool)
    ensures forall x :: multiset(Select(xs, keep))[x] == if keep(x) then multiset(xs)[x] else 0
  {
    if xs != [] {
      SelectCounts(xs[1..], keep);
      assert xs == [xs[0]] + xs[1..];
    }
  }

  /** An element Select keeps is accepted and comes from the input. */
  lemma SelectMembers<T(!new)>(xs: seq<T>, keep: T -> bool)
    ensures forall x :: x in Select(xs, keep) ==> keep(x) && x in xs
  {
    var r := Select(xs, keep);
    SelectCounts(xs, keep);
    forall x | x in r ensures keep(x) && x in xs {
      assert multiset(r)[x] > 0;
    }
  }

  /** `a` is `b` with some elements left out, the rest kept in order. */
  predicate IsSubsequence<T(==)>(a: seq<T>, b: seq<T>) {
    if a == [] then true
    else if b == [] then false
    else (a[0] == b[0] && IsSubsequence(a[1..], b[1..])) || IsSubsequence(a, b[1..])
  }

  /** Select never reorders: its result is a subsequence of its input. */
  lemma {:induction false} SelectIsSubsequence<T(!new)>(xs: seq<T>, keep: T -> bool)
    ensures IsSubsequence(Select(xs, keep), xs)
  {
    if xs != [] {
      SelectIsSubsequence(xs[1..], keep);
    }
  }

  /** Select distributes over concatenation, which is what a stable selection means. */
  lemma {:induction false} SelectAppend<T(!new)>(a: seq<T>, b: seq<T>, keep: T -> bool)
    ensures Select(a + b, keep) == Select(a, keep) + Select(b, keep)
  {
    if a == [] {
      assert a + b == b;
    } else {
      assert (a + b)[0] == a[0];
      assert (a + b)[1..] == a[1..] + b;
      SelectAppend(a[1..], b, keep);
    }
  }

  /** A list whose every element is accepted passes through unchanged. */
  lemma {:induction false} SelectKeepsAllAccepted<T(!new)>(xs: seq<T>, keep: T -> bool)
    requires forall i :: 0 <= i < |xs| ==> keep(xs[i])
    ensures Select(xs, keep) == xs
  {
    if xs != [] {
      SelectKeepsAllAccepted(xs[1..], keep);
    }
  }

  /** A list none of whose elements is accepted filters to the empty list. */
  lemma {:induction false} SelectNoneAccepted<T(!new)>(xs: seq<T>, keep: T -> bool)
    requires forall i :: 0 <= i < |xs| ==> !keep(xs[i])
    ensures Select(xs, keep) == []
  {
    if xs != [] {
      SelectNoneAccepted(xs[1..], keep);
    }
  }

  /** When exactly the element at index k is accepted, the result is that one element. */
  lemma SelectSingleAccepted<T(!new)>(xs: seq<T>, keep: T -> bool, k: nat)
    requires k < |xs|
    requires forall i :: 0 <= i < |xs| ==> (keep(xs[i]) <==> i == k)
    ensures Select(xs, keep) == [xs[k]]
  {
    var before, here, after := xs[..k], xs[k..k + 1], xs[k + 1..];
    assert xs == before + (here + after);
    forall i | 0 <= i < |before| ensures !keep(before[i]) {
      assert before[i] == xs[i];
    }
    forall i | 0 <= i < |after| ensures !keep(after[i]) {
      assert after[i] == xs[k + 1 + i];
    }
    SelectNoneAccepted(before, keep);
    SelectNoneAccepted(after, keep);
    assert Select(here, keep) == here by {
      assert here[1..] == [];
    }
    SelectAppend(here, after, keep);
    SelectAppend(before, here + after, keep);
  }

  /** The method reference spec::isSatisfiedBy. */
  function Verdict(spec: UserSpecification): User -> bool {
    u => IsSatisfiedBy(spec, u)
  }

  /** The users a specification accepts, in list order. */
  function FilterBy(users: seq<User>, spec: UserSpecification): seq<User> {
    Select(users, Verdict(spec))
  }

  /** filter(users, query): the users build(query) accepts, in list order. */
  function Filter(users: seq<User>, q: UserQuery): (r: seq<User>)
    ensures |r| <= |users|
    ensures forall i :: 0 <= i < |r| ==> IsSatisfiedBy(CompositeOf(q), r[i])
  {
    FilterBy(users, CompositeOf(q))
  }

  /** Filtering keeps every copy of a user the query accepts and no copy of one it rejects. */
  lemma FilterCounts(users: seq<User>, q: UserQuery)
    ensures forall u :: multiset(Filter(users, q))[u] ==
              if IsSatisfiedBy(CompositeOf(q), u) then multiset(users)[u] else 0
  {
    SelectCounts(users, Verdict(CompositeOf(q)));
  }

  /** A user in the filtered list satisfies the query's specification and comes from the input. */
  lemma FilterMembers(users: seq<User>, q: UserQuery)
    ensures forall u :: u in Filter(users, q) ==> IsSatisfiedBy(CompositeOf(q), u) && u in users
  {
    SelectMembers(users, Verdict(CompositeOf(q)));
  }

  /** Filtering never reorders the users. */
  lemma FilterIsSubsequence(users: seq<User>, q: UserQuery)
    ensures IsSubsequence(Filter(users, q), users)
  {
    SelectIsSubsequence(users, Verdict(CompositeOf(q)));
  }

  /** Filtering a concatenation filters each part. */
  lemma FilterAppend(a: seq<User>, b: seq<User>, q: UserQuery)
    ensures Filter(a + b, q) == Filter(a, q) + Filter(b, q)
  {
    SelectAppend(a, b, Verdict(CompositeOf(q)));
  }

  /** Filtering an already filtered list with the same query changes nothing. */
  lemma FilterIdempotent(users: seq<User>, q: UserQuery)
    ensures Filter(Filter(users, q), q) == Filter(users, q)
  {
    SelectKeepsAllAccepted(Filter(users, q), Verdict(CompositeOf(q)));
  }

  /** With no active filter, filtering returns its input. */
  lemma FilterWithoutActiveFilter(users: seq<User>, q: UserQuery)
    requires !HasNameFilter(q) && !HasUsernameFilter(q)
    ensures Filter(users, q) == users
  {
    forall i | 0 <= i < |users| ensures IsSatisfiedBy(CompositeOf(q), users[i]) {
      NoActiveFilterMatchesEveryone(q, users[i]);
    }
    SelectKeepsAllAccepted(users, Verdict(CompositeOf(q)));
  }
}
