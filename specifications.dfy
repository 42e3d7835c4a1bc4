/**
 * User specifications: the name and username predicates and the AND combinator.
 * A specification is a value; IsSatisfiedBy is its isSatisfiedBy(user).
 */
module Specifications {
  import opened Wrappers
  import opened JavaText
  import opened Users

  datatype UserSpecification =
    /** NameSpecification with its stored (already normalised) search term. */
    | NameSpec(searchTerm: Option<string>)
    /** UsernameSpecification with its stored (already normalised) search term. */
    | UsernameSpec(searchTerm: Option<string>)
    /** The lambda returned by `left.and(right)`. */
    | AndSpec(left: UserSpecification, right: UserSpecification)
    /** The lambda `specs.stream().allMatch(...)` built by the factory. */
    | AllMatch(specs: seq<UserSpecification>)

  /** A null attribute compares as the empty string; otherwise it is lowercased. */
  function LowerOrEmpty(attr: Option<string>): (r: string)
    ensures attr.None? ==> r == []
    ensures attr.Some? ==> |r| == |attr.value|
    ensures attr.Some? ==> r == Lower(attr.value)
  {
    if attr.Some? then Lower(attr.value) else []
  }

  /** The search term a specification's constructor stores: null stays null, otherwise trim and lowercase. */
  function Normalize(text: Option<string>): (r: Option<string>)
    ensures r.None? <==> text.None?
    ensures r.Some? ==> r.value == Lower(Trim(text.value))
    ensures r.Some? ==> forall i :: 0 <= i < |r.value| ==> !('A' <= r.value[i] <= 'Z')
    ensures r.Some? && r.value != [] ==> !IsTrimmable(r.value[0]) && !IsTrimmable(r.value[|r.value| - 1])
  {
    if text.Some? then Some(Lower(Trim(text.value))) else None
  }

  /** An absent or empty search term switches a specification off. */
  predicate IsIgnored(term: Option<string>) {
    term.None? || term.value == []
  }

  /** The NameSpecification constructor. */
  function NameSpecification(name: Option<string>): (r: UserSpecification)
    ensures r.NameSpec? && r.searchTerm == Normalize(name)
  {
    NameSpec(Normalize(name))
  }

  /** The UsernameSpecification constructor. */
  function UsernameSpecification(username: Option<string>): (r: UserSpecification)
    ensures r.UsernameSpec? && r.searchTerm == Normalize(username)
  {
    UsernameSpec(Normalize(username))
  }

  predicate IsSatisfiedBy(spec: UserSpecification, u: User)
    decreases spec
  {
    match spec
    case NameSpec(term) =>
      IsIgnored(term)
      || Contains(LowerOrEmpty(u.firstName), term.value)
      || Contains(LowerOrEmpty(u.lastName), term.value)
    case UsernameSpec(term) =>
      IsIgnored(term) || Contains(LowerOrEmpty(u.username), term.value)
    case AndSpec(left, right) =>
      IsSatisfiedBy(left, u) && IsSatisfiedBy(right, u)
    case AllMatch(specs) =>
      forall s <- specs :: IsSatisfiedBy(s, u)
  }

  /** UserSpecification.and: holds exactly when both operands hold. */
  function And(a: UserSpecification, b: UserSpecification): (r: UserSpecification)
    ensures forall u :: IsSatisfiedBy(r, u) <==> IsSatisfiedBy(a, u) && IsSatisfiedBy(b, u)
  {
    AndSpec(a, b)
  }

  /** The specification that every user satisfies: allMatch over no specifications. */
  const AlwaysTrue: UserSpecification := AllMatch([])

  // ----- NameSpecification -----

  lemma NameIgnoredMatchesEveryone(term: Option<string>, u: User)
    requires IsIgnored(term)
    ensures IsSatisfiedBy(NameSpec(term), u)
  {
  }

  /** With a non-empty term, a user matches iff the term occurs in the lowercased first or last name. */
  lemma NameMatchIff(term: string, u: User)
    requires term != []
    ensures IsSatisfiedBy(NameSpec(Some(term)), u) <==>
              (exists i :: OccursAt(LowerOrEmpty(u.firstName), term, i))
              || (exists i :: OccursAt(LowerOrEmpty(u.lastName), term, i))
  {
  }

  /** A user whose first and last names are both null never matches a non-empty term. */
  lemma NullNamesNeverMatch(term: string, u: User)
    requires term != [] && u.firstName.None? && u.lastName.None?
    ensures !IsSatisfiedBy(NameSpec(Some(term)), u)
  {
    ContainsByLength([], term);
  }

  /**
   * Padding the name with whitespace or changing the case of its letters does not change
   * which users the resulting NameSpecification accepts.
   */
  lemma NameVerdictIgnoresPaddingAndCase(pre: string, name: string, post: string, other: string, u: User)
    requires AllTrimmable(pre) && AllTrimmable(post)
    requires Lower(name) == Lower(other)
    ensures IsSatisfiedBy(NameSpecification(Some(pre + name + post)), u)
            == IsSatisfiedBy(NameSpecification(Some(other)), u)
  {
    TrimIgnoresPadding(pre, name, post);
    TrimLowerCommute(name);
    TrimLowerCommute(other);
  }

  // ----- UsernameSpecification -----

  lemma UsernameIgnoredMatchesEveryone(term: Option<string>, u: User)
    requires IsIgnored(term)
    ensures IsSatisfiedBy(UsernameSpec(term), u)
  {
  }

  /** With a non-empty term, a user matches iff the term occurs in the lowercased username. */
  lemma UsernameMatchIff(term: string, u: User)
    requires term != []
    ensures IsSatisfiedBy(UsernameSpec(Some(term)), u) <==>
              exists i :: OccursAt(LowerOrEmpty(u.username), term, i)
  {
  }

  lemma NullUsernameNeverMatches(term: string, u: User)
    requires term != [] && u.username.None?
    ensures !IsSatisfiedBy(UsernameSpec(Some(term)), u)
  {
    ContainsByLength([], term);
  }

  /** The username verdict reads the username only. */
  lemma UsernameVerdictReadsOnlyUsername(term: Option<string>, u: User, v: User)
    requires u.username == v.username
    ensures IsSatisfiedBy(UsernameSpec(term), u) == IsSatisfiedBy(UsernameSpec(term), v)
  {
  }

  // ----- and -----

  lemma AndFalseIfEitherFalse(a: UserSpecification, b: UserSpecification, u: User)
    requires !IsSatisfiedBy(a, u) || !IsSatisfiedBy(b, u)
    ensures !IsSatisfiedBy(And(a, b), u)
  {
  }

  lemma AndWithAlwaysTrue(a: UserSpecification, u: User)
    ensures IsSatisfiedBy(And(a, AlwaysTrue), u) == IsSatisfiedBy(a, u)
    ensures IsSatisfiedBy(And(AlwaysTrue, a), u) == IsSatisfiedBy(a, u)
  {
  }

  lemma AndAssociative(a: UserSpecification, b: UserSpecification, c: UserSpecification, u: User)
    ensures IsSatisfiedBy(And(And(a, b), c), u) == IsSatisfiedBy(And(a, And(b, c)), u)
  {
  }
}
