/**
 * The predicate engine: the free-text search ANDed with the four per-field filters,
 * and the `filtered` list it selects from the users.
 */
module Query {
  import opened Text
  import opened Records
  import opened Seqs

  /** One filter string per field; an empty string imposes no constraint on its field. */
  datatype Filters = Filters(firstName: String, lastName: String, email: String, department: String)

  /** The filters the page starts with, and what the filter editor's reset produces. */
  const NoFilters: Filters := Filters("", "", "", "")

  /**
   * The search half of the predicate: the trimmed, lower-cased query is empty, or it occurs in
   * the decimal text of the id or in one of the four lower-cased text fields.
   */
  predicate SearchMatches(u: User, search: String) {
    var q := Lower(Trim(search));
    || q == []
    || Includes(DecimalText(u.id), q)
    || Includes(Lower(u.firstName), q)
    || Includes(Lower(u.lastName), q)
    || Includes(Lower(u.email), q)
    || Includes(Lower(u.department), q)
  }

  /** One filter: empty, or a case-insensitive substring of the field (the filter is not trimmed). */
  predicate FieldMatches(value: String, filter: String) {
    filter == [] || Includes(Lower(value), Lower(filter))
  }

  /** The filter half of the predicate: every field passes its filter. */
  predicate FiltersMatch(u: User, f: Filters) {
    && FieldMatches(u.firstName, f.firstName)
    && FieldMatches(u.lastName, f.lastName)
    && FieldMatches(u.email, f.email)
    && FieldMatches(u.department, f.department)
  }

  predicate Matches(u: User, search: String, f: Filters) {
    SearchMatches(u, search) && FiltersMatch(u, f)
  }

  /** Every record occurs in `r` as often as in `users` when it matches, and not at all otherwise. */
  ghost predicate MatchCounts(r: seq<User>, users: seq<User>, search: String, f: Filters) {
    forall u :: multiset(r)[u] == if Matches(u, search, f) then multiset(users)[u] else 0
  }

  /**
   * The `filtered` derivation: the users that match, in their original order, each as often
   * as it occurs among the users.
   */
  function Filtered(users: seq<User>, search: String, f: Filters): (r: seq<User>)
    ensures IsSubsequence(r, users)
    ensures forall u :: multiset(r)[u] == if Matches(u, search, f) then multiset(users)[u] else 0
    ensures forall i | 0 <= i < |r| :: Matches(r[i], search, f)
  {
    var r := Keep(users, u => Matches(u, search, f));
    assert forall i | 0 <= i < |r| :: Matches(r[i], search, f) by {
      forall i | 0 <= i < |r| ensures Matches(r[i], search, f) {
        assert multiset(r)[r[i]] > 0;
      }
    }
    r
  }

  /** A query that is blank after trimming matches every record. */
  lemma BlankSearchMatchesAll(u: User, search: String)
    requires IsBlank(search)
    ensures SearchMatches(u, search)
  {
  }

  /** A blank search with no filters leaves the users exactly as they are. */
  lemma NoConstraintKeepsAll(users: seq<User>, search: String)
    requires IsBlank(search)
    ensures Filtered(users, search, NoFilters) == users
  {
    KeepAll(users, u => Matches(u, search, NoFilters));
  }

  /** Filtering an already filtered list again with the same query and filters changes nothing. */
  lemma FilteredIdempotent(users: seq<User>, search: String, f: Filters)
    ensures Filtered(Filtered(users, search, f), search, f) == Filtered(users, search, f)
  {
    var r := Filtered(users, search, f);
    KeepAll(r, u => Matches(u, search, f));
  }

  /** Searching for the decimal text of a record's own id finds that record. */
  lemma SearchFindsOwnId(u: User)
    ensures SearchMatches(u, DecimalText(u.id))
  {
    DecimalTextIsLowerTrimmed(u.id);
    IncludesSelf(DecimalText(u.id));
  }

  lemma LowerCharKeepsSpace(c: char)
    ensures IsSpace(LowerChar(c)) == IsSpace(c)
    ensures LowerChar(LowerChar(c)) == LowerChar(c)
  {
  }

  lemma {:induction false} TrimStartLower(s: String)
    ensures TrimStart(Lower(s)) == Lower(TrimStart(s))
    decreases |s|
  {
    if s != [] {
      var l := Lower(s);
      assert l[0] == LowerChar(s[0]);
      LowerCharKeepsSpace(s[0]);
      if IsSpace(s[0]) {
        assert l[1..] == Lower(s[1..]);
        TrimStartLower(s[1..]);
      }
    }
  }

  lemma {:induction false} TrimEndLower(s: String)
    ensures TrimEnd(Lower(s)) == Lower(TrimEnd(s))
    decreases |s|
  {
    if s != [] {
      LowerCharKeepsSpace(s[|s| - 1]);
      assert Lower(s)[..|s| - 1] == Lower(s[..|s| - 1]);
      TrimEndLower(s[..|s| - 1]);
    }
  }

  /** Lower-casing commutes with trimming and is idempotent. */
  lemma TrimLower(s: String)
    ensures Trim(Lower(s)) == Lower(Trim(s))
    ensures Lower(Lower(s)) == Lower(s)
  {
    TrimStartLower(s);
    TrimEndLower(TrimStart(s));
    LowerIdempotent(s);
  }

  lemma LowerIdempotent(s: String)
    ensures Lower(Lower(s)) == Lower(s)
  {
    forall i | 0 <= i < |s| ensures Lower(Lower(s))[i] == Lower(s)[i] {
      LowerCharKeepsSpace(s[i]);
    }
  }

  /** The filters with every value lower-cased. */
  function LowerFilters(f: Filters): Filters {
    Filters(Lower(f.firstName), Lower(f.lastName), Lower(f.email), Lower(f.department))
  }

  lemma SearchIgnoresCase(u: User, search: String)
    ensures SearchMatches(u, Lower(search)) == SearchMatches(u, search)
  {
    TrimLower(search);
    TrimLower(Trim(search));
    assert Lower(Trim(Lower(search))) == Lower(Trim(search));
  }

  lemma FieldIgnoresCase(value: String, filter: String)
    ensures FieldMatches(value, Lower(filter)) == FieldMatches(value, filter)
  {
    TrimLower(filter);
  }

  /** Search and filters are case-insensitive: lower-casing the query and filters changes no match. */
  lemma MatchesIgnoresCase(u: User, search: String, f: Filters)
    ensures Matches(u, Lower(search), LowerFilters(f)) == Matches(u, search, f)
  {
    SearchIgnoresCase(u, search);
    FieldIgnoresCase(u.firstName, f.firstName);
    FieldIgnoresCase(u.lastName, f.lastName);
    FieldIgnoresCase(u.email, f.email);
    FieldIgnoresCase(u.department, f.department);
  }

  /** A filter value that occurs literally in its field lets the field pass. */
  lemma FilterLiteralHit(value: String, filter: String, i: int)
    requires OccursAt(value, filter, i)
    ensures FieldMatches(value, filter)
  {
    assert Lower(value)[i..i + |filter|] == Lower(filter);
    assert OccursAt(Lower(value), Lower(filter), i);
  }
}
