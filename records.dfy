/** The record normaliser: a raw record from the users endpoint in the shape the page displays. */
module Records {
  import opened Wrappers
  import opened Text

  /** The nested organisation object of a raw record. */
  datatype Company = Company(name: Option<String>)

  /** A record as the remote service returns it; any field but `id` may be missing. */
  datatype RawUser = RawUser(id: int, name: Option<String>, email: Option<String>, company: Option<Company>)

  /** The canonical record the page works with. */
  datatype User = User(id: int, firstName: String, lastName: String, email: String, department: String)

  /** The department of a record whose organisation name is missing or empty. */
  const DefaultDepartment: String := "General"

  /** `x || ''` for an optional string. */
  function OrEmpty(o: Option<String>): String {
    o.GetOr("")
  }

  /** The organisation name when it is present and non-empty (JavaScript truthy). */
  predicate HasCompanyName(u: RawUser) {
    u.company.Some? && OrEmpty(u.company.value.name) != ""
  }

  /**
   * `f` and `l` are the first two space-separated tokens of `name`: `f` runs up to the first
   * space (or is all of `name`), `l` runs from there up to the next space or the end (or is
   * empty when `name` has no space); whatever follows a second space is not kept.
   */
  predicate FirstTwoTokens(name: String, f: String, l: String) {
    && ' ' !in f && ' ' !in l
    && if ' ' !in name then f == name && l == ""
       else
         && |f| + 1 + |l| <= |name|
         && name[..|f|] == f && name[|f|] == ' '
         && name[|f| + 1..|f| + 1 + |l|] == l
         && (|f| + 1 + |l| == |name| || name[|f| + 1 + |l|] == ' ')
  }

  lemma SplitFirstTwo(name: String)
    ensures var parts := Split(name, ' ');
      FirstTwoTokens(name, parts[0], if |parts| > 1 then parts[1] else "")
  {
    var parts := Split(name, ' ');
    JoinFirstTwo(parts);
  }

  /** A joined list starts with its first part, followed by a space or the end. */
  lemma JoinHead(parts: seq<String>)
    requires |parts| >= 1
    ensures var name := Join(parts, ' ');
      && |parts[0]| <= |name| && name[..|parts[0]|] == parts[0]
      && (|parts[0]| == |name| || name[|parts[0]|] == ' ')
      && (|parts| == 1 ==> name == parts[0])
      && (|parts| > 1 ==> name == parts[0] + [' '] + Join(parts[1..], ' '))
  {
  }

  /** Where the first two parts sit in a list of at least two parts joined by spaces. */
  lemma JoinTwoHeads(parts: seq<String>)
    requires |parts| > 1
    ensures var name, f, l := Join(parts, ' '), parts[0], parts[1];
      && |f| + 1 + |l| <= |name|
      && name[..|f|] == f && name[|f|] == ' '
      && name[|f| + 1..|f| + 1 + |l|] == l
      && (|f| + 1 + |l| == |name| || name[|f| + 1 + |l|] == ' ')
  {
    var name, f, l := Join(parts, ' '), parts[0], parts[1];
    var tail := Join(parts[1..], ' ');
    JoinHead(parts);
    JoinHead(parts[1..]);
    assert name[|f| + 1..] == tail;
  }

  lemma JoinFirstTwo(parts: seq<String>)
    requires |parts| >= 1
    requires forall k | 0 <= k < |parts| :: ' ' !in parts[k]
    ensures FirstTwoTokens(Join(parts, ' '), parts[0], if |parts| > 1 then parts[1] else "")
  {
    var name := Join(parts, ' ');
    assert ' ' !in parts[0];
    if |parts| > 1 {
      assert ' ' !in parts[1];
      JoinTwoHeads(parts);
      assert ' ' in name;
    } else {
      JoinHead(parts);
    }
  }

  /**
   * `mapUser`: copies the id, keeps the first two space-separated tokens of the name as first
   * and last name, defaults a missing email to the empty string and a missing or empty
   * organisation name to the default department.
   */
  function MapUser(u: RawUser): (r: User)
    ensures r.id == u.id
    ensures FirstTwoTokens(OrEmpty(u.name), r.firstName, r.lastName)
    ensures r.email == OrEmpty(u.email)
    ensures HasCompanyName(u) ==> r.department == u.company.value.name.value
    ensures !HasCompanyName(u) ==> r.department == DefaultDepartment
    ensures r.department != ""
  {
    var name := OrEmpty(u.name);
    var parts := Split(name, ' ');
    SplitFirstTwo(name);
    User(
      u.id,
      parts[0],
      if |parts| > 1 then parts[1] else "",
      OrEmpty(u.email),
      if HasCompanyName(u) then u.company.value.name.value else DefaultDepartment)
  }

  /** The two tokens are determined by the name: `FirstTwoTokens` has one solution. */
  lemma FirstTwoTokensUnique(name: String, f: String, l: String, f': String, l': String)
    requires FirstTwoTokens(name, f, l) && FirstTwoTokens(name, f', l')
    ensures f == f' && l == l'
  {
    if ' ' in name {
      NoSpacePrefix(name, f, f');
      var rest := name[|f| + 1..];
      assert rest[..|l|] == l && rest[..|l'|] == l';
      assert |l| == |rest| || rest[|l|] == ' ';
      assert |l'| == |rest| || rest[|l'|] == ' ';
      NoSpacePrefix(rest, l, l');
    }
  }

  /** Two space-free prefixes of `s` that each end at a space or at the end of `s` are equal. */
  lemma NoSpacePrefix(s: String, a: String, b: String)
    requires |a| <= |s| && |b| <= |s| && s[..|a|] == a && s[..|b|] == b
    requires ' ' !in a && ' ' !in b
    requires |a| == |s| || s[|a|] == ' '
    requires |b| == |s| || s[|b|] == ' '
    ensures a == b
  {
  }

  /** `(data || []).map(mapUser)`: one record per raw record, ids and order preserved. */
  function MapUsers(raws: seq<RawUser>): (r: seq<User>)
    ensures |r| == |raws|
    ensures forall i | 0 <= i < |r| :: r[i] == MapUser(raws[i])
  {
    seq(|raws|, i requires 0 <= i < |raws| => MapUser(raws[i]))
  }
}
