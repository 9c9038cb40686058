/**
 * The user form: its initial values, the per-field `update`, the `validate` step that builds
 * the error map field by field, and `submit`.
 */
module UserForm {
  import opened Wrappers
  import opened Text

  datatype Field = FirstName | LastName | Email | Department

  /** The four text fields of the form. */
  datatype FormValues = FormValues(firstName: String, lastName: String, email: String, department: String) {

    function Get(f: Field): String {
      match f
      case FirstName => firstName
      case LastName => lastName
      case Email => email
      case Department => department
    }

    /** `{ ...values, [f]: v }`: field `f` becomes `v` and every other field keeps its value. */
    function With(f: Field, v: String): (r: FormValues)
      ensures r.Get(f) == v
      ensures forall g | g != f :: r.Get(g) == Get(g)
    {
      match f
      case FirstName => this.(firstName := v)
      case LastName => this.(lastName := v)
      case Email => this.(email := v)
      case Department => this.(department := v)
    }
  }

  /** The `initialValues` a caller passes: any field may be left out. */
  datatype Supplied = Supplied(firstName: Option<String>, lastName: Option<String>, email: Option<String>, department: Option<String>) {
    function Get(f: Field): Option<String> {
      match f
      case FirstName => firstName
      case LastName => lastName
      case Email => email
      case Department => department
    }
  }

  /** `initial`: four empty strings, each overridden by the supplied value when there is one. */
  function Initial(iv: Option<Supplied>): (v: FormValues)
    ensures forall f :: v.Get(f) == if iv.Some? && iv.value.Get(f).Some? then iv.value.Get(f).value else ""
  {
    match iv
    case None => FormValues("", "", "", "")
    case Some(s) => FormValues(s.firstName.GetOr(""), s.lastName.GetOr(""), s.email.GetOr(""), s.department.GetOr(""))
  }

  /** No character of `s` is whitespace. */
  predicate NoSpace(s: String) {
    forall i | 0 <= i < |s| :: !IsSpace(s[i])
  }

  /** Every character of `s` is one the class `[^\s@]` accepts. */
  predicate AllPlain(s: String) {
    NoSpace(s) && '@' !in s
  }

  /**
   * `/^[^\s@]+@[^\s@]+\.[^\s@]+$/.test(s)`: `s` splits as a non-empty plain run, `@`, a non-empty
   * plain run, `.`, and a non-empty plain run.
   */
  predicate EmailPattern(s: String) {
    exists a, d | 0 < a < |s| && 0 < d < |s| :: PatternAt(s, a, d)
  }

  /** The domain has a dot that is neither its first nor its last character. */
  predicate HasInnerDot(domain: String) {
    exists p | 0 < p < |domain| - 1 :: domain[p] == '.'
  }

  /**
   * What the pattern accepts, stated per property: no whitespace, exactly one `@` with a
   * non-empty part before it, and a domain after it with an inner dot.
   */
  predicate EmailShape(s: String) {
    && NoSpace(s)
    && multiset(s)['@'] == 1
    && exists a | 0 < a < |s| :: s[a] == '@' && HasInnerDot(s[a + 1..])
  }

  lemma NoSpaceConcat(x: String, y: String)
    ensures NoSpace(x + y) <==> NoSpace(x) && NoSpace(y)
  {
    if NoSpace(x + y) {
      forall i | 0 <= i < |y| ensures !IsSpace(y[i]) {
        assert y[i] == (x + y)[|x| + i];
      }
      forall i | 0 <= i < |x| ensures !IsSpace(x[i]) {
        assert x[i] == (x + y)[i];
      }
    }
  }

  /** Splitting `s` around index `k` keeps whitespace-freedom. */
  lemma SplitNoSpace(s: String, k: int)
    requires 0 <= k < |s|
    ensures NoSpace(s) <==> NoSpace(s[..k]) && !IsSpace(s[k]) && NoSpace(s[k + 1..])
  {
    assert s == s[..k] + [s[k]] + s[k + 1..];
    NoSpaceConcat(s[..k], [s[k]]);
    NoSpaceConcat(s[..k] + [s[k]], s[k + 1..]);
  }

  /** Splitting `s` around index `k` splits its count of `@`. */
  lemma SplitAtCount(s: String, k: int)
    requires 0 <= k < |s|
    ensures multiset(s)['@'] == multiset(s[..k])['@'] + (if s[k] == '@' then 1 else 0) + multiset(s[k + 1..])['@']
  {
    assert s == s[..k] + [s[k]] + s[k + 1..];
  }

  /** The positions `a` and `d` witness the pattern. */
  predicate PatternAt(s: String, a: int, d: int) {
    && 0 < a && a + 1 < d && d + 1 < |s|
    && s[a] == '@' && s[d] == '.'
    && AllPlain(s[..a]) && AllPlain(s[a + 1..d]) && AllPlain(s[d + 1..])
  }

  lemma PatternAtMatches(s: String, a: int, d: int)
    requires PatternAt(s, a, d)
    ensures EmailPattern(s)
  {
  }

  /** The part after `@` in a pattern match, split at the dot. */
  lemma PatternDomain(s: String, a: int, d: int)
    requires PatternAt(s, a, d)
    ensures AllPlain(s[a + 1..][..d - a - 1]) && s[a + 1..][d - a - 1] == '.' && AllPlain(s[a + 1..][d - a..])
    ensures HasInnerDot(s[a + 1..])
  {
    var tail := s[a + 1..];
    assert tail[..d - a - 1] == s[a + 1..d];
    assert tail[d - a..] == s[d + 1..];
  }

  lemma PatternNoSpace(s: String, a: int, d: int)
    requires PatternAt(s, a, d)
    ensures NoSpace(s)
  {
    PatternDomain(s, a, d);
    SplitNoSpace(s[a + 1..], d - a - 1);
    SplitNoSpace(s, a);
  }

  lemma PatternOneAt(s: String, a: int, d: int)
    requires PatternAt(s, a, d)
    ensures multiset(s)['@'] == 1
  {
    PatternDomain(s, a, d);
    SplitAtCount(s[a + 1..], d - a - 1);
    SplitAtCount(s, a);
  }

  lemma PatternGivesShape(s: String)
    requires EmailPattern(s)
    ensures EmailShape(s)
  {
    var a, d :| PatternAt(s, a, d);
    PatternDomain(s, a, d);
    PatternNoSpace(s, a, d);
    PatternOneAt(s, a, d);
  }

  /** In a whitespace-free string with a single `@` at index `a`, both sides of it are plain. */
  lemma ShapeSides(s: String, a: int)
    requires NoSpace(s) && multiset(s)['@'] == 1
    requires 0 <= a < |s| && s[a] == '@'
    ensures AllPlain(s[..a]) && AllPlain(s[a + 1..])
  {
    SplitNoSpace(s, a);
    SplitAtCount(s, a);
  }

  /** Both sides of any index of a plain string are plain. */
  lemma PlainSides(t: String, p: int)
    requires AllPlain(t) && 0 <= p < |t|
    ensures AllPlain(t[..p]) && AllPlain(t[p + 1..])
  {
    SplitNoSpace(t, p);
    SplitAtCount(t, p);
  }

  /** An `@` at `a` and an inner dot `p` places after it give a pattern match. */
  lemma ShapeWitness(s: String, a: int, p: int)
    requires NoSpace(s) && multiset(s)['@'] == 1
    requires 0 < a < |s| && s[a] == '@'
    requires 0 < p && a + 2 + p < |s| && s[a + 1 + p] == '.'
    ensures PatternAt(s, a, a + 1 + p)
  {
    var tail := s[a + 1..];
    ShapeSides(s, a);
    PlainSides(tail, p);
    assert tail[..p] == s[a + 1..a + 1 + p];
    assert tail[p + 1..] == s[a + 2 + p..];
  }

  lemma ShapeGivesPattern(s: String)
    requires EmailShape(s)
    ensures EmailPattern(s)
  {
    var a :| 0 < a < |s| && s[a] == '@' && HasInnerDot(s[a + 1..]);
    var p :| 0 < p < |s[a + 1..]| - 1 && s[a + 1..][p] == '.';
    ShapeWitness(s, a, p);
    PatternAtMatches(s, a, a + 1 + p);
  }

  /** The regular expression accepts exactly the strings of the stated shape. */
  lemma EmailPatternIff(s: String)
    ensures EmailPattern(s) <==> EmailShape(s)
  {
    if EmailPattern(s) {
      PatternGivesShape(s);
    }
    if EmailShape(s) {
      ShapeGivesPattern(s);
    }
  }

  /** Worked examples the pattern accepts: `a@b.c` and `a@b..c`. */
  lemma EmailAcceptedExamples()
    ensures EmailPattern("a@b.c") && EmailPattern("a@b..c")
  {
    var s1: String := "a@b.c";
    assert s1[..1] == "a" && s1[2..3] == "b" && s1[4..] == "c";
    PatternAtMatches(s1, 1, 3);
    var s2: String := "a@b..c";
    assert s2[..1] == "a" && s2[2..3] == "b" && s2[4..] == ".c";
    PatternAtMatches(s2, 1, 3);
  }

  /** Worked examples the pattern rejects: `a@.b` and `a@b.` (no inner dot) and `a@@b.c` (two `@`). */
  lemma EmailRejectedExamples()
    ensures !EmailPattern("a@.b") && !EmailPattern("a@b.") && !EmailPattern("a@@b.c")
  {
    var s1: String := "a@.b";
    EmailPatternIff(s1);
    var s2: String := "a@b.";
    EmailPatternIff(s2);
    var s3: String := "a@@b.c";
    EmailPatternIff(s3);
    assert multiset(s3)['@'] == 2;
  }

  const FirstNameRequired: String := "First name is required"
  const LastNameRequired: String := "Last name is required"
  const EmailRequired: String := "Email is required"
  const EmailInvalid: String := "Invalid email"
  const DepartmentRequired: String := "Department is required"

  /**
   * The error map `validate` builds: a required-field message for each blank name or department;
   * for the email, "required" when it is blank (the pattern is then not consulted) and
   * "invalid" when it is not blank but fails the pattern; at most one message per field.
   */
  function ErrorsFor(v: FormValues): (e: map<Field, String>)
    ensures FirstName in e <==> IsBlank(v.firstName)
    ensures LastName in e <==> IsBlank(v.lastName)
    ensures Department in e <==> IsBlank(v.department)
    ensures Email in e <==> IsBlank(v.email) || !EmailPattern(v.email)
    ensures FirstName in e ==> e[FirstName] == FirstNameRequired
    ensures LastName in e ==> e[LastName] == LastNameRequired
    ensures Department in e ==> e[Department] == DepartmentRequired
    ensures Email in e ==> e[Email] == if IsBlank(v.email) then EmailRequired else EmailInvalid
  {
    var e1: map<Field, String> := if IsBlank(v.firstName) then map[FirstName := FirstNameRequired] else map[];
    var e2 := if IsBlank(v.lastName) then e1[LastName := LastNameRequired] else e1;
    var e3 :=
      if IsBlank(v.email) then e2[Email := EmailRequired]
      else if !EmailPattern(v.email) then e2[Email := EmailInvalid]
      else e2;
    if IsBlank(v.department) then e3[Department := DepartmentRequired] else e3
  }

  /** The form passes validation exactly when no field is blank and the email fits the pattern. */
  lemma ValidIff(v: FormValues)
    ensures ErrorsFor(v) == map[] <==>
      !IsBlank(v.firstName) && !IsBlank(v.lastName) && !IsBlank(v.department)
      && !IsBlank(v.email) && EmailPattern(v.email)
  {
    var e := ErrorsFor(v);
    if e != map[] {
      var f :| f in e;
    }
  }

  /** A map has no keys exactly when its size is zero. */
  lemma EmptyMap<K, V>(m: map<K, V>)
    ensures |m| == 0 <==> m == map[]
  {
    if m != map[] {
      var k :| k in m;
      assert k in m.Keys;
    }
  }

  /** The state of one open form: the values being edited and the errors last shown. */
  class FormModal {
    var values: FormValues
    var errors: map<Field, String>

    /** Opening the form: `values` start from `initial` and no errors are shown. */
    constructor (initialValues: Option<Supplied>)
      ensures values == Initial(initialValues) && errors == map[]
    {
      values := Initial(initialValues);
      errors := map[];
    }

    /** The effect on a new `initial` or reopening: values reset to `initial`, errors cleared. */
    method Reset(initialValues: Option<Supplied>)
      modifies this
      ensures values == Initial(initialValues) && errors == map[]
    {
      values := Initial(initialValues);
      errors := map[];
    }

    /** `update(field, v)`: only `values[field]` changes. */
    method Update(field: Field, v: String)
      modifies this`values
      ensures values == old(values).With(field, v)
      ensures values.Get(field) == v
      ensures forall g | g != field :: values.Get(g) == old(values).Get(g)
    {
      values := values.With(field, v);
    }

    /** `validate`: builds the error map field by field, shows it, and passes iff it is empty. */
    method Validate() returns (ok: bool)
      modifies this`errors
      ensures errors == ErrorsFor(values)
      ensures ok <==> errors == map[]
    {
      var e: map<Field, String> := map[];
      if IsBlank(values.firstName) {
        e := e[FirstName := FirstNameRequired];
      }
      if IsBlank(values.lastName) {
        e := e[LastName := LastNameRequired];
      }
      if IsBlank(values.email) {
        e := e[Email := EmailRequired];
      } else if !EmailPattern(values.email) {
        e := e[Email := EmailInvalid];
      }
      if IsBlank(values.department) {
        e := e[Department := DepartmentRequired];
      }
      errors := e;
      ok := |e| == 0;
      EmptyMap(e);
    }

    /**
     * `submit`: hands the values, untrimmed, to the caller exactly when validation passes;
     * the values themselves are left as they are.
     */
    method Submit() returns (submitted: Option<FormValues>)
      modifies this`errors
      ensures errors == ErrorsFor(values)
      ensures submitted == if errors == map[] then Some(values) else None
    {
      var ok := Validate();
      if !ok {
        return None;
      }
      submitted := Some(values);
    }
  }
}
