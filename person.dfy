/**
 * `Person`: the validated name, age and email shared by students and
 * instructors, and the email rule `_EMAIL_RE`.
 */
module Persons {
  import opened Results
  import opened Text
  import opened Records

  predicate IsLocalChar(c: char) {
    IsAlnum(c) || c == '.' || c == '_' || c == '%' || c == '+' || c == '-'
  }

  predicate IsDomainChar(c: char) {
    IsAlnum(c) || c == '.' || c == '-'
  }

  /** `[A-Za-z0-9._%+-]+` */
  predicate LocalPart(s: string) {
    |s| >= 1 && forall i :: 0 <= i < |s| ==> IsLocalChar(s[i])
  }

  /** `[A-Za-z0-9.-]+` */
  predicate DomainPart(s: string) {
    |s| >= 1 && forall i :: 0 <= i < |s| ==> IsDomainChar(s[i])
  }

  /** `[A-Za-z]{2,63}` */
  predicate TopLevelPart(s: string) {
    2 <= |s| <= 63 && forall i :: 0 <= i < |s| ==> IsLetter(s[i])
  }

  /** `e` reads as local part, `@` at index `a`, domain, `.` at index `d`, top-level part. */
  ghost predicate SplitsAsEmail(e: string, a: int, d: int) {
    && 0 < a && a + 1 < d && d < |e|
    && e[a] == '@' && e[d] == '.'
    && LocalPart(e[..a]) && DomainPart(e[a + 1..d]) && TopLevelPart(e[d + 1..])
  }

  /** The language of `[A-Za-z0-9._%+-]+@[A-Za-z0-9.-]+\.[A-Za-z]{2,63}`:
      some way of cutting the string matches each piece of the pattern. */
  ghost predicate EmailPattern(e: string) {
    exists a, d :: SplitsAsEmail(e, a, d)
  }

  /** The decision procedure without backtracking: cut at the `@`, then at the
      last `.` after it. */
  predicate EmailShape(e: string) {
    var a := IndexOf(e, '@');
    a < |e| && LocalPart(e[..a]) && DomainWithTopLevel(e[a + 1..])
  }

  predicate DomainWithTopLevel(r: string) {
    var d := LastIndexOf(r, '.');
    d >= 0 && DomainPart(r[..d]) && TopLevelPart(r[d + 1..])
  }

  /** `_EMAIL_RE.match(e)`; the final `$` also accepts one trailing line feed. */
  predicate EmailOk(e: string) {
    EmailShape(e) || (EndsWithNewline(e) && EmailShape(e[..|e| - 1]))
  }

  /** The cut-based check accepts exactly the strings in the pattern's language. */
  lemma EmailShapeIsPattern(e: string)
    ensures EmailShape(e) <==> EmailPattern(e)
  {
    if EmailShape(e) {
      EmailShapeSplits(e);
    }
    if EmailPattern(e) {
      var a, d :| SplitsAsEmail(e, a, d);
      SplitsHasEmailShape(e, a, d);
    }
  }

  lemma EmailShapeSplits(e: string)
    requires EmailShape(e)
    ensures EmailPattern(e)
  {
    var a := IndexOf(e, '@');
    var r := e[a + 1..];
    var d := LastIndexOf(r, '.');
    assert r[..d] == e[a + 1..a + 1 + d];
    assert r[d + 1..] == e[a + 1 + d + 1..];
    assert SplitsAsEmail(e, a, a + 1 + d);
  }

  lemma SplitsHasEmailShape(e: string, a: int, d: int)
    requires SplitsAsEmail(e, a, d)
    ensures EmailShape(e)
  {
    forall k | 0 <= k < a
      ensures e[k] != '@'
    {
      assert e[..a][k] == e[k];
    }
    IndexOfIs(e, '@', a);
    var r := e[a + 1..];
    var j := d - a - 1;
    forall k | j < k < |r|
      ensures r[k] != '.'
    {
      assert e[d + 1..][k - j - 1] == r[k];
    }
    LastIndexOfIs(r, '.', j);
    assert r[..j] == e[a + 1..d];
    assert r[j + 1..] == e[d + 1..];
  }

  lemma DomainWithTopLevelHasNoAt(r: string)
    requires DomainWithTopLevel(r)
    ensures forall k :: 0 <= k < |r| ==> r[k] != '@'
  {
    var d := LastIndexOf(r, '.');
    forall k | 0 <= k < |r|
      ensures r[k] != '@'
    {
      if k < d {
        assert r[..d][k] == r[k];
      } else if k > d {
        assert r[d + 1..][k - d - 1] == r[k];
      }
    }
  }

  /** An accepted address holds exactly one `@`. */
  lemma EmailHasOneAt(e: string)
    requires EmailShape(e)
    ensures IndexOf(e, '@') < |e|
    ensures forall k :: 0 <= k < |e| && e[k] == '@' ==> k == IndexOf(e, '@')
  {
    var a := IndexOf(e, '@');
    var r := e[a + 1..];
    DomainWithTopLevelHasNoAt(r);
    forall k | a < k < |e|
      ensures e[k] != '@'
    {
      assert r[k - a - 1] == e[k];
    }
  }

  /** In an accepted address the 2-63 letters of the top-level part follow the last `.`. */
  lemma EmailEndsInTopLevel(e: string)
    requires EmailShape(e)
    ensures TopLevelPart(e[LastIndexOf(e, '.') + 1..])
  {
    var a := IndexOf(e, '@');
    var r := e[a + 1..];
    var d := LastIndexOf(r, '.');
    var t := r[d + 1..];
    forall k | a + 1 + d < k < |e|
      ensures e[k] != '.'
    {
      assert t[k - a - 1 - d - 1] == e[k];
    }
    LastIndexOfIs(e, '.', a + 1 + d);
    assert t == e[a + 1 + d + 1..];
  }

  /** The `$` anchor lets one final line feed through, but not two. */
  lemma TrailingNewlineAccepted()
    ensures EmailOk("a@b.cc\n")
    ensures !EmailOk("a@b.cc\n\n")
  {
    ShortEmailShape();
    assert "a@b.cc\n"[..6] == "a@b.cc";
    var f := "a@b.cc\n\n";
    NoShapeEndsInNewline(f);
    NoShapeEndsInNewline(f[..7]);
  }

  lemma ShortEmailShape()
    ensures EmailShape("a@b.cc")
  {
    var e := "a@b.cc";
    assert e[..1] == "a" && e[2..3] == "b" && e[4..] == "cc";
    SplitsHasEmailShape(e, 1, 3);
  }

  /** An accepted shape ends in a letter of its top-level part, never in a line feed. */
  lemma NoShapeEndsInNewline(e: string)
    requires EndsWithNewline(e)
    ensures !EmailShape(e)
  {
    if EmailShape(e) {
      EmailEndsInTopLevel(e);
    }
  }

  /** An immutable person; exists only when constructed through `NewPerson`. */
  datatype Person = Person(name: string, age: int, email: string)

  /** `Person(name, age, email)`: the checks of `__post_init__` in order
      name, age, email; the first that fails decides the error. */
  function NewPerson(name: string, age: int, email: string): (r: Result<Person, ValidationError>)
    ensures r.Success? ==> r.value == Person(name, age, email)
  {
    if !NonBlank(name) then Failure(NameBlank)
    else if !(0 <= age <= 120) then Failure(AgeOutOfRange)
    else if !EmailOk(email) then Failure(EmailInvalid)
    else Success(Person(name, age, email))
  }

  /** A person is accepted exactly when the name has a non-whitespace character,
      the age lies in [0, 120] and the email is in the pattern's language,
      possibly followed by one line feed. */
  lemma PersonAcceptance(name: string, age: int, email: string)
    ensures NewPerson(name, age, email).Success? <==>
      && (exists i :: 0 <= i < |name| && !IsSpace(name[i]))
      && 0 <= age <= 120
      && (EmailPattern(email) || (EndsWithNewline(email) && EmailPattern(email[..|email| - 1])))
  {
    NonBlankIff(name);
    EmailShapeIsPattern(email);
    if EndsWithNewline(email) {
      EmailShapeIsPattern(email[..|email| - 1]);
    }
  }

  /** Only the first failing check is reported: a blank name hides a bad age
      or email, and a bad age hides a bad email. */
  lemma PersonFirstFailure(name: string, age: int, email: string)
    ensures !NonBlank(name) ==> NewPerson(name, age, email) == Failure(NameBlank)
    ensures NonBlank(name) && !(0 <= age <= 120) ==> NewPerson(name, age, email) == Failure(AgeOutOfRange)
    ensures NonBlank(name) && 0 <= age <= 120 && !EmailOk(email) ==> NewPerson(name, age, email) == Failure(EmailInvalid)
  {
  }

  /** `Person.to_dict()`: `{"name": ..., "age": ..., "email": ...}`. */
  function PersonToDict(p: Person): (d: Dict)
    ensures UniqueKeys(d)
    ensures Keys(d) == ["name", "age", "email"]
    ensures Lookup(d, "name") == Some(Str(p.name))
    ensures Lookup(d, "age") == Some(Int(p.age))
    ensures Lookup(d, "email") == Some(Str(p.email))
  {
    var d := [("name", Str(p.name)), ("age", Int(p.age)), ("email", Str(p.email))];
    assert Keys(d) == [d[0].0, d[1].0, d[2].0];
    assert Lookup(d, "name") == Some(Str(p.name));
    assert Lookup(d, "age") == Some(Int(p.age));
    assert Lookup(d[2..], "email") == Some(Str(p.email));
    d
  }
}
