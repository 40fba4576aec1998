/** The identifier rule `_ID_RE` shared by students, instructors and courses. */
module Identifiers {
  import opened Text

  predicate IsIdChar(c: char) {
    IsAlnum(c) || c == '.' || c == '_' || c == '-'
  }

  /** `[A-Za-z0-9._-]{1,64}` matched over the whole string. */
  predicate IdShape(s: string) {
    1 <= |s| <= 64 && forall i :: 0 <= i < |s| ==> IsIdChar(s[i])
  }

  /** `_ID_RE.match(s)` with the pattern `^[A-Za-z0-9._-]{1,64}$`; the `$`
      also accepts the id followed by a single line feed. */
  predicate IdOk(s: string) {
    IdShape(s) || (EndsWithNewline(s) && IdShape(s[..|s| - 1]))
  }

  /** An accepted id is not empty, holds no space at all and does not start
      with whitespace, so `strip()` and `split(" - ")` cannot cut into it. */
  lemma IdOkHasNoSpace(s: string)
    requires IdOk(s)
    ensures |s| >= 1 && !IsSpace(s[0])
    ensures forall i :: 0 <= i < |s| ==> s[i] != ' '
  {
    if !IdShape(s) {
      assert s[0] == s[..|s| - 1][0];
      forall i | 0 <= i < |s|
        ensures s[i] != ' '
      {
        if i < |s| - 1 {
          assert s[i] == s[..|s| - 1][i];
        }
      }
    }
  }
}
