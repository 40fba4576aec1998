/**
 * What the entity classes share: the `ValueError` each validation raises, and
 * the insertion-ordered dictionary their `to_dict` builds.
 */
module Records {
  import opened Results

  /** The rule a constructor found violated; each carries the `ValueError` text. */
  datatype ValidationError =
    | NameBlank
    | AgeOutOfRange
    | EmailInvalid
    | StudentIdInvalid
    | InstructorIdInvalid
    | CourseIdInvalid
    | CourseNameBlank

  /** The message passed to `ValueError` for each rule. */
  function Message(e: ValidationError): string {
    match e
    case NameBlank => "name must be a non-empty string"
    case AgeOutOfRange => "age must be an integer in [0, 120]"
    case EmailInvalid => "email is not a valid email address"
    case StudentIdInvalid => "student_id must be 1\U{2013}64 chars from [A-Za-z0-9._-]"
    case InstructorIdInvalid => "instructor_id must be 1\U{2013}64 chars from [A-Za-z0-9._-]"
    case CourseIdInvalid => "course_id must be 1\U{2013}64 chars from [A-Za-z0-9._-]"
    case CourseNameBlank => "course_name must be a non-empty string"
  }

  /** A value stored in a serialised record: `str`, `int` or `None`. */
  datatype Value = Str(s: string) | Int(i: int) | Null

  /** A Python dict, whose entries keep their insertion order. */
  type Dict = seq<(string, Value)>

  function Keys(d: Dict): (ks: seq<string>)
    ensures |ks| == |d| && forall i :: 0 <= i < |d| ==> ks[i] == d[i].0
  {
    if |d| == 0 then [] else [d[0].0] + Keys(d[1..])
  }

  predicate UniqueKeys(d: Dict) {
    forall i, j :: 0 <= i < j < |d| ==> d[i].0 != d[j].0
  }

  /** `d.get(k)`. */
  function Lookup(d: Dict, k: string): Option<Value> {
    if |d| == 0 then None
    else if d[0].0 == k then Some(d[0].1)
    else Lookup(d[1..], k)
  }

  /** `d.update({k: v})`: an existing key keeps its place, a new key goes last. */
  function Update(d: Dict, k: string, v: Value): (r: Dict)
    requires UniqueKeys(d)
    ensures UniqueKeys(r)
    ensures Lookup(r, k) == Some(v)
    ensures forall k' :: k' != k ==> Lookup(r, k') == Lookup(d, k')
    ensures Keys(r) == if k in Keys(d) then Keys(d) else Keys(d) + [k]
  {
    if |d| == 0 then
      [(k, v)]
    else if d[0].0 == k then
      assert k !in Keys(d[1..]);
      [(k, v)] + d[1..]
    else
      assert Keys(d) == [d[0].0] + Keys(d[1..]);
      [d[0]] + Update(d[1..], k, v)
  }
}
