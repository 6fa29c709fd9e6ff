/**
  The input checks of `src/validator.c`: each returns 0 for an acceptable
  value and -1 otherwise. A C string is its character buffer (`None` for a
  null pointer) and a `float` one of the values `Float` lists, so that the
  comparisons behave as IEEE comparisons do, NaN included.
 */
module Validator {
  import opened Wrappers

  /** A C `float`: a finite value, an infinity, or NaN. */
  datatype Float = Finite(value: real) | Infinity(negative: bool) | NaN

  /** `x < y` on floats: false whenever either side is NaN. */
  predicate FloatLess(x: Float, y: Float) {
    match (x, y)
    case (NaN, _) => false
    case (_, NaN) => false
    case (Finite(a), Finite(b)) => a < b
    case (Infinity(n), Finite(_)) => n
    case (Finite(_), Infinity(m)) => !m
    case (Infinity(n), Infinity(m)) => n && !m
  }

  /** `strlen`: the characters before the first NUL, or the whole buffer
      when it holds none. */
  function StrLen(s: string): (n: nat)
    ensures n <= |s| && '\0' !in s[..n]
    ensures n < |s| ==> s[n] == '\0'
  {
    if s == [] || s[0] == '\0' then 0
    else
      var n := StrLen(s[1..]);
      assert s[..n + 1] == [s[0]] + s[1..][..n];
      n + 1
  }

  /** The longest name a record holds: its buffer has 64 characters, the last
      reserved for the terminator. */
  const MaxNameLength := 63

  /** `validate_student_name` */
  function ValidateStudentName(name: Option<string>): (r: int)
    ensures r == 0 || r == -1
    ensures r == 0 <==> name.Some? && 1 <= StrLen(name.value) <= MaxNameLength
  {
    if name.None? || StrLen(name.value) == 0 then -1
    else if StrLen(name.value) > 63 then -1
    else 0
  }

  /** `validate_score` */
  function ValidateScore(score: Float): (r: int)
    ensures r == 0 || r == -1
    ensures r == -1 <==> FloatLess(score, Finite(0.0)) || FloatLess(Finite(100.0), score)
  {
    if FloatLess(score, Finite(0.0)) || FloatLess(Finite(100.0), score) then -1 else 0
  }

  /** `validate_student_id` */
  function ValidateStudentId(id: int): (r: int)
    ensures r == 0 || r == -1
    ensures r == 0 <==> id > 0
  {
    if id <= 0 then -1 else 0
  }

  /** A finite score is accepted exactly when it lies in [0, 100], both
      bounds included; every infinity is refused. */
  lemma ScoreRange(score: Float)
    ensures score.Finite? ==> (ValidateScore(score) == 0 <==> 0.0 <= score.value <= 100.0)
    ensures score.Infinity? ==> ValidateScore(score) == -1
  {
  }

  /** NaN fails both comparisons, so the range check lets it through. */
  lemma NaNAccepted()
    ensures ValidateScore(NaN) == 0
  {
  }

  /** A name's length counts only up to its terminator: characters after a
      NUL never make a name too long, and a buffer starting with NUL is
      empty. */
  lemma {:induction false} NameStopsAtNul(a: string, b: string)
    requires '\0' !in a
    ensures StrLen(a + ['\0'] + b) == |a|
    ensures ValidateStudentName(Some(a + ['\0'] + b)) == ValidateStudentName(Some(a))
  {
    StrLenPrefix(a, ['\0'] + b);
    assert a + ['\0'] + b == a + (['\0'] + b);
    StrLenPrefix(a, []);
    assert a + [] == a;
  }

  /** A NUL-free prefix is skipped over whole. */
  lemma {:induction false} StrLenPrefix(a: string, rest: string)
    requires '\0' !in a
    ensures StrLen(a + rest) == |a| + StrLen(rest)
    decreases |a|
  {
    if a != [] {
      assert (a + rest)[1..] == a[1..] + rest;
      StrLenPrefix(a[1..], rest);
    } else {
      assert a + rest == rest;
    }
  }
}
