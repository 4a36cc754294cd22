/** The C library string routines the dictionary and the spell checker rely on,
    in the "C" locale: `isupper`, `isalpha`, `tolower`, `strcmp` and
    `strcasecmp`. A C string is modelled by the characters before its
    terminating NUL, so none of these functions sees a terminator. */
module CStrings {

  predicate IsUpper(c: char) { 'A' <= c <= 'Z' }

  predicate IsLower(c: char) { 'a' <= c <= 'z' }

  /** `isalpha` in the "C" locale: the 52 ASCII letters. */
  predicate IsAlpha(c: char) { IsUpper(c) || IsLower(c) }

  /** `tolower` in the "C" locale: only 'A'..'Z' change. */
  function ToLower(c: char): (d: char)
    ensures !IsUpper(d)
    ensures IsAlpha(d) == IsAlpha(c)
    ensures IsUpper(c) ==> d as int == c as int + 32
    ensures !IsUpper(c) ==> d == c
  {
    if IsUpper(c) then (c as int + 32) as char else c
  }

  /** The string with every character passed through `tolower`. */
  function LowerStr(s: string): string
  {
    seq(|s|, i requires 0 <= i < |s| => ToLower(s[i]))
  }

  /** No character of `s` is an upper-case ASCII letter. */
  predicate NoUpper(s: string)
  {
    forall i :: 0 <= i < |s| ==> !IsUpper(s[i])
  }

  lemma LowerStrOfNoUpper(s: string)
    requires NoUpper(s)
    ensures LowerStr(s) == s
  {
  }

  /** `strcmp`: lexicographic comparison of the characters as unsigned codes,
      where a proper prefix (whose terminator meets a non-NUL character)
      compares less. Only the sign of the C result is ever used, so the
      result is reduced to -1, 0 or 1. */
  function Strcmp(a: string, b: string): (r: int)
    ensures -1 <= r <= 1
    ensures r == 0 <==> a == b
  {
    if a == [] && b == [] then 0
    else if a == [] then -1
    else if b == [] then 1
    else if a[0] < b[0] then -1
    else if a[0] > b[0] then 1
    else
      assert a == [a[0]] + a[1..] && b == [b[0]] + b[1..];
      Strcmp(a[1..], b[1..])
  }

  /** Swapping the operands of `strcmp` negates the result. */
  lemma {:induction false} StrcmpAntisymmetric(a: string, b: string)
    ensures Strcmp(b, a) == -Strcmp(a, b)
  {
    if a != [] && b != [] && a[0] == b[0] {
      StrcmpAntisymmetric(a[1..], b[1..]);
    }
  }

  /** `strcmp` orders strings transitively. */
  lemma {:induction false} StrcmpTransitive(a: string, b: string, c: string)
    requires Strcmp(a, b) < 0 && Strcmp(b, c) < 0
    ensures Strcmp(a, c) < 0
  {
    if a != [] && b != [] && c != [] && a[0] == b[0] && b[0] == c[0] {
      StrcmpTransitive(a[1..], b[1..], c[1..]);
    }
  }

  /** `strcasecmp`: like `strcmp`, but each pair of characters is compared
      after `tolower`. */
  function Strcasecmp(a: string, b: string): (r: int)
    ensures r == Strcmp(LowerStr(a), LowerStr(b))
  {
    if a == [] && b == [] then 0
    else if a == [] then -1
    else if b == [] then 1
    else if ToLower(a[0]) < ToLower(b[0]) then -1
    else if ToLower(a[0]) > ToLower(b[0]) then 1
    else
      assert LowerStr(a)[1..] == LowerStr(a[1..]) && LowerStr(b)[1..] == LowerStr(b[1..]);
      Strcasecmp(a[1..], b[1..])
  }
}
