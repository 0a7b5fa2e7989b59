/** Character-level helpers: Python's `str.isspace`, ASCII `str.lower`,
    `str.startswith('.')` and `str.lstrip('.')`. */
module Text {

  /** Python's `str.isspace()`: the characters `str.split()` separates on. */
  predicate IsSpace(c: char) {
    var n := c as int;
    || (0x09 <= n <= 0x0D)
    || (0x1C <= n <= 0x20)
    || n == 0x85 || n == 0xA0 || n == 0x1680
    || (0x2000 <= n <= 0x200A)
    || n == 0x2028 || n == 0x2029 || n == 0x202F || n == 0x205F
    || n == 0x3000
  }

  predicate IsUpper(c: char) {
    'A' <= c <= 'Z'
  }

  function LowerChar(c: char): (d: char)
    ensures !IsUpper(d)
    ensures IsUpper(c) ==> d as int == c as int + 32
    ensures !IsUpper(c) ==> d == c
  {
    if IsUpper(c) then (c as int + 32) as char else c
  }

  /** True when no character of `s` is an upper-case letter. */
  predicate IsLower(s: string) {
    forall i | 0 <= i < |s| :: !IsUpper(s[i])
  }

  /** `str.lower()` restricted to ASCII letters. */
  function Lower(s: string): (r: string)
    ensures |r| == |s|
    ensures IsLower(r)
    ensures forall i | 0 <= i < |s| :: r[i] == LowerChar(s[i])
  {
    seq(|s|, i requires 0 <= i < |s| => LowerChar(s[i]))
  }

  /** Lowering never creates or removes a dot. */
  lemma LowerKeepsDots(s: string)
    ensures forall i | 0 <= i < |s| :: (Lower(s)[i] == '.' <==> s[i] == '.')
  {
  }

  predicate StartsWithDot(s: string) {
    |s| > 0 && s[0] == '.'
  }

  /** `s.lstrip('.')`: drops every leading dot, not just one. */
  function LStripDots(s: string): (r: string)
    ensures !StartsWithDot(r)
    ensures |r| <= |s| && r == s[|s| - |r|..]
    ensures forall i | 0 <= i < |s| - |r| :: s[i] == '.'
  {
    if StartsWithDot(s) then LStripDots(s[1..]) else s
  }
}
