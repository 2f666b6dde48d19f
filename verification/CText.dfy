/** C character data: one Dafny `char` stands for one C `char`, and a `string` for the
    bytes of a buffer or, where no element is NUL, for a NUL-terminated string. */
module CText {

  datatype Option<+T> = None | Some(value: T)

  const NUL: char := '\0'
  const CR: char := '\r'
  const LF: char := '\n'

  /** A line end of one of the three kinds. */
  predicate LineEnd(end: string) {
    end == [CR, LF] || end == [LF] || end == [CR]
  }

  /** isspace in the C locale. */
  predicate IsSpace(c: char) {
    c == ' ' || '\t' <= c <= '\r'
  }

  /** isalpha in the C locale. */
  predicate IsAlpha(c: char) {
    'a' <= c <= 'z' || 'A' <= c <= 'Z'
  }

  /** isalnum in the C locale. */
  predicate IsAlnum(c: char) {
    IsAlpha(c) || '0' <= c <= '9'
  }

  /** tolower in the C locale. */
  function ToLower(c: char): (l: char)
    ensures IsAlpha(l) <==> IsAlpha(c)
    ensures !IsAlpha(c) ==> l == c
  {
    if 'A' <= c <= 'Z' then c + 32 as char else c
  }

  /** strlen: the position of the first NUL from `i` on, or the end of the buffer. */
  function Length(s: string, i: nat): (n: nat)
    requires i <= |s|
    ensures i <= n <= |s|
    ensures n < |s| ==> s[n] == NUL
    ensures forall k :: i <= k < n ==> s[k] != NUL
    decreases |s| - i
  {
    if i == |s| || s[i] == NUL then i else Length(s, i + 1)
  }

  /** The C string held in a buffer: everything before the first NUL. */
  function CString(s: string): (r: string)
    ensures NUL !in s ==> r == s
    ensures NUL !in r
  {
    s[..Length(s, 0)]
  }

  /** What survives appending `s` byte by byte to a buffer of `space` bytes that keeps room for a NUL. */
  function Fit(s: string, space: nat): (r: string)
    ensures r <= s
    ensures |s| < space ==> r == s
    ensures |s| >= space > 0 ==> |r| + 1 == space
  {
    if |s| < space then s else if space == 0 then [] else s[..space - 1]
  }

  function SkipSpace(r: string): (t: string)
    ensures |t| <= |r|
    ensures t != [] ==> !IsSpace(t[0])
  {
    if r != [] && IsSpace(r[0]) then SkipSpace(r[1..]) else r
  }

  function Min(a: nat, b: nat): (m: nat) {
    if a <= b then a else b
  }

  function Max(a: nat, b: nat): (m: nat) {
    if a <= b then b else a
  }
}
