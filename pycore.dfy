/** Python runtime notions shared by the models of the Python scripts: values that may be
    missing, calls that may raise, and the handful of `str` methods the scripts use
    (`find`, `strip`, `isalpha`, `isalnum`, indexing and slicing with negative indices). */
module PyCore {

  datatype Option<T> = None | Some(value: T)

  /** The exception classes the modelled scripts can raise. */
  datatype PyError =
    | IndexError
    | AttributeError
    | KeyError
    | TypeError
    | ValueError
    | SyntaxError
    | UnboundLocalError
    | ZeroDivisionError
    | Exception

  /** The result of a Python call: it returns a value or raises. */
  datatype Outcome<T> = Return(value: T) | Raise(error: PyError)

  /** `sub` occurs in `s` at index `i`. */
  predicate OccursAt(s: string, sub: string, i: int) {
    0 <= i && i + |sub| <= |s| && s[i..i + |sub|] == sub
  }

  /** `s.find(sub, start)` for a non-negative `start`: the lowest index at or after `start`
      where `sub` occurs, or -1. */
  function Find(s: string, sub: string, start: nat): (r: int)
    ensures r == -1 || (start <= r && OccursAt(s, sub, r))
    ensures r == -1 ==> forall i :: start <= i ==> !OccursAt(s, sub, i)
    ensures r != -1 ==> forall i :: start <= i < r ==> !OccursAt(s, sub, i)
    decreases |s| - start
  {
    if start + |sub| > |s| then -1
    else if s[start..start + |sub|] == sub then start
    else Find(s, sub, start + 1)
  }

  /** `c.isspace()` for one character (the characters Python's `str.strip()` removes). */
  predicate IsSpace(c: char) {
    c == ' ' || ('\t' <= c <= '\r') || ('\U{1C}' <= c <= '\U{1F}')
    || c == '\U{85}' || c == '\U{A0}' || c == '\U{1680}' || ('\U{2000}' <= c <= '\U{200A}')
    || c == '\U{2028}' || c == '\U{2029}' || c == '\U{202F}' || c == '\U{205F}' || c == '\U{3000}'
  }

  /** `s` with no leading and no trailing whitespace. */
  predicate Stripped(s: string) {
    s == [] || (!IsSpace(s[0]) && !IsSpace(s[|s| - 1]))
  }

  function LeftStrip(s: string): (r: string)
    ensures |r| <= |s|
  {
    if s != [] && IsSpace(s[0]) then LeftStrip(s[1..]) else s
  }

  function RightStrip(s: string): (r: string)
    ensures |r| <= |s|
  {
    if s != [] && IsSpace(s[|s| - 1]) then RightStrip(s[..|s| - 1]) else s
  }

  /** `lstrip` drops exactly the leading whitespace. */
  lemma {:induction false} LeftStripDrops(s: string)
    ensures LeftStrip(s) == s[|s| - |LeftStrip(s)|..]
    ensures LeftStrip(s) == [] || !IsSpace(LeftStrip(s)[0])
    ensures forall i :: 0 <= i < |s| - |LeftStrip(s)| ==> IsSpace(s[i])
    decreases |s|
  {
    if s != [] && IsSpace(s[0]) {
      LeftStripDrops(s[1..]);
    }
  }

  /** `rstrip` drops exactly the trailing whitespace. */
  lemma {:induction false} RightStripDrops(s: string)
    ensures RightStrip(s) == s[..|RightStrip(s)|]
    ensures RightStrip(s) == [] || !IsSpace(RightStrip(s)[|RightStrip(s)| - 1])
    ensures forall i :: |RightStrip(s)| <= i < |s| ==> IsSpace(s[i])
    decreases |s|
  {
    if s != [] && IsSpace(s[|s| - 1]) {
      RightStripDrops(s[..|s| - 1]);
    }
  }

  /** `s.strip()`: the piece of `s` between its leading and its trailing whitespace. */
  function Strip(s: string): (r: string)
    ensures |r| <= |s|
  {
    RightStrip(LeftStrip(s))
  }

  /** What `strip` keeps: a stripped infix of `s`, with only whitespace around it. */
  lemma StripIsInfix(s: string)
    ensures Stripped(Strip(s))
    ensures |s| - |LeftStrip(s)| + |Strip(s)| <= |s|
    ensures Strip(s) == s[|s| - |LeftStrip(s)|..|s| - |LeftStrip(s)| + |Strip(s)|]
    ensures forall i :: 0 <= i < |s| - |LeftStrip(s)| ==> IsSpace(s[i])
    ensures forall i :: |s| - |LeftStrip(s)| + |Strip(s)| <= i < |s| ==> IsSpace(s[i])
  {
    var l := LeftStrip(s);
    var r := RightStrip(l);
    LeftStripDrops(s);
    RightStripDrops(l);
    assert r == s[|s| - |l|..][..|r|];
  }

  lemma {:induction false} StripOfStripped(s: string)
    requires Stripped(s)
    ensures Strip(s) == s
  {
  }

  /** Python's reading of an index or slice bound `i` on a string of length `n`. */
  function SliceBound(i: int, n: nat): (b: nat)
    ensures b <= n
    ensures 0 <= i <= n ==> b == i
  {
    if i < 0 then (if i + n < 0 then 0 else i + n) else if i > n then n else i
  }

  /** `s[a:b]` with Python's handling of negative and out-of-range bounds. */
  function Slice(s: string, a: int, b: int): (r: string)
    ensures 0 <= a <= b <= |s| ==> r == s[a..b]
    ensures |r| <= |s|
  {
    var lo := SliceBound(a, |s|);
    var hi := SliceBound(b, |s|);
    if lo < hi then s[lo..hi] else []
  }

  /** `s[i]`: negative indices count from the end; out of range raises IndexError. */
  function Index(s: string, i: int): (r: Outcome<char>)
    ensures 0 <= i < |s| ==> r == Return(s[i])
    ensures -|s| <= i < 0 ==> r == Return(s[|s| + i])
    ensures r.Raise? <==> !(-|s| <= i < |s|)
  {
    if 0 <= i < |s| then Return(s[i])
    else if -|s| <= i < 0 then Return(s[|s| + i])
    else Raise(IndexError)
  }

  predicate IsAsciiLetter(c: char) {
    'a' <= c <= 'z' || 'A' <= c <= 'Z'
  }

  predicate IsAsciiDigit(c: char) {
    '0' <= c <= '9'
  }

  /** `s.isalpha()`, restricted to ASCII letters. */
  predicate IsAlpha(s: string) {
    |s| > 0 && forall i :: 0 <= i < |s| ==> IsAsciiLetter(s[i])
  }

  /** `s.isalnum()`, restricted to ASCII letters and digits. */
  predicate IsAlnum(s: string) {
    |s| > 0 && forall i :: 0 <= i < |s| ==> IsAsciiLetter(s[i]) || IsAsciiDigit(s[i])
  }
}
