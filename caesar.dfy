/** The Caesar cipher program (cs50/caesar.c): `main` checks that it got exactly one
    argument made only of decimal digits with a value of at least 1, then shifts every
    letter of the word it reads by that key, keeping its case. Standard input and output
    are replaced by values: the word `scanf` would store and the text `printf`/`putchar`
    would write. */
module Caesar {

  const Usage := "Usage: ./caesar key\n"
  const Prompt := "plaintext (max 128 chars): "
  const Label := "ciphertext: "
  const IntMax := 2147483647

  /** What `main` does: its exit status and everything it writes. */
  datatype Run = Run(status: int, output: string)

  predicate IsDigit(c: char) {
    '0' <= c <= '9'
  }

  predicate AllDigits(s: string) {
    forall i :: 0 <= i < |s| ==> IsDigit(s[i])
  }

  /** The value `atoi` gives a string of decimal digits (0 for the empty string). */
  function DecimalValue(s: string): (v: nat)
    requires AllDigits(s)
  {
    if s == [] then 0 else 10 * DecimalValue(s[..|s| - 1]) + (s[|s| - 1] as int - '0' as int)
  }

  predicate IsLower(c: char) {
    'a' <= c <= 'z'
  }

  predicate IsUpper(c: char) {
    'A' <= c <= 'Z'
  }

  /** The character written for `c` under key `k`. */
  function ShiftChar(c: char, k: nat): (r: char)
    ensures IsLower(c) ==> IsLower(r) && r as int == (c as int - 97 + k) % 26 + 97
    ensures IsUpper(c) ==> IsUpper(r) && r as int == (c as int - 65 + k) % 26 + 65
    ensures !IsLower(c) && !IsUpper(c) ==> r == c
  {
    if IsLower(c) then ((c as int + k - 97) % 26 + 97) as char
    else if IsUpper(c) then ((c as int + k - 65) % 26 + 65) as char
    else c
  }

  /** The ciphertext of `p` under key `k`: each character shifted on its own. */
  function Encipher(p: string, k: nat): (r: string)
    ensures |r| == |p|
    ensures forall i :: 0 <= i < |p| ==> r[i] == ShiftChar(p[i], k)
  {
    seq(|p|, i requires 0 <= i < |p| => ShiftChar(p[i], k))
  }

  /** The white-space characters of the C locale, which end a `%s` word. */
  predicate IsCSpace(c: char) {
    c == ' ' || c == '\t' || c == '\n' || c == '\U{B}' || c == '\U{C}' || c == '\r'
  }

  /** The word `scanf("%s", code)` stores: at least one character (at end of input it
      stores nothing and `code` stays uninitialised), no white space, no NUL, room for it
      and its terminator in the 128-byte buffer, and below 0x80 so that `islower` and
      `isupper` see non-negative `char`s. */
  predicate ScannedWord(p: string) {
    1 <= |p| <= 127 && forall i :: 0 <= i < |p| ==> p[i] != '\0' && !IsCSpace(p[i]) && p[i] < '\U{80}'
  }

  /** The key value cannot make `atoi` or `out + k` overflow `int`. */
  predicate KeyFits(argv: seq<string>) {
    |argv| == 2 && AllDigits(argv[1]) ==> DecimalValue(argv[1]) + 122 <= IntMax
  }

  /** `main(argc, argv)` with `argv[0]` the program name; `plaintext` is the word read. */
  method Program(argv: seq<string>, plaintext: string) returns (run: Run)
    requires KeyFits(argv) && ScannedWord(plaintext)
    ensures |argv| != 2 ==> run == Run(1, Usage)
    ensures |argv| == 2 && !AllDigits(argv[1]) ==> run == Run(1, Usage)
    ensures |argv| == 2 && AllDigits(argv[1]) && DecimalValue(argv[1]) < 1 ==> run == Run(1, Usage)
    ensures |argv| == 2 && AllDigits(argv[1]) && DecimalValue(argv[1]) >= 1 ==>
      run == Run(0, Prompt + Label + Encipher(plaintext, DecimalValue(argv[1])) + "\n")
  {
    if |argv| != 2 {
      return Run(1, Usage);
    }
    var key := argv[1];
    var j := 0;
    while j < |key|
      invariant 0 <= j <= |key|
      invariant forall i :: 0 <= i < j ==> IsDigit(key[i])
    {
      if !IsDigit(key[j]) {
        return Run(1, Usage);
      }
      j := j + 1;
    }
    var k := DecimalValue(key);
    if k < 1 {
      return Run(1, Usage);
    }
    var out := Prompt + Label;
    var i := 0;
    while i < |plaintext|
      invariant 0 <= i <= |plaintext|
      invariant out == Prompt + Label + Encipher(plaintext[..i], k)
    {
      var c := plaintext[i];
      var o := c as int;
      if IsLower(c) {
        o := (o + k - 97) % 26 + 97;
      } else if IsUpper(c) {
        o := (o + k - 65) % 26 + 65;
      }
      assert Encipher(plaintext[..i + 1], k) == Encipher(plaintext[..i], k) + [o as char];
      out := out + [o as char];
      i := i + 1;
    }
    assert plaintext[..i] == plaintext;
    run := Run(0, out + "\n");
  }

  /** Keys that differ by 26 give the same ciphertext. */
  lemma {:induction false} KeyPeriodic(p: string, k: nat)
    ensures Encipher(p, k + 26) == Encipher(p, k)
  {
    forall i | 0 <= i < |p|
      ensures Encipher(p, k + 26)[i] == Encipher(p, k)[i]
    {
      var c := p[i] as int;
      if IsLower(p[i]) {
        assert (c + k + 26 - 97) % 26 == (c + k - 97) % 26 by {
          ModPlus26(c + k - 97);
        }
      } else if IsUpper(p[i]) {
        assert (c + k + 26 - 65) % 26 == (c + k - 65) % 26 by {
          ModPlus26(c + k - 65);
        }
      }
    }
  }

  lemma ModPlus26(x: int)
    ensures (x + 26) % 26 == x % 26
  {
  }

  /** Shifting again by the complementary key gives the plaintext back. */
  lemma {:induction false} DecipherRoundTrip(p: string, k: nat)
    ensures Encipher(Encipher(p, k), 26 - k % 26) == p
  {
    var e := Encipher(p, k);
    var d := Encipher(e, 26 - k % 26);
    forall i | 0 <= i < |p|
      ensures d[i] == p[i]
    {
      var c := p[i] as int;
      if IsLower(p[i]) {
        ShiftBack(c - 97, k);
      } else if IsUpper(p[i]) {
        ShiftBack(c - 65, k);
      }
    }
  }

  lemma ShiftBack(x: int, k: nat)
    requires 0 <= x < 26
    ensures ((x + k) % 26 + (26 - k % 26)) % 26 == x
  {
    var q := k / 26;
    assert k == 26 * q + k % 26;
    var y := x + k % 26;
    assert (x + k) % 26 == y % 26 by {
      assert x + k == y + 26 * q;
    }
  }
}
