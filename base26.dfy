/**
  The link-code codec `usize_to_base26` / `base26_to_usize` imported by src/app.rs.
  Codes are bijective base-26 numerals over 'a'..'z' for n + 1, so that link 0 is "a",
  link 25 is "z" and link 26 is "aa".  Decoding rejects the empty string and any string
  holding a character outside 'a'..'z'.
*/
module Base26 {
  import opened Wrappers

  predicate IsLower(c: char) {
    'a' <= c <= 'z'
  }

  /** A non-empty string of lower-case ASCII letters: exactly the strings a code can be. */
  predicate IsCodeString(s: string) {
    |s| > 0 && forall i :: 0 <= i < |s| ==> IsLower(s[i])
  }

  /** The letter for digit value `d + 1`. */
  function Letter(d: nat): (c: char)
    requires d < 26
    ensures IsLower(c) && c as int - 'a' as int == d
  {
    ('a' as int + d) as char
  }

  /** The digit value (1 to 26) of a lower-case letter. */
  function Digit(c: char): (d: nat)
    requires IsLower(c)
    ensures 1 <= d <= 26
  {
    c as int - 'a' as int + 1
  }

  /** `usize_to_base26`: the code of link number `n`. */
  function Encode(n: nat): (s: string)
    ensures IsCodeString(s)
    ensures n < 26 <==> |s| == 1
  {
    if n < 26 then [Letter(n)] else Encode(n / 26 - 1) + [Letter(n % 26)]
  }

  /** The value of a bijective base-26 numeral; the empty numeral is worth 0. */
  function Value(s: string): (v: nat)
    requires forall i :: 0 <= i < |s| ==> IsLower(s[i])
    ensures s != [] ==> v >= 1
  {
    if s == [] then 0 else Value(s[..|s| - 1]) * 26 + Digit(s[|s| - 1])
  }

  /** `base26_to_usize`: the link number a code denotes, or `None` for a string that is no code. */
  function Decode(s: string): (r: Option<nat>)
    ensures r.Some? <==> IsCodeString(s)
  {
    if IsCodeString(s) then Some(Value(s) - 1) else None
  }

  lemma {:induction false} ValueOfEncode(n: nat)
    ensures Value(Encode(n)) == n + 1
    decreases n
  {
    var s := Encode(n);
    if n < 26 {
      assert s[..0] == [];
    } else {
      var q, r := n / 26 - 1, n % 26;
      assert s[..|s| - 1] == Encode(q);
      ValueOfEncode(q);
      assert Value(s) == (q + 1) * 26 + r + 1;
    }
  }

  /** Decoding a code gives back the number it was made from. */
  lemma DecodeEncode(n: nat)
    ensures Decode(Encode(n)) == Some(n)
  {
    ValueOfEncode(n);
  }

  /** Every code string is the code of the number it decodes to. */
  lemma {:induction false} EncodeDecode(s: string)
    requires IsCodeString(s)
    ensures Decode(s).Some? && Encode(Decode(s).value) == s
    decreases |s|
  {
    var p, c := s[..|s| - 1], s[|s| - 1];
    assert Decode(s) == Some(Value(p) * 26 + Digit(c) - 1);
    if |s| == 1 {
      assert p == [] && s == [c];
      assert Letter(Digit(c) - 1) == c;
      assert Encode(Digit(c) - 1) == [c];
    } else {
      CodePrefix(s);
      EncodeDecode(p);
      assert Encode(Value(p) - 1) == p;
      EncodeSnoc(Value(p), c);
      SplitLast(s);
    }
  }

  /** Dropping the last letter of a code of two or more letters leaves a code. */
  lemma CodePrefix(s: string)
    requires IsCodeString(s) && |s| > 1
    ensures IsCodeString(s[..|s| - 1])
  {
    var p := s[..|s| - 1];
    forall i | 0 <= i < |p| ensures IsLower(p[i]) { assert p[i] == s[i]; }
  }

  /** A non-empty string is its front followed by its last character. */
  lemma SplitLast(s: string)
    requires s != []
    ensures s == s[..|s| - 1] + [s[|s| - 1]]
  {
  }

  /** Appending letter `c` to the code of `a - 1` gives the code of the numeral's value minus one. */
  lemma EncodeSnoc(a: nat, c: char)
    requires a >= 1 && IsLower(c)
    ensures Encode(a * 26 + Digit(c) - 1) == Encode(a - 1) + [c]
  {
    var d := Digit(c);
    SplitDigit(a, d);
    assert Letter(d - 1) == c;
  }

  /** The last digit and the rest of a numeral whose last digit is worth `d`. */
  lemma SplitDigit(a: nat, d: nat)
    requires a >= 1 && 1 <= d <= 26
    ensures (a * 26 + d - 1) / 26 == a && (a * 26 + d - 1) % 26 == d - 1
    ensures a * 26 + d - 1 >= 26
  {
  }

  /** Distinct link numbers get distinct codes, so no link in the index overwrites another. */
  lemma EncodeInjective(m: nat, n: nat)
    ensures Encode(m) == Encode(n) <==> m == n
  {
    if Encode(m) == Encode(n) {
      DecodeEncode(m);
      DecodeEncode(n);
    }
  }

  /** The first codes, in the order links receive them. */
  lemma FirstCodes()
    ensures Encode(0) == "a" && Encode(1) == "b" && Encode(25) == "z"
    ensures Encode(26) == "aa" && Encode(27) == "ab" && Encode(701) == "zz" && Encode(702) == "aaa"
  {
  }
}
