/** The base-27 text codec of main.cpp: `stringToInt` reads a string as a
    base-27 numeral, most significant digit first (space is 0, A..Z are
    1..26, lower case folded to upper case); `intToString` writes the digits
    of a number least significant first and reverses the buffer in place. */
module TextCodec {
  import opened ModArith

  /** Longest message `StringToInt` accepts: 27^11 < 2^53, so below it the
      source's `pow(27, power)` and its floating-point sum are exact. */
  const MaxLength: nat := 11
  /** 2^53: the first integer past which a double skips integers. */
  const DoubleExact: nat := 0x20_0000_0000_0000

  /** The characters `stringToInt` gives a digit code in 0..26. */
  predicate InAlphabet(c: char) {
    c == ' ' || 'A' <= c <= 'Z' || 'a' <= c <= 'z'
  }

  predicate IsText(s: string) {
    forall i :: 0 <= i < |s| ==> InAlphabet(s[i])
  }

  /** The characters `intToString` produces. */
  predicate IsDigitChar(c: char) {
    c == ' ' || 'A' <= c <= 'Z'
  }

  /** What `intToString` can produce: digit characters, no leading space. */
  predicate IsCanonical(s: string) {
    && (forall i :: 0 <= i < |s| ==> IsDigitChar(s[i]))
    && (s == [] || s[0] != ' ')
  }

  /** C's `toupper` on the ASCII letters. */
  function ToUpper(c: char): char {
    if 'a' <= c <= 'z' then (c as int - 32) as char else c
  }

  function Upper(s: string): (r: string)
    ensures |r| == |s|
  {
    seq(|s|, i requires 0 <= i < |s| => ToUpper(s[i]))
  }

  function StripLeadingSpaces(s: string): string {
    if s != [] && s[0] == ' ' then StripLeadingSpaces(s[1..]) else s
  }

  /** The digit of one character (main.cpp line 38-39). */
  function CharCode(c: char): (d: nat)
    requires InAlphabet(c)
    ensures d < 27
    ensures d == 0 <==> c == ' '
  {
    if c == ' ' then 0 else ToUpper(c) as int - 64
  }

  /** The character of one digit (main.cpp line 54-56). */
  function DigitChar(d: nat): (c: char)
    requires d < 27
    ensures IsDigitChar(c) && CharCode(c) == d
  {
    if d == 0 then ' ' else (d + 64) as char
  }

  /** Lower-case letters get the digit of their upper-case form. */
  lemma CharCodeUpper(c: char)
    requires InAlphabet(c)
    ensures InAlphabet(ToUpper(c)) && CharCode(ToUpper(c)) == CharCode(c)
  {
  }

  lemma CharCodeRoundTrip(c: char)
    requires IsDigitChar(c)
    ensures DigitChar(CharCode(c)) == c
  {
  }

  /** The value of s read as a base-27 numeral, first character most
      significant, by Horner's rule: each further character multiplies the
      value so far by 27 and adds its digit. EncodeLeading shows the sum form
      CharCode(s[i]) * 27^(|s|-1-i) that `stringToInt` accumulates. */
  function Encode(s: string): (v: nat)
    requires IsText(s)
    ensures v < Pow(27, |s|)
  {
    if s == [] then 0
    else
      var rest := Encode(s[..|s| - 1]);
      assert Pow(27, |s|) == 27 * Pow(27, |s| - 1);
      27 * rest + CharCode(s[|s| - 1])
  }

  /** The digits of e, most significant first; 0 has none. */
  function Decode(e: nat): (s: string)
    ensures IsCanonical(s)
    ensures e == 0 <==> s == []
  {
    if e == 0 then [] else Decode(e / 27) + [DigitChar(e % 27)]
  }

  function Reversed(s: string): (r: string)
    ensures |r| == |s|
  {
    if s == [] then [] else [s[|s| - 1]] + Reversed(s[..|s| - 1])
  }

  lemma {:induction false} ReversedAt(s: string, k: nat)
    requires k < |s|
    ensures Reversed(s)[k] == s[|s| - 1 - k]
  {
    if k > 0 {
      ReversedAt(s[..|s| - 1], k - 1);
    }
  }

  /** Appending a digit multiplies by 27 and adds it. */
  lemma EncodeSnoc(t: string, c: char)
    requires IsText(t) && InAlphabet(c)
    ensures IsText(t + [c])
    ensures Encode(t + [c]) == 27 * Encode(t) + CharCode(c)
  {
    assert (t + [c])[..|t|] == t;
  }

  /** Distributing the base 27 over one digit term, proved apart from the
      sequence context of EncodeLeading, where the solver finds it slowly. */
  lemma ShiftDigit(d0: int, w: int, e1: int)
    ensures 27 * (d0 * w + e1) == d0 * (27 * w) + 27 * e1
  {
  }

  /** The first character contributes its digit times 27^(|s|-1): the
      positional sum that `stringToInt` accumulates. */
  lemma {:induction false} EncodeLeading(s: string)
    requires IsText(s) && s != []
    ensures IsText(s[1..])
    ensures Encode(s) == CharCode(s[0]) * Pow(27, |s| - 1) + Encode(s[1..])
    decreases |s|
  {
    if |s| > 1 {
      var u, c := s[..|s| - 1], s[|s| - 1];
      assert s == u + [c] && u[0] == s[0];
      assert s[1..] == u[1..] + [c];
      EncodeLeading(u);
      EncodeSnoc(u[1..], c);
      var w := Pow(27, |u| - 1);
      assert Pow(27, |s| - 1) == 27 * w;
      ShiftDigit(CharCode(s[0]), w, Encode(u[1..]));
    } else {
      assert s[..0] == [] && s[1..] == [];
    }
  }

  /** A leading space is a leading zero digit: it does not change the value. */
  lemma {:induction false} EncodeStrip(s: string)
    requires IsText(s)
    ensures IsText(StripLeadingSpaces(s))
    ensures Encode(StripLeadingSpaces(s)) == Encode(s)
  {
    if s != [] && s[0] == ' ' {
      EncodeStrip(s[1..]);
      EncodeLeading(s);
    }
  }

  /** Lower-case letters encode like upper-case ones. */
  lemma {:induction false} EncodeUpper(s: string)
    requires IsText(s)
    ensures IsText(Upper(s))
    ensures Encode(Upper(s)) == Encode(s)
  {
    if s != [] {
      var u := s[..|s| - 1];
      assert Upper(s)[..|s| - 1] == Upper(u);
      EncodeUpper(u);
      CharCodeUpper(s[|s| - 1]);
    }
  }

  lemma {:induction false} UpperStrip(s: string)
    requires IsText(s)
    ensures IsText(StripLeadingSpaces(s))
    ensures Upper(StripLeadingSpaces(s)) == StripLeadingSpaces(Upper(s))
  {
    if s != [] && s[0] == ' ' {
      assert Upper(s)[1..] == Upper(s[1..]);
      UpperStrip(s[1..]);
    }
  }

  /** A numeral whose first digit is not 0 has a positive value. */
  lemma {:induction false} EncodePositive(t: string)
    requires IsText(t) && t != [] && t[0] != ' '
    ensures Encode(t) > 0
    decreases |t|
  {
    var u := t[..|t| - 1];
    if u != [] {
      assert u[0] == t[0];
      EncodePositive(u);
    }
  }

  /** The digits of 27*x + d are those of x followed by d. */
  lemma DecodeAppendDigit(x: nat, d: nat)
    requires d < 27 && 27 * x + d > 0
    ensures Decode(27 * x + d) == Decode(x) + [DigitChar(d)]
  {
    var e := 27 * x + d;
    assert e / 27 == x && e % 27 == d;
  }

  /** intToString undoes stringToInt on every string intToString can produce. */
  lemma {:induction false} DecodeEncodeCanonical(t: string)
    requires IsCanonical(t)
    ensures IsText(t) && Decode(Encode(t)) == t
    decreases |t|
  {
    if t != [] {
      var u, c := t[..|t| - 1], t[|t| - 1];
      assert t == u + [c];
      assert IsCanonical(u) by {
        assert u != [] ==> u[0] == t[0];
      }
      DecodeEncodeCanonical(u);
      EncodeSnoc(u, c);
      var x, d := Encode(u), CharCode(c);
      if u == [] {
        assert c == t[0] && d > 0;
      } else {
        EncodePositive(u);
      }
      DecodeAppendDigit(x, d);
      CharCodeRoundTrip(c);
      calc {
        Decode(Encode(t));
        Decode(27 * x + d);
        Decode(x) + [DigitChar(d)];
        u + [c];
      }
    }
  }

  /** intToString(stringToInt(s)) is s upper-cased and stripped of its
      leading spaces, which encode as leading zero digits. */
  lemma DecodeEncode(s: string)
    requires IsText(s)
    ensures Decode(Encode(s)) == Upper(StripLeadingSpaces(s))
  {
    EncodeStrip(s);
    UpperStrip(s);
    var t := Upper(StripLeadingSpaces(s));
    EncodeUpper(StripLeadingSpaces(s));
    assert IsCanonical(t) by {
      StripNoLeadingSpace(Upper(s));
    }
    DecodeEncodeCanonical(t);
  }

  lemma {:induction false} StripNoLeadingSpace(s: string)
    requires forall i :: 0 <= i < |s| ==> IsDigitChar(s[i])
    ensures IsCanonical(StripLeadingSpaces(s))
  {
    if s != [] && s[0] == ' ' {
      StripNoLeadingSpace(s[1..]);
    }
  }

  /** stringToInt undoes intToString for every number. */
  lemma {:induction false} EncodeDecode(e: nat)
    ensures IsText(Decode(e)) && Encode(Decode(e)) == e
  {
    if e > 0 {
      EncodeDecode(e / 27);
      EncodeSnoc(Decode(e / 27), DigitChar(e % 27));
    }
  }

  /** A number below 27^k has at most k digits. */
  lemma {:induction false} DecodeLength(e: nat, k: nat)
    requires e < Pow(27, k)
    ensures |Decode(e)| <= k
  {
    if e > 0 {
      assert k > 0;
      assert e / 27 < Pow(27, k - 1);
      DecodeLength(e / 27, k - 1);
    }
  }

  lemma {:induction false} PowMonotone(x: nat, y: nat, z: nat)
    requires x > 0 && y <= z
    ensures Pow(x, y) <= Pow(x, z)
    decreases z
  {
    if y < z {
      PowMonotone(x, y, z - 1);
      PowPositive(x, z - 1);
    }
  }

  /** Every digit weight 27^power of a message of up to MaxLength characters
      is below 2^53, where doubles represent integers exactly; the bound on
      the running sum is StringToInt's `sum < Pow(27, |s|)`. */
  lemma WeightsExact(n: nat)
    requires n <= MaxLength
    ensures Pow(27, n) <= Pow(27, MaxLength) < DoubleExact
  {
    PowMonotone(27, n, MaxLength);
  }

  /** Peeling the first character off a suffix of s. */
  lemma EncodeSuffix(s: string, i: nat)
    requires IsText(s) && i < |s|
    ensures IsText(s[i..]) && IsText(s[i + 1..])
    ensures CharCode(s[i]) * Pow(27, |s| - 1 - i) >= 0
    ensures Encode(s[i..]) == CharCode(s[i]) * Pow(27, |s| - 1 - i) + Encode(s[i + 1..])
  {
    var t := s[i..];
    assert t[0] == s[i] && t[1..] == s[i + 1..] && |t| - 1 == |s| - 1 - i;
    EncodeLeading(t);
    PowNonNegative(27, |t| - 1);
    assert CharCode(s[i]) * Pow(27, |t| - 1) >= 0;
  }

  /** `stringToInt` (main.cpp): sum += charCode * 27^power, power counting
      down from |s| - 1, over the characters left to right. */
  method StringToInt(s: string) returns (sum: nat)
    requires IsText(s) && |s| <= MaxLength
    ensures sum == Encode(s)
    ensures sum < Pow(27, |s|) < DoubleExact
  {
    WeightsExact(|s|);
    sum := 0;
    var power: int := |s| - 1;
    for i := 0 to |s|
      invariant power == |s| - 1 - i
      invariant sum + Encode(s[i..]) == Encode(s)
    {
      EncodeSuffix(s, i);
      var charCode := CharCode(s[i]);
      sum := sum + charCode * Pow(27, power);
      power := power - 1;
    }
    assert s[|s|..] == [];
  }

  lemma ReversedSnoc(s: string, c: char)
    ensures Reversed(s + [c]) == [c] + Reversed(s)
  {
    assert (s + [c])[..|s|] == s;
  }

  /** `std::reverse` on the output buffer, performed in place. */
  method ReverseInPlace(a: array<char>)
    modifies a
    ensures a[..] == Reversed(old(a[..]))
  {
    var i, j := 0, a.Length - 1;
    while i < j
      invariant 0 <= i && j == a.Length - 1 - i && i <= j + 1
      invariant forall k :: 0 <= k < i ==> a[k] == old(a[a.Length - 1 - k])
      invariant forall k :: 0 <= k < i ==> a[a.Length - 1 - k] == old(a[k])
      invariant forall k :: i <= k <= j ==> a[k] == old(a[k])
    {
      a[i], a[j] := a[j], a[i];
      i, j := i + 1, j - 1;
    }
    ghost var before := old(a[..]);
    forall k | 0 <= k < a.Length
      ensures a[k] == Reversed(before)[k]
    {
      ReversedAt(before, k);
    }
  }

  /** `intToString` (main.cpp): emit e % 27 as a character and divide by 27
      until e is 0, then reverse what was emitted. */
  method IntToString(e0: nat) returns (out: string)
    requires e0 < U64
    ensures out == Decode(e0)
  {
    var e := e0;
    var buffer: string := [];
    while e != 0
      invariant Decode(e0) == Decode(e) + Reversed(buffer)
      decreases e
    {
      var c := DigitChar(e % 27);
      ReversedSnoc(buffer, c);
      assert Decode(e) == Decode(e / 27) + [c];
      assert (Decode(e / 27) + [c]) + Reversed(buffer) == Decode(e / 27) + ([c] + Reversed(buffer));
      buffer := buffer + [c];
      e := e / 27;
    }
    var a := new char[|buffer|](i requires 0 <= i < |buffer| => buffer[i]);
    assert a[..] == buffer;
    ReverseInPlace(a);
    out := a[..];
  }
}
