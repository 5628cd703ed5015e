/**
 * The pieces of JavaScript's string, number and Buffer semantics that the Y4M code relies on:
 * bytes, integer-or-NaN numbers, `parseInt` on decimal text, number printing, `String.split`,
 * `indexOf`, and the `'ascii'` encoding of Node's Buffer.
 */
module Text {
  import opened Wrappers

  /** One 8-bit sample or stream byte (an element of a Node Buffer). */
  newtype byte = x: int | 0 <= x < 256

  /**
   * A JavaScript number as the Y4M code uses it: an integer, NaN, or `undefined` (a header
   * field that no tag set). `undefined` behaves like NaN in arithmetic but prints differently.
   */
  datatype Num = Int(value: int) | NaN | Undefined

  predicate IsDigit(c: char) {
    '0' <= c <= '9'
  }

  predicate AllDigits(s: string) {
    forall i | 0 <= i < |s| :: IsDigit(s[i])
  }

  function DigitChar(d: nat): (c: char)
    requires d < 10
    ensures IsDigit(c) && (c as int) - ('0' as int) == d
  {
    ('0' as int + d) as char
  }

  /** The value of a string of decimal digits, most significant digit first. */
  function DecimalValue(s: string): nat
    requires AllDigits(s)
  {
    if s == [] then 0 else DecimalValue(s[..|s| - 1]) * 10 + ((s[|s| - 1] as int) - ('0' as int))
  }

  /**
   * `parseInt(s)` for the inputs the Y4M code produces: a non-empty run of decimal digits gives
   * its value, anything else gives NaN.
   */
  function ParseInt(s: string): (r: Num)
    ensures r.Int? <==> |s| > 0 && AllDigits(s)
    ensures r.Int? ==> r.value >= 0
  {
    if |s| > 0 && AllDigits(s) then Int(DecimalValue(s)) else NaN
  }

  /** Decimal rendering of a natural number, as JavaScript's template strings print it. */
  function NatToString(n: nat): (s: string)
    ensures |s| > 0 && AllDigits(s)
  {
    if n < 10 then [DigitChar(n)] else NatToString(n / 10) + [DigitChar(n % 10)]
  }

  /** `${x}` for a number: its decimal digits (with a minus sign when negative), `NaN` or `undefined`. */
  function NumToString(x: Num): (s: string)
    ensures |s| > 0
    ensures x.Int? && x.value >= 0 ==> AllDigits(s)
    ensures x.Int? && x.value < 0 ==> s[0] == '-' && AllDigits(s[1..])
    ensures !x.Int? ==> !IsDigit(s[0])
  {
    match x
    case NaN => "NaN"
    case Undefined => "undefined"
    case Int(n) => if n < 0 then "-" + NatToString(-n) else NatToString(n)
  }

  /** Values of header fields: never a negative integer. */
  predicate Unsigned(x: Num) {
    x.Int? ==> x.value >= 0
  }

  /** What `parseInt` makes of a printed field: `undefined` prints as a word and parses as NaN. */
  function Reparsed(x: Num): Num {
    if x.Undefined? then NaN else x
  }

  lemma {:induction false} DecimalOfNatToString(n: nat)
    ensures DecimalValue(NatToString(n)) == n
  {
    if n >= 10 {
      var s := NatToString(n);
      assert s[..|s| - 1] == NatToString(n / 10);
      DecimalOfNatToString(n / 10);
    }
  }

  /**
   * Printing a field and parsing it back with `parseInt` gives the field again, except that
   * `undefined` comes back as NaN.
   */
  lemma ParseIntOfNumToString(x: Num)
    requires Unsigned(x)
    ensures ParseInt(NumToString(x)) == Reparsed(x)
    ensures !x.Undefined? ==> ParseInt(NumToString(x)) == x
  {
    match x
    case NaN =>
    case Undefined =>
    case Int(n) => DecimalOfNatToString(n);
  }

  lemma NumToStringHasNoChar(x: Num, c: char)
    requires !IsDigit(c) && c !in "-NaNundefined"
    ensures c !in NumToString(x)
  {
  }

  lemma NumToStringIsAscii(x: Num)
    ensures forall i | 0 <= i < |NumToString(x)| :: NumToString(x)[i] as int < 128
  {
  }

  /** Number of occurrences of `c` in `s`. */
  function Count(s: string, c: char): nat {
    if s == [] then 0 else (if s[0] == c then 1 else 0) + Count(s[1..], c)
  }

  /** `s.indexOf(c)`: the first position of `c`, or -1 when `c` does not occur. */
  function IndexOf<T(==)>(s: seq<T>, c: T): (i: int)
    ensures -1 <= i < |s|
    ensures i >= 0 ==> s[i] == c && c !in s[..i]
    ensures i == -1 <==> c !in s
  {
    if s == [] then -1
    else if s[0] == c then 0
    else
      var k := IndexOf(s[1..], c);
      if k == -1 then -1 else assert s[..k + 1] == [s[0]] + s[1..][..k]; k + 1
  }

  /** Bytes appended after an occurrence do not move the first occurrence. */
  lemma IndexOfAppend<T>(s: seq<T>, t: seq<T>, c: T)
    requires c in s
    ensures IndexOf(s + t, c) == IndexOf(s, c)
  {
    var i := IndexOf(s, c);
    assert (s + t)[..i] == s[..i];
    assert (s + t)[i] == c;
  }

  /** `parts[0] + sep + parts[1] + sep + ...`: the inverse of `Split`. */
  function Join(parts: seq<string>, sep: char): string
    requires |parts| > 0
  {
    if |parts| == 1 then parts[0] else parts[0] + [sep] + Join(parts[1..], sep)
  }

  /** The joined text ends with the last piece. */
  lemma {:induction false} JoinEndsWithLast(parts: seq<string>, sep: char)
    requires |parts| > 0
    ensures |Join(parts, sep)| >= |parts[|parts| - 1]|
    ensures Join(parts, sep)[|Join(parts, sep)| - |parts[|parts| - 1]|..] == parts[|parts| - 1]
  {
    if |parts| > 1 {
      JoinEndsWithLast(parts[1..], sep);
      var j := Join(parts[1..], sep);
      var last := parts[|parts| - 1];
      assert parts[1..][|parts| - 2] == last;
      var s := parts[0] + [sep] + j;
      assert s[|s| - |last|..] == j[|j| - |last|..];
    }
  }

  /**
   * `s.split(sep)` for a one-character separator: the pieces between the separators, one more
   * piece than there are separators (so `"".split(sep)` is `[""]`).
   */
  function Split(s: string, sep: char): (parts: seq<string>)
    ensures |parts| == Count(s, sep) + 1
    ensures forall k | 0 <= k < |parts| :: sep !in parts[k]
    ensures Join(parts, sep) == s
  {
    if s == [] then [""]
    else if s[0] == sep then
      var rest := Split(s[1..], sep);
      assert Join([""] + rest, sep) == [sep] + Join(rest, sep) by { assert ([""] + rest)[1..] == rest; }
      [""] + rest
    else
      var rest := Split(s[1..], sep);
      var r := [[s[0]] + rest[0]] + rest[1..];
      assert Join(r, sep) == s by {
        if |rest| > 1 { assert r[1..] == rest[1..]; }
      }
      r
  }

  /** Splitting text made of separator-free pieces joined by the separator gives back the pieces. */
  lemma {:induction false} SplitJoin(parts: seq<string>, sep: char)
    requires |parts| > 0
    requires forall k | 0 <= k < |parts| :: sep !in parts[k]
    ensures Split(Join(parts, sep), sep) == parts
  {
    if |parts| == 1 {
      SplitNoSep(parts[0], sep);
    } else {
      SplitJoin(parts[1..], sep);
      SplitAfter(parts[0], Join(parts[1..], sep), sep);
      assert Join(parts, sep) == parts[0] + ([sep] + Join(parts[1..], sep));
      assert [parts[0]] + parts[1..] == parts;
    }
  }

  lemma {:induction false} SplitNoSep(t: string, sep: char)
    requires sep !in t
    ensures Split(t, sep) == [t]
  {
    if t != [] {
      SplitNoSep(t[1..], sep);
      assert [t[0]] + t[1..] == t;
    }
  }

  /** A separator-free prefix followed by a separator becomes the first piece of the split. */
  lemma {:induction false} SplitAfter(t: string, rest: string, sep: char)
    requires sep !in t
    ensures Split(t + ([sep] + rest), sep) == [t] + Split(rest, sep)
  {
    if t == [] {
      assert t + ([sep] + rest) == [sep] + rest;
      assert ([sep] + rest)[1..] == rest;
    } else {
      var s := t + ([sep] + rest);
      assert s[1..] == t[1..] + ([sep] + rest);
      SplitAfter(t[1..], rest, sep);
      assert [t[0]] + t[1..] == t;
    }
  }

  /** Node's `Buffer.from(s, 'ascii')`: each character keeps the low 8 bits of its code. */
  function AsciiEncode(s: string): (b: seq<byte>)
    ensures |b| == |s|
    ensures forall i {:trigger b[i]} | 0 <= i < |s| && s[i] as int < 128 :: b[i] as int == s[i] as int
  {
    seq(|s|, i requires 0 <= i < |s| => ((s[i] as int) % 256) as byte)
  }

  /** Node's `buf.toString('ascii')`: each byte loses its high bit and becomes a character. */
  function AsciiDecode(b: seq<byte>): (s: string)
    ensures |s| == |b| && IsAscii(s)
    ensures forall i {:trigger s[i]} | 0 <= i < |b| && b[i] < 128 :: s[i] as int == b[i] as int
  {
    seq(|b|, i requires 0 <= i < |b| => ((b[i] as int) % 128) as char)
  }

  predicate IsAscii(s: string) {
    forall i | 0 <= i < |s| :: s[i] as int < 128
  }

  /** Encoding 7-bit text into a Buffer and decoding it again is the identity. */
  lemma AsciiRoundTrip(s: string)
    requires IsAscii(s)
    ensures AsciiDecode(AsciiEncode(s)) == s
  {
    var d := AsciiDecode(AsciiEncode(s));
    forall i | 0 <= i < |s| ensures d[i] == s[i] {
      assert (s[i] as int) % 256 % 128 == s[i] as int;
    }
  }
}
