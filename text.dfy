/** The pieces of the Java platform the framing code leans on: bytes and the
    default-charset conversion between bytes and strings, String.split with a
    one-character separator, String.valueOf for a non-negative int, and
    Integer.parseInt. */
module Text {

  newtype byte = x: int | 0 <= x < 256

  datatype Option<T> = None | Some(value: T)

  /** The range of a Java int. */
  const MaxInt: int := 0x7fff_ffff
  const MinInt: int := -0x8000_0000

  predicate IsAscii(s: string) {
    forall i :: 0 <= i < |s| ==> s[i] as int < 128
  }

  /** s.getBytes() for an ASCII string: one byte per character. */
  function Bytes(s: string): (b: seq<byte>)
    requires IsAscii(s)
    ensures |b| == |s|
  {
    seq(|s|, i requires 0 <= i < |s| => s[i] as int as byte)
  }

  /** new String(b): every byte decodes to the character with the same code.
      Below 128 this is what UTF-8 does; above, both give a non-ASCII character. */
  function Chars(b: seq<byte>): seq<char> {
    seq(|b|, i requires 0 <= i < |b| => b[i] as int as char)
  }

  lemma BytesAppend(a: string, b: string)
    requires IsAscii(a) && IsAscii(b)
    ensures IsAscii(a + b) && Bytes(a + b) == Bytes(a) + Bytes(b)
  {
  }

  /** new String gives back the ASCII string whose bytes getBytes wrote. */
  lemma CharsOfBytes(s: string)
    requires IsAscii(s)
    ensures Chars(Bytes(s)) == s
  {
  }

  /** Decoding is injective on the encodings of ASCII strings: the only bytes
      that decode to an ASCII string s are the bytes of s. */
  lemma {:induction false} CharsInjective(b: seq<byte>, s: string)
    requires IsAscii(s)
    ensures Chars(b) == s <==> b == Bytes(s)
  {
    if Chars(b) == s {
      forall i | 0 <= i < |b|
        ensures b[i] == Bytes(s)[i]
      {
        assert Chars(b)[i] == s[i];
      }
    }
  }

  // ---------------------------------------------------------------------
  // String.split

  /** The pieces of pieces joined back together with d between them. */
  function Join(pieces: seq<string>, d: char): string
    requires |pieces| >= 1
  {
    if |pieces| == 1 then pieces[0] else pieces[0] + [d] + Join(pieces[1..], d)
  }

  /** Every field of s between occurrences of d, empty ones included: one
      more field than there are d's in s. */
  function Fields(s: string, d: char): (r: seq<string>)
    ensures |r| >= 1
    ensures forall i :: 0 <= i < |r| ==> d !in r[i]
    ensures Join(r, d) == s
  {
    if s == [] then [[]]
    else if s[0] == d then
      var t := Fields(s[1..], d);
      assert Join([[]] + t, d) == [d] + Join(t, d) by { assert ([[]] + t)[1..] == t; }
      [[]] + t
    else
      var t := Fields(s[1..], d);
      var r := [[s[0]] + t[0]] + t[1..];
      assert Join(r, d) == [s[0]] + Join(t, d) by {
        if |t| > 1 { assert r[1..] == t[1..]; }
      }
      r
  }

  lemma {:induction false} FieldsNoSeparator(s: string, d: char)
    requires d !in s
    ensures Fields(s, d) == [s]
  {
    if s != [] {
      FieldsNoSeparator(s[1..], d);
      assert [s[0]] + s[1..] == s;
    }
  }

  /** The first field ends at the first separator. */
  lemma {:induction false} FieldsAt(a: string, d: char, b: string)
    requires d !in a
    ensures Fields(a + [d] + b, d) == [a] + Fields(b, d)
  {
    if a == [] {
      assert (a + [d] + b)[1..] == b;
    } else {
      assert (a + [d] + b)[1..] == a[1..] + [d] + b;
      FieldsAt(a[1..], d, b);
      assert [a[0]] + a[1..] == a;
    }
  }

  /** pieces with its trailing empty strings removed. */
  function DropTrailingEmpty(pieces: seq<string>): (r: seq<string>)
    ensures r <= pieces
    ensures r == [] || r[|r| - 1] != []
    ensures forall i :: |r| <= i < |pieces| ==> pieces[i] == []
  {
    if pieces == [] then []
    else if pieces[|pieces| - 1] != [] then pieces
    else DropTrailingEmpty(pieces[..|pieces| - 1])
  }

  /** Java's s.split(d) for a separator d that is not a regular-expression
      metacharacter: with no d in s the result is s itself; otherwise every
      field, with the trailing empty ones dropped. */
  function Split(s: string, d: char): (r: seq<string>)
    ensures forall i :: 0 <= i < |r| ==> d !in r[i]
    ensures d !in s ==> r == [s]
    ensures d in s ==> r == [] || r[|r| - 1] != []
    ensures d in s ==> r <= Fields(s, d) && forall i :: |r| <= i < |Fields(s, d)| ==> Fields(s, d)[i] == []
  {
    if d !in s then [s] else DropTrailingEmpty(Fields(s, d))
  }

  /** Splitting k=v with a non-empty value and no '=' on either side gives
      exactly the two fields k and v. */
  lemma SplitPair(k: string, v: string)
    requires '=' !in k && '=' !in v && v != []
    ensures Split(k + "=" + v, '=') == [k, v]
  {
    FieldsAt(k, '=', v);
    FieldsNoSeparator(v, '=');
    assert (k + "=" + v)[|k|] == '=';
  }

  // ---------------------------------------------------------------------
  // String.valueOf and Integer.parseInt

  predicate IsDigit(c: char) {
    '0' <= c <= '9'
  }

  predicate AllDigits(s: string) {
    forall i :: 0 <= i < |s| ==> IsDigit(s[i])
  }

  function Digit(d: nat): char
    requires d < 10
  {
    ('0' as int + d) as char
  }

  /** String.valueOf(n) for n >= 0: the decimal digits of n, no leading zero. */
  function Decimal(n: nat): (s: string)
    ensures |s| >= 1 && AllDigits(s)
    ensures IsAscii(s)
    ensures n < 10 <==> |s| == 1
    ensures |s| == 1 || s[0] != '0'
    decreases n
  {
    if n < 10 then [Digit(n)] else Decimal(n / 10) + [Digit(n % 10)]
  }

  /** The number a string of decimal digits denotes. */
  function DigitsValue(s: string): nat
    requires AllDigits(s)
  {
    if s == [] then 0
    else DigitsValue(s[..|s| - 1]) * 10 + (s[|s| - 1] as int - '0' as int)
  }

  /** s without its leading sign, if it has one. */
  function Unsigned(s: string): string {
    if s != [] && (s[0] == '-' || s[0] == '+') then s[1..] else s
  }

  /** The value of a sign and decimal digits, when s has that form. */
  function SignedValue(s: string): int
    requires AllDigits(Unsigned(s))
  {
    if s != [] && s[0] == '-' then -(DigitsValue(Unsigned(s)) as int) else DigitsValue(Unsigned(s))
  }

  /** Integer.parseInt(s): an optional '+' or '-' followed by at least one
      decimal digit, denoting a value within the range of an int. */
  function ParseInt(s: string): (r: Option<int>)
    ensures r.Some? ==> MinInt <= r.value <= MaxInt
  {
    if s == [] then None
    else if s[0] == '-' || s[0] == '+' then
      var digits := s[1..];
      if digits == [] || !AllDigits(digits) then None
      else
        var magnitude: int := DigitsValue(digits);
        var v := if s[0] == '-' then -magnitude else magnitude;
        if MinInt <= v <= MaxInt then Some(v) else None
    else if !AllDigits(s) then None
    else if DigitsValue(s) <= MaxInt then Some(DigitsValue(s))
    else None
  }

  /** parseInt succeeds exactly on an optional sign followed by at least
      one digit whose value fits an int, and returns that value. */
  lemma ParseIntMeaning(s: string)
    ensures ParseInt(s).Some? ==>
              Unsigned(s) != [] && AllDigits(Unsigned(s)) && ParseInt(s).value == SignedValue(s)
    ensures Unsigned(s) != [] && AllDigits(Unsigned(s)) && MinInt <= SignedValue(s) <= MaxInt ==>
              ParseInt(s).Some?
  {
  }

  lemma {:induction false} DecimalValue(n: nat)
    ensures DigitsValue(Decimal(n)) == n
    decreases n
  {
    var s := Decimal(n);
    if n >= 10 {
      DecimalValue(n / 10);
      assert s[..|s| - 1] == Decimal(n / 10);
    }
  }

  /** Integer.parseInt reads back what String.valueOf wrote. */
  lemma ParseDecimal(n: nat)
    requires n <= MaxInt
    ensures ParseInt(Decimal(n)) == Some(n)
  {
    DecimalValue(n);
  }
}
