/** Numbers as text: itoa, atoi and hex_to_string. */
module Numbers {
  import opened Bytes
  import opened Strings

  type i32 = x: int | -0x8000_0000 <= x < 0x8000_0000

  /** The signed 32-bit integer that x wraps around to. */
  function Wrap32(x: int): (r: i32)
    ensures -0x8000_0000 <= x < 0x8000_0000 ==> r == x
  {
    (x + 0x8000_0000) % 0x1_0000_0000 - 0x8000_0000
  }

  lemma Wraps(x: int) returns (k: int)
    ensures Wrap32(x) == x + k * 0x1_0000_0000
  {
    k := -((x + 0x8000_0000) / 0x1_0000_0000);
  }

  lemma WrapUnique(x: int, y: int, k: int)
    requires y == x + k * 0x1_0000_0000
    ensures Wrap32(y) == Wrap32(x)
  {
  }

  /** Wrapping at every step is wrapping once. */
  lemma WrapStep(x: int, y: int, c: int)
    requires y == Wrap32(x)
    ensures Wrap32(Wrap32(Wrap32(y * 10) + c) - 48) == Wrap32(x * 10 + (c - 48))
  {
    var i := Wraps(x);
    var j := Wraps(y * 10);
    var k := Wraps(Wrap32(y * 10) + c);
    WrapUnique(x * 10 + (c - 48), Wrap32(Wrap32(y * 10) + c) - 48, 10 * i + j + k);
  }

  // ----- decimal text

  /** What a text of characters stands for in base 10; the source does not check that they are digits. */
  function Value(s: seq<byte>): int {
    if s == [] then 0 else Value(s[..|s| - 1]) * 10 + (SignedChar(s[|s| - 1]) - 48)
  }

  predicate IsDigit(c: byte) {
    48 <= c <= 57
  }

  predicate AllDigits(s: seq<byte>) {
    forall i :: 0 <= i < |s| ==> IsDigit(s[i])
  }

  /** A decimal numeral without superfluous zeros. */
  predicate IsNumeral(s: seq<byte>) {
    s != [] && AllDigits(s) && (s[0] == 48 ==> |s| == 1)
  }

  /** The decimal form of n. */
  function Decimal(n: nat): (s: seq<byte>)
    ensures s != []
  {
    if n < 10 then [48 + n] else Decimal(n / 10) + [48 + n % 10]
  }

  function Pow10(k: nat): nat {
    if k == 0 then 1 else 10 * Pow10(k - 1)
  }

  lemma {:induction false} DigitsBound(s: seq<byte>)
    requires AllDigits(s)
    ensures 0 <= Value(s) < Pow10(|s|)
  {
    if s != [] {
      DigitsBound(s[..|s| - 1]);
    }
  }

  lemma {:induction false} DecimalIsNumeral(n: nat)
    ensures IsNumeral(Decimal(n)) && Value(Decimal(n)) == n
    ensures n > 0 ==> Decimal(n)[0] != 48
  {
    if n < 10 {
      assert Value([48 + n]) == Value([]) * 10 + n;
    } else {
      DecimalIsNumeral(n / 10);
      assert Decimal(n)[..|Decimal(n)| - 1] == Decimal(n / 10);
    }
  }

  /** A numeral that stands for n is the decimal form of n: the form is unique. */
  lemma {:induction false} NumeralUnique(s: seq<byte>)
    requires IsNumeral(s)
    ensures Value(s) >= 0 && Decimal(Value(s)) == s
    decreases |s|
  {
    DigitsBound(s);
    var t, c := s[..|s| - 1], s[|s| - 1];
    DigitsBound(t);
    if t != [] {
      NumeralUnique(t);
      assert t[0] == s[0];
      if Value(t) == 0 {
        assert false;
      }
      assert Value(s) / 10 == Value(t) && Value(s) % 10 == c - 48;
    }
    assert s == t + [c];
  }

  /** No text of digits for n is shorter than its decimal form. */
  lemma {:induction false} DecimalShortest(s: seq<byte>)
    requires s != [] && AllDigits(s)
    ensures Value(s) >= 0 && |Decimal(Value(s))| <= |s|
    decreases |s|
  {
    DigitsBound(s);
    var t := s[..|s| - 1];
    DigitsBound(t);
    if t != [] {
      DecimalShortest(t);
      assert Value(s) / 10 == Value(t);
    }
  }

  lemma {:induction false} DecimalLength(n: nat, k: nat)
    requires k > 0
    ensures |Decimal(n)| <= k <==> n < Pow10(k)
  {
    if n >= 10 {
      if k == 1 {
        assert Pow10(1) == 10 * Pow10(0);
      } else {
        DecimalLength(n / 10, k - 1);
      }
    } else {
      Pow10Grows(k);
    }
  }

  lemma {:induction false} Pow10Grows(k: nat)
    requires k > 0
    ensures Pow10(k) >= 10
  {
    if k > 1 {
      Pow10Grows(k - 1);
    }
  }

  /** What itoa leaves in its buffer before the NUL. */
  function Form(n: int): seq<byte> {
    if n < 0 then [45] + Decimal(-n) else Decimal(n)
  }

  /** A non-negative number needs ten digits, and the sign makes eleven. */
  lemma FormFits(n: i32)
    ensures IsCString(Form(n)) && |Form(n)| <= if n < 0 then 11 else 10
    ensures n < 0 ==> Form(n) == ['-' as int] + Form(-(n as int))
  {
    var m: nat := if n < 0 then -(n as int) else n;
    DecimalIsNumeral(m);
    DecimalLength(m, 10);
    assert Pow10(5) == 100_000;
    assert Pow10(10) == 10_000_000_000;
  }

  /** The results of math go to a buffer of ten characters: the form and its NUL fit exactly in this range. */
  lemma FormFitsTen(n: i32)
    ensures |Form(n)| < 10 <==> -99_999_999 <= n <= 999_999_999
  {
    var m: nat := if n < 0 then -(n as int) else n;
    assert Pow10(4) == 10_000;
    assert Pow10(8) == 100_000_000;
    if n < 0 {
      DecimalLength(m, 8);
    } else {
      DecimalLength(m, 9);
    }
  }

  /** A result just outside: ten characters, and no room for the NUL. */
  lemma TenDigitExample()
    ensures Form(1_000_000_000) == [49, 48, 48, 48, 48, 48, 48, 48, 48, 48] && |Form(1_000_000_000)| == 10
  {
    assert Decimal(1000) == [49, 48, 48, 48];
    assert Decimal(1_000_000) == Decimal(1000) + [48, 48, 48];
    assert Decimal(1_000_000_000) == Decimal(1_000_000) + [48, 48, 48];
  }

  /** Different numbers have different forms. */
  lemma FormInjective(m: int, n: int)
    requires Form(m) == Form(n)
    ensures m == n
  {
    DecimalIsNumeral(if m < 0 then -m else m);
    DecimalIsNumeral(if n < 0 then -n else n);
    if m < 0 && n < 0 {
      assert Form(m)[1..] == Decimal(-m) && Form(n)[1..] == Decimal(-n);
    }
  }

  // ----- reversal in place

  function Reversed(s: seq<byte>): (r: seq<byte>)
    ensures |r| == |s|
  {
    seq(|s|, i requires 0 <= i < |s| => s[|s| - 1 - i])
  }

  lemma ReversedAppend(s: seq<byte>, c: byte)
    ensures Reversed(s + [c]) == [c] + Reversed(s)
  {
  }

  method Reverse(str: array<byte>, length: nat)
    requires length <= str.Length
    modifies str
    ensures str[..] == Reversed(old(str[..])[..length]) + old(str[..])[length..]
  {
    var first, last := 0, length - 1;
    while first < last
      invariant 0 <= first <= last + 2 && first + last == length - 1
      invariant forall i :: 0 <= i < first || last < i < length ==> str[i] == old(str[length - 1 - i])
      invariant forall i :: first <= i <= last || length <= i < str.Length ==> str[i] == old(str[i])
      decreases last - first
    {
      str[first], str[last] := str[last], str[first];
      first, last := first + 1, last - 1;
    }
    ghost var u := old(str[..]);
    assert forall i :: 0 <= i < length ==> str[i] == Reversed(u[..length])[i];
    assert forall i :: length <= i < str.Length ==> str[i] == u[length..][i - length];
    assert str[..] == Reversed(u[..length]) + u[length..];
  }

  // ----- the two directions

  /** One step of the digit loop, on the digits s stored so far. */
  lemma DigitStep(m: nat, s: seq<byte>)
    ensures Decimal(m) + Reversed(s) == (if m < 10 then [] else Decimal(m / 10)) + Reversed(s + [48 + m % 10])
  {
  }

  /** The digit loop of itoa: the digits of n from the last to the first. */
  method StoreDigits(n: nat, str: array<byte>) returns (i: nat)
    requires |Decimal(n)| < str.Length
    modifies str
    ensures i == |Decimal(n)| && Reversed(str[..i]) == Decimal(n)
    ensures forall j :: i <= j < str.Length ==> str[j] == old(str[j])
  {
    ghost var d := Decimal(n);
    i := 0;
    var m := n;
    var more := true;
    while more
      invariant 0 <= i <= |d|
      invariant forall j :: i <= j < str.Length ==> str[j] == old(str[j])
      invariant d == (if more then Decimal(m) else []) + Reversed(str[..i])
      decreases m, more
    {
      ghost var s := str[..i];
      DigitStep(m, s);
      str[i] := 48 + m % 10;
      assert str[..i + 1] == s + [48 + m % 10];
      i := i + 1;
      m := m / 10;
      more := m > 0;
    }
  }

  /** A buffer x that agrees with the buffer u from place i on, but for the NUL it holds at i. */
  lemma NulThenRest(x: seq<byte>, u: seq<byte>, i: nat)
    requires |x| == |u| && i < |x| && x[i] == 0
    requires forall j :: i < j < |x| ==> x[j] == u[j]
    ensures x[i..] == [0] + u[i + 1..]
  {
  }

  /** itoa; the source negates n, so the least integer has no defined result. */
  method Itoa(n: i32, str: array<byte>)
    requires n > -0x8000_0000 && |Form(n)| < str.Length
    modifies str
    ensures str[..] == Form(n) + ([0] + old(str[..])[|Form(n)| + 1..])
  {
    ghost var u := str[..];
    var i := StoreDigits(if n < 0 then -n else n, str);
    if n < 0 {
      ghost var s := str[..i];
      ReversedAppend(s, 45);
      str[i] := 45;
      assert str[..i + 1] == s + [45];
      i := i + 1;
    }
    ghost var s := str[..i];
    assert Reversed(s) == Form(n);
    str[i] := 0;
    assert str[..i] == s;
    NulThenRest(str[..], u, i);
    Reverse(str, i);
  }

  method Atoi(str: array<byte>, p: nat) returns (r: i32)
    requires Terminated(str[..], p)
    ensures r == Wrap32(Value(StringAt(str[..], p)))
  {
    ghost var t := StringAt(str[..], p);
    StringAtEnds(str[..], p);
    r := 0;
    var i := 0;
    while str[p + i] != 0
      invariant i <= |t| && p + |t| < str.Length
      invariant r == Wrap32(Value(t[..i]))
      decreases |t| - i
    {
      assert t[..i + 1][..i] == t[..i];
      WrapStep(Value(t[..i]), r, SignedChar(t[i]));
      r := Wrap32(Wrap32(Wrap32(r * 10) + SignedChar(str[p + i])) - 48);
      i := i + 1;
    }
    assert t[..i] == t;
  }

  /** Reading the decimal form of a number back gives the number. */
  lemma DecimalReadsBack(n: i32, s: seq<byte>)
    requires n >= 0
    ensures Wrap32(Value(Form(n))) == n
    ensures IsNumeral(s) && Value(s) == n ==> s == Form(n)
    ensures s != [] && AllDigits(s) && Value(s) == n ==> |Form(n)| <= |s|
  {
    DecimalIsNumeral(n);
    if s != [] && AllDigits(s) {
      DecimalShortest(s);
      if IsNumeral(s) {
        NumeralUnique(s);
      }
    }
  }

  // ----- the hexadecimal form

  function HexDigit(d: nat): byte
    requires d < 16
  {
    if d < 10 then 48 + d else 55 + d
  }

  function HexValueOf(c: byte): int {
    if c < 58 then c - 48 else c - 55
  }

  /** The last k hexadecimal digits of n. */
  function Hex(n: nat, k: nat): (s: seq<byte>)
    ensures |s| == k
  {
    if k == 0 then [] else Hex(n / 16, k - 1) + [HexDigit(n % 16)]
  }

  function HexValue(s: seq<byte>): int {
    if s == [] then 0 else HexValue(s[..|s| - 1]) * 16 + HexValueOf(s[|s| - 1])
  }

  function Pow16(k: nat): (p: nat)
    ensures p > 0
  {
    if k == 0 then 1 else 16 * Pow16(k - 1)
  }

  lemma {:induction false} HexReadsBack(n: nat, k: nat)
    requires n < Pow16(k)
    ensures HexValue(Hex(n, k)) == n
    ensures forall i :: 0 <= i < k ==> 48 <= Hex(n, k)[i] <= 57 || 65 <= Hex(n, k)[i] <= 70
  {
    if k > 0 {
      HexReadsBack(n / 16, k - 1);
      assert Hex(n, k)[..k - 1] == Hex(n / 16, k - 1);
    }
  }

  /** One step of the loop of hex_to_string, on the digits s stored so far. */
  lemma HexStep(m: nat, k: nat, s: seq<byte>)
    requires k > 0
    ensures Hex(m, k) + s == Hex(m / 16, k - 1) + ([HexDigit(m % 16)] + s)
  {
  }

  /** The loop of hex_to_string, for k digits. On an unsigned word, & 0x0F is the remainder modulo 16 and >> 4
      the quotient. */
  method StoreHex(n: nat, k: nat, str: array<byte>)
    requires k + 2 <= str.Length
    modifies str
    ensures str[2..k + 2] == Hex(n, k)
    ensures forall j :: 0 <= j < 2 || k + 2 <= j < str.Length ==> str[j] == old(str[j])
  {
    var m, i := n, k - 1;
    while i >= 0
      invariant -1 <= i < k
      invariant Hex(n, k) == Hex(m, i + 1) + str[i + 3..k + 2]
      invariant forall j :: 0 <= j < i + 3 || k + 2 <= j < str.Length ==> str[j] == old(str[j])
    {
      ghost var s := str[i + 3..k + 2];
      HexStep(m, i + 1, s);
      str[i + 2] := HexDigit(m % 16);
      assert str[i + 2..k + 2] == [str[i + 2]] + s;
      i := i - 1;
      m := m / 16;
    }
  }

  method HexToString(n: u32, str: array<byte>)
    requires str.Length >= 11
    modifies str
    ensures str[..] == [48, 120] + Hex(n, 8) + ([0] + old(str[..])[11..])
  {
    ghost var u := str[..];
    str[0], str[1] := 48, 120;
    StoreHex(n, 8, str);
    ghost var s := str[2..10];
    str[10] := 0;
    assert str[2..10] == s;
    NulThenRest(str[..], u, 10);
    assert str[..] == str[..2] + str[2..10] + str[10..];
  }

  /** The text of hex_to_string decodes back to every 32-bit number. */
  lemma HexDecodes(n: u32)
    ensures HexValue(Hex(n, 8)) == n && IsCString(Hex(n, 8))
  {
    assert Pow16(4) == 0x1_0000;
    assert Pow16(8) == 0x1_0000_0000;
    HexReadsBack(n, 8);
  }
}
