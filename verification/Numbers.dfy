/** Printing numbers into a bounded buffer, and reading them back. */
module Numbers {
  import opened Bits

  // ---- texts of numbers

  const DIGITS: seq<char> := "0123456789abcdef"

  predicate IsBase(base: nat) { base == 10 || base == 16 }

  /** The digits of n, most significant first; none for 0. */
  function Digits(n: nat, base: nat): (s: seq<char>)
    requires IsBase(base)
  {
    if n == 0 then [] else Digits(n / base, base) + [DIGITS[n % base]]
  }

  function UnsignedText(n: nat, base: nat): seq<char>
    requires IsBase(base)
  {
    if n == 0 then "0" else Digits(n, base)
  }

  function IntText(n: int, base: nat): seq<char>
    requires IsBase(base)
  {
    if n < 0 then "-" + Digits(-n, base) else UnsignedText(n, base)
  }

  function Repeat(c: char, k: int): (s: seq<char>)
    ensures |s| == if k > 0 then k else 0
    ensures forall i :: 0 <= i < |s| ==> s[i] == c
  {
    if k <= 0 then [] else Repeat(c, k - 1) + [c]
  }

  /** A positive npad right-justifies with `pad`, a negative one left-justifies with blanks. */
  function Padded(s: seq<char>, pad: char, npad: int): seq<char> {
    if npad > 0 then Repeat(pad, npad - |s|) + s
    else s + Repeat(' ', -npad - |s|)
  }

  // ---- what the texts denote

  /** The value of a character as a digit of base 16 or less, -1 if it is none. */
  function DigitOf(c: char): int {
    if '0' <= c <= '9' then c as int - '0' as int
    else if 'a' <= c <= 'f' then c as int - 'a' as int + 10
    else -1
  }

  /** The number that a text denotes in positional notation. */
  function Denotes(s: seq<char>, base: nat): int {
    if s == [] then 0 else Denotes(s[..|s| - 1], base) * base + DigitOf(s[|s| - 1])
  }

  lemma DigitsChars(d: nat)
    requires d < 16
    ensures DigitOf(DIGITS[d]) == d
  {
  }

  /** The digits of a number denote it, are digits of the base, and begin with none that is 0. */
  lemma {:induction false} DigitsDenote(n: nat, base: nat)
    requires IsBase(base)
    ensures var s := Digits(n, base);
            && Denotes(s, base) == n
            && (forall i :: 0 <= i < |s| ==> 0 <= DigitOf(s[i]) < base)
            && (n > 0 ==> s != [] && DigitOf(s[0]) > 0)
  {
    if n > 0 {
      LastDigit(n, base);
      hide Digits, Denotes, DigitOf;
      DigitsChars(n % base);
      LessDigits(n, base);
      DigitsDenote(n / base, base);
      OneMoreDigit(Digits(n / base, base), DIGITS[n % base], base);
      Division(n, base);
      NoDenotation(n / base, base);
    } else {
      NoDenotation(n, base);
    }
  }

  lemma OneMoreDigit(s: seq<char>, c: char, base: nat)
    ensures Denotes(s + [c], base) == Denotes(s, base) * base + DigitOf(c)
  {
    assert (s + [c])[..|s|] == s;
  }

  lemma NoDenotation(n: nat, base: nat)
    requires IsBase(base)
    ensures n == 0 ==> Digits(n, base) == [] && Denotes([], base) == 0
  {
  }

  lemma LessDigits(n: nat, base: nat)
    requires IsBase(base) && n > 0
    ensures n / base < n
  {
  }

  /** The texts of numbers in base 10 and 16: a minus sign exactly for negative numbers, then the
      positional text of the magnitude, without leading zeros. */
  lemma TextDenotes(n: int, base: nat)
    requires IsBase(base)
    ensures var s := IntText(n, base);
            var t := if n < 0 then s[1..] else s;
            && s != [] && (n < 0 <==> s[0] == '-')
            && Denotes(t, base) == (if n < 0 then -n else n)
            && t != [] && (forall i :: 0 <= i < |t| ==> 0 <= DigitOf(t[i]) < base)
            && (n != 0 ==> DigitOf(t[0]) > 0)
  {
    if n != 0 {
      DigitsDenote(if n < 0 then -n else n, base);
    } else {
      assert "0"[..0] == [];
    }
  }

  /** A padded text has the width asked for, unless the text is longer; it is padded on the left with
      the padding character, or on the right with blanks. */
  lemma PaddedShape(s: seq<char>, pad: char, npad: int)
    ensures var r := Padded(s, pad, npad);
            var width := if npad > 0 then npad else -npad;
            && |r| == (if width > |s| then width else |s|)
            && (npad > 0 ==> r[|r| - |s|..] == s && forall i :: 0 <= i < |r| - |s| ==> r[i] == pad)
            && (npad <= 0 ==> r[..|s|] == s && forall i :: |s| <= i < |r| ==> r[i] == ' ')
  {
  }

  // ---- reading

  predicate IsBlank(c: char) { c == ' ' || c == '\t' }

  predicate IsDigit(c: char) { '0' <= c <= '9' }

  function Value(c: char): nat
    requires IsDigit(c)
  {
    c as nat - '0' as nat
  }

  function SkipBlanks(s: seq<char>): seq<char> {
    if s != [] && IsBlank(s[0]) then SkipBlanks(s[1..]) else s
  }

  /** The number that the leading digits of s continue, acc being what was read before. */
  function ReadDigits(s: seq<char>, acc: int): int {
    if s != [] && IsDigit(s[0]) then ReadDigits(s[1..], acc * 10 + Value(s[0])) else acc
  }

  /** What atol makes of s. */
  function ReadNumber(s: seq<char>): int {
    var t := SkipBlanks(s);
    if t != [] && t[0] == '-' then -ReadDigits(t[1..], 0)
    else if t != [] && t[0] == '+' then ReadDigits(t[1..], 0)
    else ReadDigits(t, 0)
  }

  const LONG_MAX: int := 0x7FFF_FFFF_FFFF_FFFF

  /** The 64-bit signed integer with the low 64 bits of x. */
  function Long(x: int): (r: int)
    ensures -LONG_MAX - 1 <= r <= LONG_MAX
    ensures -LONG_MAX - 1 <= x <= LONG_MAX ==> r == x
  {
    (x + LONG_MAX + 1) % 0x1_0000_0000_0000_0000 - LONG_MAX - 1
  }

  lemma LongStep(acc: int, v: int)
    ensures Long(Long(acc) * 10 + v) == Long(acc * 10 + v)
    ensures Long(-Long(acc)) == Long(-acc)
  {
    var m := 0x1_0000_0000_0000_0000;
    var q := (acc + LONG_MAX + 1) / m;
    assert Long(acc) == acc - q * m;
    Turns(acc * 10 + v, -10 * q);
    Turns(-acc, q);
  }

  // Whole turns of the counter do not show.
  lemma Turns(x: int, q: int)
    ensures Long(x + q * 0x1_0000_0000_0000_0000) == Long(x)
  {
    var m := 0x1_0000_0000_0000_0000;
    var y := x + LONG_MAX + 1;
    DivModUnique(y + q * m, m, y / m + q, y % m);
  }

  /** The digit loop of atol, from index s0 on. */
  method ReadLong(ptr: seq<char>, s0: nat) returns (acc: int, ghost exact: bool)
    requires s0 <= |ptr|
    ensures acc == Long(ReadDigits(ptr[s0..], 0))
    ensures exact <==> ReadDigits(ptr[s0..], 0) <= LONG_MAX
    ensures ReadDigits(ptr[s0..], 0) >= 0
  {
    hide Long;
    var s := s0;
    acc := 0;
    ghost var read: nat := 0;
    exact := true;
    while s < |ptr|
      invariant s0 <= s <= |ptr| && acc == Long(read)
      invariant ReadDigits(ptr[s..], read) == ReadDigits(ptr[s0..], 0)
      invariant exact <==> read <= LONG_MAX
    {
      if ptr[s] < '0' || ptr[s] > '9' {
        break;
      }
      assert ptr[s..][1..] == ptr[s + 1..];
      LongStep(read, Value(ptr[s]));
      exact := exact && acc * 10 + Value(ptr[s]) <= LONG_MAX;
      read := read * 10 + Value(ptr[s]);
      acc := Long(acc * 10 + Value(ptr[s]));
      s := s + 1;
    }
  }

  /** atol in 64-bit arithmetic. `exact` says that every value it computes, from the first digit to the
      sign, is the mathematical one; the C standard leaves open what an overflow does, here it wraps. */
  method Atol(ptr: seq<char>) returns (result: int, ghost exact: bool)
    ensures result == Long(ReadNumber(ptr))
    ensures exact <==> -LONG_MAX <= ReadNumber(ptr) <= LONG_MAX
  {
    hide Long, ReadDigits;
    var s := 0;
    while s < |ptr| && (ptr[s] == ' ' || ptr[s] == '\t')
      invariant 0 <= s <= |ptr|
      invariant SkipBlanks(ptr[s..]) == SkipBlanks(ptr)
    {
      assert ptr[s..][1..] == ptr[s + 1..];
      s := s + 1;
    }
    assert ptr[s..] == SkipBlanks(ptr);
    var neg := false;
    if s < |ptr| && ptr[s] == '-' {
      neg := true;
      s := s + 1;
    } else if s < |ptr| && ptr[s] == '+' {
      s := s + 1;
    }
    assert ReadNumber(ptr) == if neg then -ReadDigits(ptr[s..], 0) else ReadDigits(ptr[s..], 0);
    result, exact := ReadLong(ptr, s);
    LongStep(ReadDigits(ptr[s..], 0), 0);
    result := if neg then Long(-result) else result;
  }

  // ---- round trips

  lemma {:induction false} ReadsDigits(n: nat, rest: seq<char>)
    ensures ReadDigits(Digits(n, 10) + rest, 0) == ReadDigits(rest, n)
  {
    if n == 0 {
      assert Digits(n, 10) + rest == rest;
    } else {
      var d := [DIGITS[n % 10]];
      assert Digits(n, 10) + rest == Digits(n / 10, 10) + (d + rest);
      ReadsDigits(n / 10, d + rest);
      assert (d + rest)[1..] == rest;
      DigitValue(n % 10);
    }
  }

  lemma DigitValue(d: nat)
    requires d < 10
    ensures IsDigit(DIGITS[d]) && Value(DIGITS[d]) == d
  {
  }

  lemma {:induction false} SkipsBlanks(k: int, s: seq<char>)
    requires s == [] || !IsBlank(s[0])
    ensures SkipBlanks(Repeat(' ', k) + s) == s
    decreases if k > 0 then k else 0
  {
    if k <= 0 {
      assert Repeat(' ', k) + s == s;
    } else {
      assert (Repeat(' ', k) + s)[1..] == Repeat(' ', k - 1) + s by {
        assert Repeat(' ', k)[1..] == Repeat(' ', k - 1);
      }
      SkipsBlanks(k - 1, s);
    }
  }

  lemma {:induction false} StartsWithDigit(n: nat)
    requires n > 0
    ensures Digits(n, 10) != [] && IsDigit(Digits(n, 10)[0])
  {
    DigitValue(n % 10);
    if n >= 10 {
      StartsWithDigit(n / 10);
    }
  }

  lemma ReadsNothing(rest: seq<char>, acc: int)
    requires rest == [] || !IsDigit(rest[0])
    ensures ReadDigits(rest, acc) == acc
  {
  }

  lemma ReadsUnsigned(n: nat, rest: seq<char>)
    requires rest == [] || !IsDigit(rest[0])
    ensures ReadDigits(UnsignedText(n, 10) + rest, 0) == n
  {
    if n == 0 {
      assert ("0" + rest)[1..] == rest;
    } else {
      ReadsDigits(n, rest);
    }
  }

  /** atol reads back what was printed in base 10, whatever the width, when padded with blanks. */
  lemma RoundTrip(n: int, npad: int)
    ensures ReadNumber(Padded(IntText(n, 10), ' ', npad)) == n
  {
    hide SkipBlanks, ReadDigits, Digits;
    var text := IntText(n, 10);
    if n > 0 { StartsWithDigit(n); }
    assert !IsBlank(text[0]);
    var left := if npad > 0 then npad - |text| else 0;
    var rest := if npad > 0 then [] else Repeat(' ', -npad - |text|);
    assert Padded(text, ' ', npad) == Repeat(' ', left) + (text + rest);
    SkipsBlanks(left, text + rest);
    if n < 0 {
      assert (text + rest)[1..] == Digits(-n, 10) + rest;
      ReadsDigits(-n, rest);
      ReadsNothing(rest, -n);
    } else {
      ReadsUnsigned(n, rest);
      assert (text + rest)[0] == text[0];
    }
  }

  /** Zero padding keeps numbers that are not negative, and loses every negative one that it pads,
      because the zeros come before the sign. */
  lemma ZeroPadded(n: int, npad: int)
    ensures ReadNumber(Padded(IntText(n, 10), '0', npad)) == if n < 0 && npad > |IntText(n, 10)| then 0 else n
  {
    var text := IntText(n, 10);
    if npad > |text| {
      var zeros := Repeat('0', npad - |text|);
      assert zeros[0] == '0';
      SkipsBlanks(0, zeros + text);
      assert Repeat(' ', 0) + (zeros + text) == zeros + text;
      ReadsZeros(npad - |text|, text);
      if n < 0 {
        assert text[0] == '-';
      } else {
        ReadsUnsigned(n, []);
        assert UnsignedText(n, 10) + [] == text;
      }
    } else if npad > 0 {
      assert Padded(text, '0', npad) == Padded(text, ' ', npad);
      RoundTrip(n, npad);
    } else {
      RoundTrip(n, npad);
    }
  }

  lemma {:induction false} ReadsZeros(k: nat, s: seq<char>)
    ensures ReadDigits(Repeat('0', k) + s, 0) == ReadDigits(s, 0)
  {
    if k == 0 {
      assert Repeat('0', k) + s == s;
    } else {
      assert (Repeat('0', k) + s)[1..] == Repeat('0', k - 1) + s by {
        assert Repeat('0', k)[1..] == Repeat('0', k - 1);
      }
      ReadsZeros(k - 1, s);
    }
  }

  // ---- printing

  function Reversed(s: seq<char>): (r: seq<char>)
    ensures |r| == |s| && forall i :: 0 <= i < |s| ==> r[i] == s[|s| - 1 - i]
  {
    if s == [] then [] else Reversed(s[1..]) + [s[0]]
  }

  lemma ReversedAppend(s: seq<char>, c: char)
    ensures Reversed(s + [c]) == [c] + Reversed(s)
  {
  }

  lemma ReversedPrefix(s: seq<char>)
    ensures Reversed("0x" + s) == Reversed(s) + ['x', '0']
  {
  }

  lemma ReversedTwice(s: seq<char>)
    ensures Reversed(Reversed(s)) == s
  {
  }

  /** The in-place reversal of the first n characters of a buffer. */
  method ReverseInPlace(buf: array<char>, n: nat)
    requires n <= buf.Length
    modifies buf
    ensures buf[..n] == Reversed(old(buf[..n])) && buf[n..] == old(buf[n..])
  {
    for i := 0 to n / 2
      invariant forall k :: 0 <= k < i ==> buf[k] == old(buf[n - 1 - k]) && buf[n - 1 - k] == old(buf[k])
      invariant forall k :: i <= k < n - i ==> buf[k] == old(buf[k])
      invariant buf[n..] == old(buf[n..])
    {
      buf[i], buf[n - 1 - i] := buf[n - 1 - i], buf[i];
    }
    ghost var was := old(buf[..n]);
    forall k | 0 <= k < n
      ensures buf[..n][k] == Reversed(was)[k]
    {
      assert was[n - 1 - k] == old(buf[n - 1 - k]);
    }
  }

  function Pow10(k: nat): (r: nat)
    ensures r > 0
  {
    if k == 0 then 1 else 10 * Pow10(k - 1)
  }

  lemma Pow10Values()
    ensures Pow10(19) == 10_000_000_000_000_000_000 && Pow10(20) == 100_000_000_000_000_000_000
  {
    assert Pow10(10) == 10_000_000_000;
  }

  /** An output buffer: at most `remain` more characters are kept, all are counted. */
  datatype Output = Output(buffer: seq<char>, remain: nat, added: nat)

  /** The output after s has been sent to it. */
  function Send(o: Output, s: seq<char>): Output {
    var kept := if |s| <= o.remain then |s| else o.remain;
    Output(o.buffer + s[..kept], o.remain - kept, o.added + |s|)
  }

  /** Sending two strings in turn is sending them as one. */
  lemma SendTwice(o: Output, s: seq<char>, t: seq<char>)
    ensures Send(Send(o, s), t) == Send(o, s + t)
  {
  }

  lemma SendNothing(o: Output)
    ensures Send(o, []) == o
  {
  }

  /** A buffer that was empty keeps the front of what was sent, as much as fits, and counts it all. */
  lemma SentIs(size: nat, s: seq<char>)
    ensures var n := if |s| <= size then |s| else size;
            Send(Output([], size, 0), s) == Output(s[..n], size - n, |s|)
  {
  }

  class PStream {
    var buffer: seq<char>
    var remain: nat
    var added: nat

    function Now(): Output
      reads this
    {
      Output(buffer, remain, added)
    }

    constructor (size: nat)
      ensures Now() == Output([], size, 0)
    {
      buffer, remain, added := [], size, 0;
    }

    method AddChar(c: char)
      modifies this
      ensures Now() == Send(old(Now()), [c])
    {
      if remain > 0 {
        buffer := buffer + [c];
        remain := remain - 1;
      }
      added := added + 1;
    }

    /** The loops that send a padding character k times. */
    method Pad(c: char, k: int)
      modifies this
      ensures Now() == Send(old(Now()), Repeat(c, k))
    {
      hide Send;
      var left := k;
      SendNothing(Now());
      while left > 0
        invariant left <= k && (left >= 0 || left == k)
        invariant Now() == Send(old(Now()), Repeat(c, k - left))
      {
        AddChar(c);
        SendTwice(old(Now()), Repeat(c, k - left), [c]);
        left := left - 1;
      }
    }

    /** The loop that sends a string. */
    method Push(s: seq<char>)
      modifies this
      ensures Now() == Send(old(Now()), s)
    {
      hide Send;
      SendNothing(Now());
      for i := 0 to |s|
        invariant Now() == Send(old(Now()), s[..i])
      {
        AddChar(s[i]);
        SendTwice(old(Now()), s[..i], [s[i]]);
        assert s[..i + 1] == s[..i] + [s[i]];
      }
      assert s[..|s|] == s;
    }

    method PrintStr(s: seq<char>, pad: char, npad0: int)
      modifies this
      ensures Now() == Send(old(Now()), Padded(s, pad, npad0))
    {
      hide Send;
      var npad := npad0;
      ghost var left: seq<char> := [];
      SendNothing(Now());
      if npad > 0 {
        npad := npad - |s|;
        Pad(pad, npad);
        left := Repeat(pad, npad);
        npad := if npad > 0 then 0 else npad;
      }
      Push(s);
      SendTwice(old(Now()), left, s);
      if npad < 0 {
        npad := npad + |s|;
        Pad(' ', -npad);
        SendTwice(old(Now()), left + s, Repeat(' ', -npad));
        assert left + s + Repeat(' ', -npad) == Padded(s, pad, npad0);
      } else {
        assert left + s == Padded(s, pad, npad0);
      }
    }

    /** print_int, for the bases that the format characters select. */
    method PrintInt(n0: int, base: nat, pad: char, npad: int)
      requires IsBase(base) && -0x8000_0000_0000_0000 < n0 < 0x8000_0000_0000_0000
      modifies this
      ensures Now() == Send(old(Now()), Padded(IntText(n0, base), pad, npad))
    {
      var buf := new char[26];
      var p := FormatInt(buf, n0, base);
      PrintStr(buf[..p], pad, npad);
    }

    /** print_unsigned, for the bases that the format characters select. `alternate` asks for a 0x
        prefix, which goes before zero padding but after blanks. */
    method PrintUnsigned(n: nat, base: nat, pad: char, npad0: int, alternate: bool)
      requires IsBase(base) && n < 0x1_0000_0000_0000_0000
      modifies this
      ensures Now() == Send(old(Now()), PrefixedText(n, base, pad, npad0, alternate))
    {
      hide Padded, Digits, Reversed, Send, UnsignedText, Pow10;
      Pow10Values();
      var npad := npad0;
      var buf := new char[27];
      var p := LowDigits(buf, n, base, 20);
      ghost var before := Now();
      SendNothing(Now());
      ghost var prefix: seq<char> := [];
      ghost var text := UnsignedText(n, base);
      UnsignedTextReversed(n, base);
      if p == 0 {
        buf[p] := '0';
        p := p + 1;
      } else if alternate && base == 16 {
        if pad == '0' {
          AddChar('0');
          AddChar('x');
          SendTwice(before, ['0'], ['x']);
          assert ['0'] + ['x'] == "0x";
          prefix := "0x";
          if npad > 0 {
            npad := if npad - 2 > 0 then npad - 2 else 0;
          }
        } else {
          buf[p] := 'x';
          buf[p + 1] := '0';
          p := p + 2;
          text := "0x" + text;
          ReversedPrefix(UnsignedText(n, base));
        }
      }
      assert buf[..p] == Reversed(text);
      ReverseInPlace(buf, p);
      ReversedTwice(text);
      PrintStr(buf[..p], pad, npad);
      SendTwice(before, prefix, Padded(text, pad, npad));
      assert prefix + Padded(text, pad, npad) == PrefixedText(n, base, pad, npad0, alternate);
    }
  }

  /** What print_unsigned sends. */
  function PrefixedText(n: nat, base: nat, pad: char, npad: int, alternate: bool): seq<char>
    requires IsBase(base)
  {
    var text := UnsignedText(n, base);
    if !(alternate && base == 16 && n != 0) then Padded(text, pad, npad)
    else if pad == '0' then "0x" + Padded(text, pad, if npad > 2 then npad - 2 else if npad > 0 then 0 else npad)
    else Padded("0x" + text, pad, npad)
  }

  /** With the prefix, a number is as wide as asked for, with 0x before padding zeros and after blanks. */
  lemma PrefixedShape(n: nat, pad: char, npad: int)
    requires n > 0 && npad > 0
    ensures var r := PrefixedText(n, 16, pad, npad, true);
            var text := UnsignedText(n, 16);
            && |r| == (if npad > |text| + 2 then npad else |text| + 2)
            && r[|r| - |text|..] == text
            && (if pad == '0' then r[..2] == "0x" && forall i :: 2 <= i < |r| - |text| ==> r[i] == '0'
                else r[|r| - |text| - 2..|r| - |text|] == "0x")
  {
    var text := UnsignedText(n, 16);
    var r := PrefixedText(n, 16, pad, npad, true);
    if pad == '0' {
      PaddedShape(text, pad, if npad > 2 then npad - 2 else 0);
    } else {
      PaddedShape("0x" + text, pad, npad);
      var p := "0x" + text;
      assert r[|r| - |p|..] == p;
      assert p[..2] == "0x" && p[2..] == text;
    }
  }

  /** The digits of n, least significant first, as the digit loops produce them. */
  method LowDigits(buf: array<char>, n0: nat, base: nat, width: nat) returns (p: nat)
    requires IsBase(base) && n0 < Pow10(width) && width <= buf.Length
    modifies buf
    ensures p <= width && buf[..p] == Reversed(Digits(n0, base))
    ensures p == 0 <==> n0 == 0
  {
    hide Digits, Reversed, Pow10;
    var n: nat := n0;
    p := 0;
    while n > 0
      invariant p <= width && n < Pow10(width - p)
      invariant Reversed(Digits(n0, base)) == buf[..p] + Reversed(Digits(n, base))
      invariant p == 0 ==> n == n0
      decreases n
    {
      OneDigit(n, base, width - p);
      ghost var before, rest := buf[..p], Reversed(Digits(n / base, base));
      buf[p] := DIGITS[n % base];
      assert buf[..p + 1] == before + [DIGITS[n % base]];
      assert before + ([DIGITS[n % base]] + rest) == buf[..p + 1] + rest;
      p := p + 1;
      n := n / base;
    }
    NoDigits(base);
  }

  lemma OneDigit(n: nat, base: nat, width: nat)
    requires IsBase(base) && 0 < n < Pow10(width)
    ensures width > 0 && n / base < Pow10(width - 1) && n / base < n
    ensures Reversed(Digits(n, base)) == [DIGITS[n % base]] + Reversed(Digits(n / base, base))
  {
    hide Digits, Reversed;
    Quotient(n, base, width);
    LastDigit(n, base);
    ReversedAppend(Digits(n / base, base), DIGITS[n % base]);
  }

  lemma Quotient(n: nat, base: nat, width: nat)
    requires IsBase(base) && 0 < n < Pow10(width)
    ensures width > 0 && n / base < Pow10(width - 1) && n / base < n
  {
    if base == 10 {
      assert n / 10 * 10 <= n;
    } else {
      assert n / 16 * 16 <= n;
    }
  }

  lemma LastDigit(n: nat, base: nat)
    requires IsBase(base) && 0 < n
    ensures Digits(n, base) == Digits(n / base, base) + [DIGITS[n % base]]
  {
  }

  lemma NoDigits(base: nat)
    requires IsBase(base)
    ensures Reversed(Digits(0, base)) == []
  {
  }

  /** The part of print_int that fills its buffer. */
  method FormatInt(buf: array<char>, n0: int, base: nat) returns (p: nat)
    requires IsBase(base) && -0x8000_0000_0000_0000 < n0 < 0x8000_0000_0000_0000 && buf.Length == 26
    modifies buf
    ensures p <= buf.Length && buf[..p] == IntText(n0, base)
  {
    hide Digits, Reversed, IntText, Pow10;
    Pow10Values();
    p := LowDigits(buf, if n0 < 0 then -n0 else n0, base, 19);
    if n0 < 0 {
      buf[p] := '-';
      p := p + 1;
    }
    if p == 0 {
      buf[p] := '0';
      p := p + 1;
    }
    IntTextReversed(n0, base);
    assert buf[..p] == Reversed(IntText(n0, base));
    ReverseInPlace(buf, p);
    ReversedTwice(IntText(n0, base));
  }

  lemma UnsignedTextReversed(n: nat, base: nat)
    requires IsBase(base)
    ensures Reversed(UnsignedText(n, base)) == if n == 0 then ['0'] else Reversed(Digits(n, base))
  {
  }

  lemma IntTextReversed(n: int, base: nat)
    requires IsBase(base)
    ensures Reversed(IntText(n, base)) ==
            if n < 0 then Reversed(Digits(-n, base)) + ['-'] else if n == 0 then ['0'] else Reversed(Digits(n, base))
  {
  }

  /** print_int and then atol, both in 64-bit arithmetic: every number but the least one comes back, at
      every blank-padded width, if the buffer has room for its text, and nothing overflows on the way. */
  method PrintThenRead(n: int, npad: int, size: nat) returns (result: int, ghost exact: bool)
    requires -LONG_MAX <= n <= LONG_MAX && |Padded(IntText(n, 10), ' ', npad)| <= size
    ensures result == n && exact
  {
    hide Padded, IntText, ReadNumber;
    var p := new PStream(size);
    p.PrintInt(n, 10, ' ', npad);
    ghost var text := Padded(IntText(n, 10), ' ', npad);
    assert [] + text[..|text|] == text;
    assert p.buffer == p.Now().buffer == text;
    RoundTrip(n, npad);
    result, exact := Atol(p.buffer);
  }

  /** The same for print_unsigned, below 2^63. */
  method PrintUnsignedThenRead(n: nat, npad: int, size: nat) returns (result: int, ghost exact: bool)
    requires n <= LONG_MAX && |Padded(UnsignedText(n, 10), ' ', npad)| <= size
    ensures result == n && exact
  {
    hide Padded, UnsignedText, ReadNumber;
    var p := new PStream(size);
    p.PrintUnsigned(n, 10, ' ', npad, false);
    ghost var text := Padded(UnsignedText(n, 10), ' ', npad);
    assert [] + text[..|text|] == text;
    assert p.buffer == p.Now().buffer == text;
    RoundTrip(n, npad);
    result, exact := Atol(p.buffer);
  }
}
