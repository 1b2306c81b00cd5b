/**
  Printing and reading of numbers: ficlLtoa and ficlUltoa of ficl/utility.c, #S and >NUMBER of
  ficl/primitives.c, ficlVmParseNumber of ficl/vm.c. Cells have 64 bits.
 */
module Numerals {
  import opened Wrappers
  import opened Arithmetic

  /** The number of values of a cell. */
  const W := 0x1_0000_0000_0000_0000

  predicate Base(b: int) {
    2 <= b <= 36
  }

  // ---------------------------------------------------------------------
  // Digits

  /** ficlDigitToCharacter */
  function DigitToCharacter(d: int): (c: char)
    requires 0 <= d < 36
  {
    if d < 10 then (48 + d) as char else (87 + d) as char
  }

  function ToLower(c: char): (r: char) {
    if 'A' <= c <= 'Z' then (c as int + 32) as char else c
  }

  /** The digit a character from '0' on stands for, as an unsigned number. */
  function DigitOf(c: char): (d: int)
    ensures d >= 0
  {
    var d := (c as int - 48) % W;
    if d > 9 then (ToLower(c) as int - 87) % W else d
  }

  predicate IsAlnum(c: char) {
    '0' <= c <= '9' || 'a' <= c <= 'z' || 'A' <= c <= 'Z'
  }

  lemma DigitBack(d: int)
    requires 0 <= d < 36
    ensures DigitOf(DigitToCharacter(d)) == d && IsAlnum(DigitToCharacter(d))
    ensures DigitToCharacter(d) == 'd' <==> d == 13
    ensures DigitToCharacter(d) != '-' && DigitToCharacter(d) != '+' && DigitToCharacter(d) != '\0'
  {
  }

  /** The numeral of v in base b, most significant digit first: the reference. */
  function Numeral(v: int, b: int): (s: seq<char>)
    requires v >= 0 && Base(b)
    decreases v
  {
    if v < b then [DigitToCharacter(v)] else Numeral(v / b, b) + [DigitToCharacter(v % b)]
  }

  /** The digits as the printing loops produce them: least significant first, nothing for 0. */
  function Backward(v: int, b: int): (s: seq<char>)
    requires v >= 0 && Base(b)
    decreases v
  {
    if v == 0 then [] else [DigitToCharacter(v % b)] + Backward(v / b, b)
  }

  function Reverse(s: seq<char>): (r: seq<char>)
    ensures |r| == |s|
  {
    if s == [] then [] else Reverse(s[1..]) + [s[0]]
  }

  lemma {:induction false} ReverseAt(s: seq<char>, k: nat)
    requires k < |s|
    ensures Reverse(s)[k] == s[|s| - 1 - k]
  {
    if k < |s| - 1 {
      ReverseAt(s[1..], k);
    }
  }

  lemma {:induction false} ReverseAppend(s: seq<char>, c: char)
    ensures Reverse(s + [c]) == [c] + Reverse(s)
  {
    if s == [] {
      assert s + [c] == [c];
    } else {
      assert (s + [c])[1..] == s[1..] + [c];
      ReverseAppend(s[1..], c);
    }
  }

  lemma Quotients(v: int, b: int)
    requires v >= 0 && Base(b)
    ensures 0 <= v / b <= v && 0 <= v % b < b && v == (v / b) * b + v % b
    ensures v < b ==> v / b == 0 && v % b == v
    ensures v >= b ==> v / b > 0
    ensures v > 0 ==> v / b < v && 2 * (v / b) <= v
  {
    var q, r := v / b, v % b;
    QuotientBounds(v, b, q, r);
    if v < b {
      ModIs(v, b, 0, v);
    }
  }

  lemma QuotientBounds(v: int, b: int, q: int, r: int)
    requires v >= 0 && Base(b) && v == b * q + r && 0 <= r < b
    ensures 0 <= q && 2 * q <= v && (v >= b ==> q > 0)
  {
    MulAtLeast(q, b);
    if q > 0 {
      assert b * q >= 2 * q;
    }
  }

  lemma Unfold(v: int, b: int, q: int, d: int)
    requires v >= 0 && Base(b) && q == v / b && d == v % b
    ensures 0 <= d < b && 0 <= q && (v > 0 ==> q < v)
    ensures v > 0 ==> Backward(v, b) == [DigitToCharacter(d)] + Backward(q, b)
    ensures v < b ==> Numeral(v, b) == [DigitToCharacter(d)] && q == 0 && d == v
    ensures v >= b ==> Numeral(v, b) == Numeral(q, b) + [DigitToCharacter(d)] && q > 0
  {
    Quotients(v, b);
  }

  /** What is printed backward and reversed is the numeral. */
  lemma {:induction false} BackwardReversed(v: int, b: int)
    requires v > 0 && Base(b)
    ensures Reverse(Backward(v, b)) == Numeral(v, b)
    decreases v
  {
    hide DigitToCharacter, Backward, Numeral;
    var q, d := v / b, v % b;
    Unfold(v, b, q, d);
    ReverseCons(DigitToCharacter(d), Backward(q, b));
    if v < b {
      NothingForZero(b);
    } else {
      BackwardReversed(q, b);
    }
  }

  lemma NothingForZero(b: int)
    requires Base(b)
    ensures Backward(0, b) == [] && Reverse([]) == []
  {
  }

  lemma ReverseCons(c: char, s: seq<char>)
    ensures Reverse([c] + s) == Reverse(s) + [c]
  {
    assert ([c] + s)[1..] == s;
  }

  function Pow2(n: nat): (r: int)
    ensures r >= 1
  {
    if n == 0 then 1 else 2 * Pow2(n - 1)
  }

  /** A number below 2^n has at most n digits. */
  lemma {:induction false} BackwardLength(v: int, b: int, n: nat)
    requires 0 <= v < Pow2(n) && Base(b)
    ensures |Backward(v, b)| <= n
    decreases n
  {
    hide DigitToCharacter;
    if v > 0 {
      Quotients(v, b);
      BackwardLength(v / b, b, n - 1);
    }
  }

  lemma WIsPow2()
    ensures Pow2(64) == W
  {
    assert Pow2(4) == 16;
    Pow2Add(4, 4);
    Pow2Add(8, 8);
    Pow2Add(16, 16);
    Pow2Add(32, 32);
  }

  lemma {:induction false} Pow2Add(m: nat, n: nat)
    ensures Pow2(m + n) == Pow2(m) * Pow2(n)
    decreases n
  {
    if n > 0 {
      Pow2Add(m, n - 1);
      assert Pow2(m + n) == 2 * Pow2(m + (n - 1));
    }
  }

  // ---------------------------------------------------------------------
  // Shifts and masks

  /** The bitwise and of two numbers. */
  function BitAnd(a: int, b: int): (r: int)
    requires a >= 0 && b >= 0
    decreases a
  {
    if a == 0 then 0 else 2 * BitAnd(a / 2, b / 2) + (a % 2) * (b % 2)
  }

  function ShiftRight(v: int, n: nat): (r: int)
    requires v >= 0
    ensures r >= 0
  {
    if n == 0 then v else ShiftRight(v / 2, n - 1)
  }

  /** ~(-1 << n) on 64 bits. */
  function Mask(n: nat): (r: int) {
    W - 1 - ((W - 1) * Pow2(n)) % W
  }

  lemma MaskIs(n: nat)
    requires n <= 64
    ensures Mask(n) == Pow2(n) - 1
  {
    WIsPow2();
    Pow2Add(n, 64 - n);
    var p, q := Pow2(n), Pow2(64 - n);
    assert p * q == W;
    assert p <= W by { assert p * q >= p * 1; }
    assert (W - 1) * p == (p - 1) * W + (W - p);
    ModIs((W - 1) * p, W, p - 1, W - p);
  }

  lemma {:induction false} AndIsMod(v: int, n: nat)
    requires v >= 0
    ensures BitAnd(v, Pow2(n) - 1) == v % Pow2(n)
    decreases n
  {
    hide BitAnd;
    if n == 0 {
      AndZero(v);
    } else if v == 0 {
      ZeroAnd(Pow2(n) - 1);
      ModIs(0, Pow2(n), 0, 0);
    } else {
      var p := Pow2(n - 1);
      AndIsMod(v / 2, n - 1);
      AndHalves(v, p);
      ModTwice(v, p);
    }
  }

  lemma ZeroAnd(b: int)
    requires b >= 0
    ensures BitAnd(0, b) == 0
  {
  }

  lemma AndHalves(v: int, p: int)
    requires v > 0 && p >= 1
    ensures BitAnd(v, 2 * p - 1) == 2 * BitAnd(v / 2, p - 1) + v % 2
  {
    assert (2 * p - 1) / 2 == p - 1 && (2 * p - 1) % 2 == 1;
  }

  lemma {:induction false} AndZero(v: int)
    requires v >= 0
    ensures BitAnd(v, 0) == 0
    decreases v
  {
    if v > 0 {
      AndZero(v / 2);
    }
  }

  lemma ModTwice(v: int, p: int)
    requires v >= 0 && p >= 1
    ensures v % (2 * p) == 2 * ((v / 2) % p) + v % 2
    ensures v / (2 * p) == (v / 2) / p
  {
    var h, q, r := v / 2, (v / 2) / p, (v / 2) % p;
    assert h == q * p + r;
    assert v == 2 * h + v % 2;
    assert v == q * (2 * p) + (2 * r + v % 2);
    ModIs(v, 2 * p, q, 2 * r + v % 2);
  }

  lemma {:induction false} ShiftIsDiv(v: int, n: nat)
    requires v >= 0
    ensures ShiftRight(v, n) == v / Pow2(n)
    decreases n
  {
    if n > 0 {
      ShiftIsDiv(v / 2, n - 1);
      ModTwice(v, Pow2(n - 1));
    }
  }

  // ---------------------------------------------------------------------
  // Reading

  /** What >NUMBER makes of a text: the accumulated value and the number of characters left. */
  datatype Read = Read(value: int, left: nat)

  function ToNumberSpec(acc: int, s: seq<char>, b: int): (r: Read)
    decreases |s|
  {
    if s == [] || s[0] < '0' || DigitOf(s[0]) >= b then Read(acc, |s|)
    else ToNumberSpec((acc * b + DigitOf(s[0])) % W, s[1..], b)
  }

  /** >NUMBER */
  method ToNumber(acc: int, s: seq<char>, b: int) returns (r: Read)
    ensures r == ToNumberSpec(acc, s, b)
  {
    hide DigitOf;
    var accumulator := acc;
    var i := 0;
    while i < |s|
      invariant 0 <= i <= |s|
      invariant ToNumberSpec(acc, s, b) == ToNumberSpec(accumulator, s[i..], b)
    {
      assert s[i..][1..] == s[i + 1..];
      if s[i] < '0' {
        break;
      }
      var digit := DigitOf(s[i]);
      if digit >= b {
        break;
      }
      accumulator := (accumulator * b + digit) % W;
      i := i + 1;
    }
    r := Read(accumulator, |s| - i);
  }

  /** All characters are letters or digits that stand for digits of the base. */
  predicate AllDigits(s: seq<char>, b: int) {
    forall i :: 0 <= i < |s| ==> IsAlnum(s[i]) && DigitOf(s[i]) < b
  }

  /** The value of a string of digits, on 64 bits. */
  function Value(acc: int, s: seq<char>, b: int): (r: int)
    decreases |s|
  {
    if s == [] then acc else Value((acc * b + DigitOf(s[0])) % W, s[1..], b)
  }

  lemma {:induction false} ReadsAll(acc: int, s: seq<char>, b: int)
    requires AllDigits(s, b)
    ensures ToNumberSpec(acc, s, b) == Read(Value(acc, s, b), 0)
    decreases |s|
  {
    hide DigitOf;
    if s != [] {
      assert IsAlnum(s[0]);
      ReadsAll((acc * b + DigitOf(s[0])) % W, s[1..], b);
    }
  }

  lemma {:induction false} ValueAppend(acc: int, s: seq<char>, c: char, b: int)
    ensures Value(acc, s + [c], b) == (Value(acc, s, b) * b + DigitOf(c)) % W
    decreases |s|
  {
    hide DigitOf;
    if s == [] {
      assert s + [c] == [c];
      assert Value(acc, [c], b) == Value((acc * b + DigitOf(c)) % W, [], b);
    } else {
      assert (s + [c])[1..] == s[1..] + [c];
      ValueAppend((acc * b + DigitOf(s[0])) % W, s[1..], c, b);
    }
  }

  /** A numeral consists of digits, and its value is the number. */
  lemma {:induction false} NumeralReads(v: int, b: int)
    requires 0 <= v < W && Base(b)
    ensures AllDigits(Numeral(v, b), b) && Value(0, Numeral(v, b), b) == v && Numeral(v, b) != []
    ensures Numeral(v, b)[|Numeral(v, b)| - 1] == DigitToCharacter(v % b)
    ensures Numeral(v, b)[0] != '-' && Numeral(v, b)[0] != '+'
    decreases v
  {
    hide DigitOf, DigitToCharacter, Numeral, Value, IsAlnum;
    var q, d := v / b, v % b;
    Unfold(v, b, q, d);
    Quotients(v, b);
    DigitBack(d);
    if v < b {
      ValueOne(DigitToCharacter(d), b);
    } else {
      NumeralReads(q, b);
      ValueAppend(0, Numeral(q, b), DigitToCharacter(d), b);
    }
  }

  lemma ValueOne(c: char, b: int)
    ensures Value(0, [c], b) == DigitOf(c) % W
  {
    assert Value(0, [c], b) == Value((0 * b + DigitOf(c)) % W, [], b);
  }

  /** Printing an unsigned cell and reading it with >NUMBER gives it back. */
  lemma PrintedIsRead(v: int, b: int)
    requires 0 <= v < W && Base(b)
    ensures ToNumberSpec(0, Numeral(v, b), b) == Read(v, 0)
  {
    NumeralReads(v, b);
    ReadsAll(0, Numeral(v, b), b);
  }

  // ---------------------------------------------------------------------
  // Signed cells

  predicate Signed(v: int) {
    -W / 2 <= v < W / 2
  }

  function AsSigned(u: int): (v: int)
    requires 0 <= u < W
    ensures Signed(v) && v % W == u
  {
    if u < W / 2 then u else u - W
  }

  /** The text ficlLtoa leaves: a sign in base ten only, elsewhere the unsigned cell. */
  function Printed(v: int, b: int): (s: seq<char>)
    requires Signed(v) && Base(b)
  {
    if b == 10 && v < 0 then "-" + Numeral(-v, b) else Numeral(v % W, b)
  }

  datatype Parsed = NotNumber | Single(n: int) | Double(n: int)

  function ParseDigits(acc: int, s: seq<char>, b: int): (r: Option<int>)
    requires 0 <= acc < W
    ensures r.Some? ==> 0 <= r.value < W
    decreases |s|
  {
    if s == [] || s[0] == '\0' then Some(acc)
    else if !IsAlnum(s[0]) || DigitOf(s[0]) >= b then None
    else ParseDigits((acc * b + DigitOf(s[0])) % W, s[1..], b)
  }

  function Unsigned(s: seq<char>): (r: seq<char>) {
    if |s| > 1 && (s[0] == '-' || s[0] == '+') then s[1..] else s
  }

  function ParseSpec(s: seq<char>, b: int): (r: Parsed) {
    var negative := |s| > 1 && s[0] == '-';
    var t := Unsigned(s);
    var double := t != [] && t[|t| - 1] == 'd';
    var u := if double then t[..|t| - 1] else t;
    if u == [] then NotNumber
    else
      match ParseDigits(0, u, b)
      case None => NotNumber
      case Some(accu) =>
        var n := AsSigned(if negative then (-accu) % W else accu);
        if double then Double(n) else Single(n)
  }

  /** The value of errno after a range error. */
  const ERANGE := 34

  /** ficlVmParseNumber; a range error left in errno makes it fail once. */
  method ParseNumber(s: seq<char>, b: int, errnoBefore: int) returns (r: Parsed, errnoAfter: int)
    ensures r == if errnoBefore == ERANGE then NotNumber else ParseSpec(s, b)
    ensures errnoAfter == if errnoBefore == ERANGE then 0 else errnoBefore
  {
    hide DigitOf, IsAlnum;
    errnoAfter := errnoBefore;
    if errnoBefore == ERANGE {
      return NotNumber, 0;
    }
    var trace, length := 0, |s|;
    var isNegative, isDouble := false, false;
    if length > 1 {
      if s[0] == '-' {
        trace, length, isNegative := 1, length - 1, true;
      } else if s[0] == '+' {
        trace, length := 1, length - 1;
      }
    }
    ghost var t := Unsigned(s);
    assert t == s[trace..];
    if length > 0 && s[trace + length - 1] == 'd' {
      isDouble := true;
      length := length - 1;
    }
    if length == 0 {
      return NotNumber, errnoAfter;
    }
    var parsed := ParseLoop(s[trace..trace + length], b);
    assert s[trace..trace + length] == if isDouble then t[..|t| - 1] else t;
    if parsed.None? {
      return NotNumber, errnoAfter;
    }
    var accumulator := AsSigned(if isNegative then (-parsed.value) % W else parsed.value);
    r := if isDouble then Double(accumulator) else Single(accumulator);
  }

  /** The accumulator loop. */
  method ParseLoop(s: seq<char>, b: int) returns (r: Option<int>)
    ensures r == ParseDigits(0, s, b)
  {
    hide DigitOf, IsAlnum;
    var accu, i := 0, 0;
    while i < |s| && s[i] != '\0'
      invariant 0 <= i <= |s| && 0 <= accu < W
      invariant ParseDigits(0, s, b) == ParseDigits(accu, s[i..], b)
    {
      assert s[i..][1..] == s[i + 1..];
      if !IsAlnum(s[i]) || DigitOf(s[i]) >= b {
        return None;
      }
      accu := (accu * b + DigitOf(s[i])) % W;
      i := i + 1;
    }
    r := Some(accu);
  }

  lemma {:induction false} ParsesAll(acc: int, s: seq<char>, b: int)
    requires AllDigits(s, b) && 0 <= acc < W
    ensures ParseDigits(acc, s, b) == Some(Value(acc, s, b))
    decreases |s|
  {
    hide DigitOf;
    if s != [] {
      assert IsAlnum(s[0]);
      ParsesAll((acc * b + DigitOf(s[0])) % W, s[1..], b);
    }
  }

  /** The last digit is taken for the mark of a double number. */
  predicate Marked(v: int, b: int)
    requires Base(b)
  {
    b >= 14 && (v % W) % b == 13
  }

  // Numerals as a user may write them: capitals, and a sign in front

  /** What the characters from '0' on stand for, outside 0..35 nothing: both cases of a letter are the same digit.
      The original's subtraction also lets the six characters between the cases through. */
  lemma DigitMeans(c: char, b: int)
    requires Base(b) && c >= '0'
    ensures '0' <= c <= '9' ==> DigitOf(c) == c as int - '0' as int
    ensures 'A' <= c <= 'Z' ==> DigitOf(c) == c as int - 'A' as int + 10
    ensures 'a' <= c <= 'z' ==> DigitOf(c) == c as int - 'a' as int + 10
    ensures DigitOf(c) < b <==>
            ('0' <= c <= '9' && c as int - '0' as int < b) || ('A' <= c <= 'Z' && c as int - 'A' as int + 10 < b) ||
            ('a' <= c <= 'z' && c as int - 'a' as int + 10 < b) || ('Z' < c < 'a' && c as int - 'a' as int + 10 < b)
  {
  }

  /** t is s with any of its letters replaced by capitals. */
  predicate Capitals(s: seq<char>, t: seq<char>) {
    |s| == |t| &&
    forall i :: 0 <= i < |s| ==> t[i] == s[i] || ('a' <= s[i] <= 'z' && t[i] as int == s[i] as int - 32)
  }

  lemma {:induction false} CapitalsValue(acc: int, s: seq<char>, t: seq<char>, b: int)
    requires Capitals(s, t) && AllDigits(s, b) && Base(b)
    ensures AllDigits(t, b) && Value(acc, t, b) == Value(acc, s, b)
    decreases |s|
  {
    hide DigitOf;
    forall i | 0 <= i < |s|
      ensures IsAlnum(t[i]) && DigitOf(t[i]) == DigitOf(s[i])
    {
      assert IsAlnum(s[i]);
      DigitMeans(s[i], b);
      DigitMeans(t[i], b);
    }
    if s != [] {
      CapitalsValue((acc * b + DigitOf(s[0])) % W, s[1..], t[1..], b);
    }
  }

  /** A numeral in any mixture of capitals is read by >NUMBER as its cell. */
  lemma CapitalsAreRead(v: int, b: int, t: seq<char>)
    requires 0 <= v < W && Base(b) && Capitals(Numeral(v, b), t)
    ensures ToNumberSpec(0, t, b) == Read(v, 0)
  {
    hide DigitOf, IsAlnum;
    NumeralReads(v, b);
    CapitalsValue(0, Numeral(v, b), t, b);
    ReadsAll(0, t, b);
  }

  lemma {:induction false} ReadsUpTo(acc: int, s: seq<char>, rest: seq<char>, b: int)
    requires AllDigits(s, b) && (rest == [] || rest[0] < '0' || DigitOf(rest[0]) >= b)
    ensures ToNumberSpec(acc, s + rest, b) == Read(Value(acc, s, b), |rest|)
    decreases |s|
  {
    hide DigitOf;
    if s == [] {
      assert s + rest == rest;
    } else {
      assert IsAlnum(s[0]);
      assert (s + rest)[1..] == s[1..] + rest;
      ReadsUpTo((acc * b + DigitOf(s[0])) % W, s[1..], rest, b);
    }
  }

  /** >NUMBER reads a numeral up to the first character that is no digit of the base, and leaves the rest. */
  lemma ReadingStops(v: int, b: int, t: seq<char>, c: char, rest: seq<char>)
    requires 0 <= v < W && Base(b) && Capitals(Numeral(v, b), t)
    requires !('0' <= c <= '9' && c as int - '0' as int < b) && !('A' <= c <= 'Z' && c as int - 'A' as int + 10 < b)
    requires !('a' <= c <= 'z' && c as int - 'a' as int + 10 < b) && !('Z' < c < 'a')
    ensures ToNumberSpec(0, t + ([c] + rest), b) == Read(v, 1 + |rest|)
  {
    hide DigitOf, IsAlnum;
    NumeralReads(v, b);
    CapitalsValue(0, Numeral(v, b), t, b);
    if c >= '0' {
      DigitMeans(c, b);
    }
    ReadsUpTo(0, t, [c] + rest, b);
  }

  /** The cell that a numeral of the unsigned cell u stands for behind a sign. */
  function SignedCell(sign: seq<char>, u: int): (n: int)
    requires 0 <= u < W
  {
    AsSigned(if sign == "-" then (-u) % W else u)
  }

  /** What ficlVmParseNumber makes of a numeral, in any mixture of capitals and behind any sign or none: its cell,
      unless the last character is a small d, which is taken for the double mark. */
  lemma NumeralIsParsed(v: int, b: int, t: seq<char>, sign: seq<char>)
    requires 0 <= v < W && Base(b) && Capitals(Numeral(v, b), t) && sign in {"", "+", "-"}
    ensures t != []
    ensures ParseSpec(sign + t, b) ==
              if t[|t| - 1] != 'd' then Single(SignedCell(sign, v))
              else if v < b then NotNumber
              else Double(SignedCell(sign, v / b))
    ensures t[|t| - 1] == 'd' || t[|t| - 1] == 'D' <==> v % b == 13
  {
    hide DigitOf, DigitToCharacter, Numeral, Value, IsAlnum, ParseDigits, AsSigned;
    var n := Numeral(v, b);
    NumeralReads(v, b);
    CapitalsValue(0, n, t, b);
    LastDigit(n[|n| - 1], t[|t| - 1], v % b);
    FirstDigit(t, b);
    Signs(sign, t);
    if t[|t| - 1] != 'd' {
      ParsesAll(0, t, b);
    } else {
      MarkDropped(v, b, t);
    }
  }

  lemma LastDigit(c: char, k: char, d: int)
    requires 0 <= d < 36 && c == DigitToCharacter(d) && (k == c || ('a' <= c <= 'z' && k as int == c as int - 32))
    ensures k == 'd' || k == 'D' <==> d == 13
  {
  }

  lemma FirstDigit(t: seq<char>, b: int)
    requires AllDigits(t, b) && t != []
    ensures t[0] != '-' && t[0] != '+'
  {
    assert IsAlnum(t[0]);
  }

  lemma Signs(sign: seq<char>, t: seq<char>)
    requires t != [] && t[0] != '-' && t[0] != '+' && sign in {"", "+", "-"}
    ensures Unsigned(sign + t) == t
    ensures |sign + t| > 1 && (sign + t)[0] == '-' <==> sign == "-"
  {
    if sign == "" {
      assert sign + t == t;
    } else {
      assert (sign + t)[0] == sign[0] && (sign + t)[1..] == t;
    }
  }

  lemma MarkDropped(u: int, b: int, t: seq<char>)
    requires 0 <= u < W && Base(b) && Capitals(Numeral(u, b), t) && t != [] && t[|t| - 1] == 'd'
    ensures if u < b then t[..|t| - 1] == []
            else t[..|t| - 1] != [] && ParseDigits(0, t[..|t| - 1], b) == Some(u / b)
  {
    hide DigitOf, DigitToCharacter, Numeral, Value, IsAlnum, ParseDigits;
    var q := u / b;
    Unfold(u, b, q, u % b);
    Quotients(u, b);
    if u >= b {
      NumeralReads(q, b);
      assert Numeral(u, b)[..|t| - 1] == Numeral(q, b);
      CapitalsValue(0, Numeral(q, b), t[..|t| - 1], b);
      ParsesAll(0, t[..|t| - 1], b);
    }
  }

  /** A digit or a letter that stands for less than b. */
  predicate IsDigit(c: char, b: int) {
    ('0' <= c <= '9' && c as int - '0' as int < b) || ('A' <= c <= 'Z' && c as int - 'A' as int + 10 < b) ||
    ('a' <= c <= 'z' && c as int - 'a' as int + 10 < b)
  }

  lemma {:induction false} ParsesIff(acc: int, s: seq<char>, b: int)
    requires Base(b) && 0 <= acc < W && forall i :: 0 <= i < |s| ==> s[i] != '\0'
    ensures ParseDigits(acc, s, b).Some? <==> forall i :: 0 <= i < |s| ==> IsDigit(s[i], b)
    decreases |s|
  {
    hide DigitOf, IsDigit;
    if s != [] {
      DigitIff(s[0], b);
      if IsDigit(s[0], b) {
        ParsesIff((acc * b + DigitOf(s[0])) % W, s[1..], b);
        assert s == [s[0]] + s[1..];
      }
    }
  }

  lemma DigitIff(c: char, b: int)
    requires Base(b)
    ensures IsAlnum(c) && DigitOf(c) < b <==> IsDigit(c, b)
  {
    if c >= '0' {
      DigitMeans(c, b);
    }
  }

  /** Where the digits of a text begin: behind a sign, if there is more. */
  function DigitsFrom(s: seq<char>): (i: nat)
    ensures i <= |s|
  {
    if |s| > 1 && (s[0] == '-' || s[0] == '+') then 1 else 0
  }

  /** And where they end: before a small d. */
  function DigitsTo(s: seq<char>): (i: nat)
    ensures DigitsFrom(s) <= i <= |s|
  {
    if |s| > DigitsFrom(s) && s[|s| - 1] == 'd' then |s| - 1 else |s|
  }

  lemma DigitsParsed(s: seq<char>, b: int)
    ensures ParseSpec(s, b) != NotNumber <==>
            DigitsFrom(s) < DigitsTo(s) && ParseDigits(0, s[DigitsFrom(s)..DigitsTo(s)], b).Some?
  {
    hide ParseDigits, AsSigned;
    var t := s[DigitsFrom(s)..];
    assert Unsigned(s) == t;
    assert t[..|t| - (|s| - DigitsTo(s))] == s[DigitsFrom(s)..DigitsTo(s)];
    assert DigitsTo(s) == |s| ==> t == s[DigitsFrom(s)..DigitsTo(s)];
  }

  /** Exactly which texts are numbers: behind a sign, and before a small d, there is at least one character, and all
      are digits of the base. */
  lemma NumbersAre(s: seq<char>, b: int)
    requires Base(b) && forall i :: 0 <= i < |s| ==> s[i] != '\0'
    ensures ParseSpec(s, b) != NotNumber <==>
            DigitsFrom(s) < DigitsTo(s) && forall i :: DigitsFrom(s) <= i < DigitsTo(s) ==> IsDigit(s[i], b)
  {
    hide ParseSpec, ParseDigits, IsDigit, DigitsFrom, DigitsTo;
    var from, to := DigitsFrom(s), DigitsTo(s);
    DigitsParsed(s, b);
    ParsesIff(0, s[from..to], b);
    assert forall i :: from <= i < to ==> s[i] == s[from..to][i - from];
  }

  /** Reading back a printed cell gives it again if and only if its last digit is not the double mark. */
  lemma PrintedIsParsed(v: int, b: int)
    requires Signed(v) && Base(b)
    ensures ParseSpec(Printed(v, b), b) == Single(v) <==> !Marked(v, b)
    ensures Marked(v, b) ==>
              ParseSpec(Printed(v, b), b) == if v % W < b then NotNumber else Double(AsSigned((v % W) / b))
  {
    hide ParseSpec, Numeral;
    var u, sign := if b == 10 && v < 0 then -v else v % W, if b == 10 && v < 0 then "-" else "";
    assert sign + Numeral(u, b) == Printed(v, b);
    NumeralIsParsed(u, b, Numeral(u, b), sign);
    NumeralEnds(u, b);
  }

  /** A numeral ends in a letter in lower case, if in a letter at all. */
  lemma NumeralEnds(u: int, b: int)
    requires 0 <= u < W && Base(b)
    ensures var n := Numeral(u, b);
            n != [] && n[|n| - 1] != 'D' && 0 <= u % b < b
  {
    hide DigitOf, Numeral, Value, IsAlnum;
    NumeralReads(u, b);
    Quotients(u, b);
  }

  /** In base 16 the cell 13 prints as d, which is no number, and 29 as 1d, which is the double number 1; in capitals
      both are read. */
  lemma HexadecimalD()
    ensures Printed(13, 16) == "d" && ParseSpec("d", 16) == NotNumber && ParseSpec("D", 16) == Single(13)
    ensures Printed(29, 16) == "1d" && ParseSpec("1d", 16) == Double(1) && ParseSpec("1D", 16) == Single(29)
  {
    assert Numeral(1, 16) == "1";
    PrintedIsParsed(13, 16);
    PrintedIsParsed(29, 16);
    NumeralIsParsed(13, 16, "D", "");
    NumeralIsParsed(29, 16, "1D", "");
    assert "" + "D" == "D" && "" + "1D" == "1D";
  }

  // ---------------------------------------------------------------------
  // Printing into a buffer

  /** ficlStringReverse, for a string of n characters before its NUL. */
  method StringReverse(text: array<char>, ghost n: nat)
    requires n < text.Length && text[n] == '\0' && forall i :: 0 <= i < n ==> text[i] != '\0'
    modifies text
    ensures text[..n] == Reverse(old(text[..n])) && text[n..] == old(text[n..])
  {
    var i := Strlen(text, n);
    if i > 1 {
      ReverseLoop(text, i);
    } else {
      ReverseShort(text[..n]);
    }
  }

  method Strlen(text: array<char>, ghost n: nat) returns (i: nat)
    requires n < text.Length && text[n] == '\0' && forall i :: 0 <= i < n ==> text[i] != '\0'
    ensures i == n
  {
    i := 0;
    while text[i] != '\0'
      invariant i <= n
      decreases n - i
    {
      i := i + 1;
    }
  }

  lemma ReverseShort(s: seq<char>)
    requires |s| <= 1
    ensures Reverse(s) == s
  {
  }

  lemma ReverseIs(s: seq<char>, r: seq<char>)
    requires |r| == |s| && forall k :: 0 <= k < |s| ==> r[k] == s[|s| - 1 - k]
    ensures r == Reverse(s)
  {
    forall k | 0 <= k < |s|
      ensures r[k] == Reverse(s)[k]
    {
      ReverseAt(s, k);
    }
  }

  method ReverseLoop(text: array<char>, n: nat)
    requires 1 < n <= text.Length
    modifies text
    ensures text[..n] == Reverse(old(text[..n])) && text[n..] == old(text[n..])
  {
    hide Reverse;
    var p1, p2 := 0, n - 1;
    while p1 < p2
      invariant 0 <= p1 && p1 + p2 == n - 1 && p1 <= p2 + 1
      invariant forall k :: 0 <= k < p1 ==> text[k] == old(text[n - 1 - k]) && text[n - 1 - k] == old(text[k])
      invariant forall k :: p1 <= k <= p2 ==> text[k] == old(text[k])
      invariant text[n..] == old(text[n..])
    {
      var c := text[p2];
      text[p2] := text[p1];
      text[p1] := c;
      p1, p2 := p1 + 1, p2 - 1;
    }
    ghost var s, r := old(text[..n]), text[..n];
    forall k | 0 <= k < n
      ensures r[k] == s[n - 1 - k]
    {
      if k > p2 && k >= p1 {
        assert text[n - 1 - (n - 1 - k)] == old(text[n - 1 - k]);
      }
    }
    ReverseIs(s, r);
  }

  lemma {:induction false} Pow2Grows(m: nat, n: nat)
    requires m <= n
    ensures Pow2(m) <= Pow2(n)
    decreases n - m
  {
    if m < n {
      Pow2Grows(m + 1, n);
    }
  }

  /** ficlIsPowerOfTwo: the exponent, or 0. */
  method IsPowerOfTwo(u: int) returns (r: nat)
    requires 0 <= u < W
    ensures r != 0 ==> u == Pow2(r)
    ensures r == 0 ==> forall k: nat :: k >= 1 ==> u != Pow2(k)
  {
    hide Pow2;
    PowersStart();
    var i: nat, t := 1, 2;
    while t <= u && t != 0
      invariant 1 <= i <= 64 && t == if i == 64 then 0 else Pow2(i)
      invariant forall k: nat :: 1 <= k < i ==> u != Pow2(k)
      decreases 64 - i
    {
      if u == t {
        return i;
      }
      PowersStep(i);
      i := i + 1;
      t := (t * 2) % W;
    }
    forall k: nat | k >= i
      ensures u != Pow2(k)
    {
      PowersStart();
      Pow2Grows(i, k);
    }
    r := 0;
  }

  lemma PowersStart()
    ensures Pow2(1) == 2 && Pow2(64) == W
  {
    WIsPow2();
  }

  lemma PowersStep(i: nat)
    requires 1 <= i < 64
    ensures Pow2(i + 1) == 2 * Pow2(i)
    ensures (Pow2(i) * 2) % W == if i + 1 == 64 then 0 else Pow2(i + 1)
  {
    PowersStart();
    if i + 1 < 64 {
      Pow2Grows(i + 2, 64);
      assert Pow2(i + 2) == 2 * Pow2(i + 1);
    }
  }

  /** The length of the longest text, and its NUL. */
  const BUFFER := 66

  /** The loop that divides. */
  method Divide(value: int, text: array<char>, radix: int) returns (cp: nat)
    requires 0 <= value < W && Base(radix) && text.Length >= BUFFER
    modifies text
    ensures cp <= 64 && text[..cp] == Backward(value, radix)
  {
    hide DigitToCharacter, Backward;
    WIsPow2();
    BackwardLength(value, radix, 64);
    cp := 0;
    var v := value;
    while v != 0
      invariant 0 <= v <= value && cp <= 64
      invariant text[..cp] + Backward(v, radix) == Backward(value, radix)
      decreases v
    {
      Quotients(v, radix);
      Unfold(v, radix, v / radix, v % radix);
      ghost var was := text[..cp];
      text[cp] := DigitToCharacter(v % radix);
      assert text[..cp + 1] == was + [DigitToCharacter(v % radix)];
      v := v / radix;
      cp := cp + 1;
    }
    NothingForZero(radix);
  }

  /** The loop that masks and shifts, for a radix that is a power of two. */
  method Shift(value: int, text: array<char>, pwr: nat, radix: int) returns (cp: nat)
    requires 0 <= value < W && Base(radix) && radix == Pow2(pwr) && pwr <= 64 && text.Length >= BUFFER
    modifies text
    ensures cp <= 64 && text[..cp] == Backward(value, radix)
  {
    hide DigitToCharacter, Backward, BitAnd, ShiftRight, Mask, Pow2;
    PowersStart();
    BackwardLength(value, radix, 64);
    var mask := Mask(pwr);
    MaskIs(pwr);
    cp := 0;
    var v := value;
    while v != 0
      invariant 0 <= v <= value && cp <= 64
      invariant text[..cp] + Backward(v, radix) == Backward(value, radix)
      decreases v
    {
      Quotients(v, radix);
      Unfold(v, radix, v / radix, v % radix);
      AndIsMod(v, pwr);
      ShiftIsDiv(v, pwr);
      ghost var was := text[..cp];
      text[cp] := DigitToCharacter(BitAnd(v, mask));
      assert text[..cp + 1] == was + [DigitToCharacter(v % radix)];
      v := ShiftRight(v, pwr);
      cp := cp + 1;
    }
    NothingForZero(radix);
  }

  lemma {:induction false} BackwardClean(v: int, b: int, i: nat)
    requires v >= 0 && Base(b) && i < |Backward(v, b)|
    ensures Backward(v, b)[i] != '\0'
    decreases v
  {
    hide DigitToCharacter;
    Quotients(v, b);
    if v > 0 {
      DigitBack(v % b);
      if i > 0 {
        BackwardClean(v / b, b, i - 1);
      }
    }
  }

  /** What precedes the reversal: the digits backward, "0" for zero. */
  function Emitted(v: int, b: int): (s: seq<char>)
    requires v >= 0 && Base(b)
  {
    if v == 0 then "0" else Backward(v, b)
  }

  lemma EmittedReversed(v: int, b: int)
    requires 0 <= v && Base(b)
    ensures Reverse(Emitted(v, b)) == Numeral(v, b)
    ensures forall i :: 0 <= i < |Emitted(v, b)| ==> Emitted(v, b)[i] != '\0'
  {
    if v == 0 {
      ReverseShort("0");
      DigitBack(0);
    } else {
      BackwardReversed(v, b);
      forall i | 0 <= i < |Backward(v, b)|
        ensures Backward(v, b)[i] != '\0'
      {
        BackwardClean(v, b, i);
      }
    }
  }

  /** The common end: NUL-terminate and reverse. */
  method Terminate(text: array<char>, n: nat)
    requires n < text.Length && forall i :: 0 <= i < n ==> text[i] != '\0'
    modifies text
    ensures text[..n] == Reverse(old(text[..n])) && text[n] == '\0'
  {
    hide Reverse;
    ghost var was := text[..n];
    text[n] := '\0';
    assert text[..n] == was;
    StringReverse(text, n);
    assert text[n..][0] == '\0';
  }

  /** The three printing loops of ficlLtoa: for zero, by shifts, and by division. */
  method Digits(u: nat, text: array<char>, pwr: nat, radix: int) returns (n: nat)
    requires u < W && Base(radix) && text.Length >= BUFFER && (pwr == 0 || Pow2(pwr) == radix)
    modifies text
    ensures n <= 64 && text[..n] == Emitted(u, radix)
  {
    hide DigitToCharacter, Backward, Pow2;
    if u == 0 {
      text[0] := '0';
      n := 1;
    } else if pwr != 0 {
      SmallPower(pwr, radix);
      n := Shift(u, text, pwr, radix);
    } else {
      n := Divide(u, text, radix);
    }
  }

  /** The value that ficlLtoa converts once the sign is off, and what its numeral is with the sign again. */
  lemma SignOff(value: int, radix: int, sign: bool, v: int)
    requires Signed(value) && Base(radix) && sign == (radix == 10 && value < 0)
    requires v == if sign then AsSigned((-value) % W) else value
    ensures 0 <= v % W < W && (v == 0 <==> v % W == 0)
    ensures (if sign then "-" else []) + Numeral(v % W, radix) == Printed(value, radix)
  {
    hide Numeral;
    if !sign {
      assert [] + Numeral(v % W, radix) == Numeral(v % W, radix);
    }
  }

  /** ficlLtoa */
  method Ltoa(value: int, text: array<char>, radix: int) returns (n: nat)
    requires Signed(value) && Base(radix) && text.Length >= BUFFER
    modifies text
    ensures n < text.Length && text[..n] == Printed(value, radix) && text[n] == '\0'
  {
    hide DigitToCharacter, Backward, Reverse, Numeral, Pow2, Printed, AsSigned, Emitted;
    var sign := radix == 10 && value < 0;
    var pwr := IsPowerOfTwo(radix);
    var v := if sign then AsSigned((-value) % W) else value;
    ghost var u := v % W;
    SignOff(value, radix, sign, v);
    n := Digits(v % W, text, pwr, radix);
    assert text[..n] == Emitted(u, radix);
    EmittedReversed(u, radix);
    n := Close(text, n, sign);
  }

  /** The sign, the NUL and the reversal. */
  method Close(text: array<char>, cp: nat, sign: bool) returns (n: nat)
    requires cp + 1 < text.Length && forall i :: 0 <= i < cp ==> text[..cp][i] != '\0'
    modifies text
    ensures n < text.Length && text[n] == '\0'
    ensures text[..n] == (if sign then "-" else []) + Reverse(old(text[..cp]))
  {
    hide Reverse;
    n := cp;
    ghost var was := text[..cp];
    if sign {
      text[n] := '-';
      assert text[..cp] == was;
      assert text[..cp + 1] == was + ['-'];
      n := n + 1;
      ReverseAppend(was, '-');
    }
    assert forall i :: 0 <= i < cp ==> text[i] == was[i];
    Terminate(text, n);
  }

  lemma SmallPower(pwr: nat, radix: int)
    requires Base(radix) && radix == Pow2(pwr)
    ensures pwr <= 64
  {
    if pwr > 64 {
      PowersStart();
      Pow2Grows(64, pwr);
    }
  }

  /** ficlUltoa */
  method Ultoa(value: int, text: array<char>, radix: int) returns (n: nat)
    requires 0 <= value < W && Base(radix) && text.Length >= BUFFER
    modifies text
    ensures n < text.Length && text[..n] == Numeral(value, radix) && text[n] == '\0'
  {
    hide DigitToCharacter, Backward, Reverse, Numeral;
    if value == 0 {
      text[0] := '0';
      n := 1;
    } else {
      n := Divide(value, text, radix);
    }
    assert text[..n] == Emitted(value, radix);
    EmittedReversed(value, radix);
    assert forall i :: 0 <= i < n ==> text[i] == text[..n][i];
    Terminate(text, n);
  }

  /** <# #S #>: the pad is cleared, filled, terminated and reversed. */
  method Pictured(value: int, pad: array<char>, base: int) returns (length: nat)
    requires 0 <= value < W && Base(base) && pad.Length >= BUFFER
    modifies pad
    ensures length < pad.Length && pad[..length] == Numeral(value, base) && pad[length] == '\0'
  {
    hide DigitToCharacter, Backward, Reverse, Numeral, Emitted;
    length := NumberSignS(value, pad, base);
    EmittedReversed(value, base);
    assert forall i :: 0 <= i < length ==> pad[i] == pad[..length][i];
    Terminate(pad, length);
  }

  /** #S on an empty pad: at least one division. */
  method NumberSignS(value: int, pad: array<char>, base: int) returns (length: nat)
    requires 0 <= value < W && Base(base) && pad.Length >= BUFFER
    modifies pad
    ensures length <= 64 && pad[..length] == Emitted(value, base)
  {
    hide DigitToCharacter, Backward, Emitted;
    Quotients(value, base);
    PicturedStart(value, base);
    BackwardLength64(value, base);
    pad[0] := DigitToCharacter(value % base);
    length := 1;
    var ud := value / base;
    while ud != 0
      invariant 0 <= ud <= value && length <= 64
      invariant pad[..length] + Backward(ud, base) == Emitted(value, base)
      decreases ud
    {
      ghost var was := pad[..length];
      ghost var rest := EmitStep(ud, base);
      var d := ud % base;
      pad[length] := DigitToCharacter(d);
      ud := ud / base;
      length := length + 1;
      assert pad[..length] == was + [DigitToCharacter(d)];
      assert was + ([DigitToCharacter(d)] + rest) == pad[..length] + rest;
    }
    NothingForZero(base);
    assert pad[..length] + [] == pad[..length];
  }

  lemma EmitStep(v: int, b: int) returns (rest: seq<char>)
    requires v > 0 && Base(b)
    ensures 0 <= v / b < v && 0 <= v % b < 36
    ensures rest == Backward(v / b, b) && Backward(v, b) == [DigitToCharacter(v % b)] + rest
  {
    Quotients(v, b);
    Unfold(v, b, v / b, v % b);
    rest := Backward(v / b, b);
  }

  lemma PicturedStart(v: int, b: int)
    requires v >= 0 && Base(b)
    ensures [DigitToCharacter(v % b)] + Backward(v / b, b) == Emitted(v, b)
  {
    Quotients(v, b);
    if v == 0 {
      NothingForZero(b);
    }
  }

  lemma BackwardLength64(v: int, b: int)
    requires 0 <= v < W && Base(b)
    ensures |Emitted(v, b)| <= 64
  {
    WIsPow2();
    BackwardLength(v, b, 64);
  }
}
