/** The few text operations that the log and snapshot lines use: decimal numbers as printed by
    %d and read by strconv.Atoi, strings.Split on one separator, and bufio line scanning. */
module Text {
  import opened Bytes

  predicate IsDigit(c: char) { '0' <= c <= '9' }

  function Digits(n: nat): (s: string)
    ensures s != [] && forall i :: 0 <= i < |s| ==> IsDigit(s[i])
  {
    if n < 10 then [('0' as int + n) as char] else Digits(n / 10) + [('0' as int + n % 10) as char]
  }

  function Itoa(n: int): string {
    if n < 0 then "-" + Digits(-n) else Digits(n)
  }

  predicate AllDigits(s: string) { forall i :: 0 <= i < |s| ==> IsDigit(s[i]) }

  function DigitsValue(s: string): nat
    requires AllDigits(s)
  {
    if s == [] then 0 else 10 * DigitsValue(s[..|s| - 1]) + (s[|s| - 1] as int - '0' as int)
  }

  predicate InInt64(n: int) { -TWO_63 <= n < TWO_63 }

  /** An optional sign, then at least one digit, in the range of a 64-bit int. */
  function Atoi(s: string): Option<int> {
    var signed := s != [] && (s[0] == '-' || s[0] == '+');
    var digits := if signed then s[1..] else s;
    if digits == [] || !AllDigits(digits) then None
    else
      var n := if signed && s[0] == '-' then 0 - DigitsValue(digits) else DigitsValue(digits);
      if InInt64(n) then Some(n) else None
  }

  lemma {:induction false} DigitsRoundTrip(n: nat)
    ensures DigitsValue(Digits(n)) == n
  {
    if n >= 10 {
      DigitsRoundTrip(n / 10);
      assert Digits(n)[..|Digits(n)| - 1] == Digits(n / 10);
    } else {
      assert Digits(n)[..0] == [];
    }
  }

  lemma AtoiItoa(n: int)
    requires InInt64(n)
    ensures Atoi(Itoa(n)) == Some(n)
  {
    var s := Itoa(n);
    if n < 0 {
      DigitsRoundTrip(-n);
      assert s[0] == '-' && s[1..] == Digits(-n);
    } else {
      DigitsRoundTrip(n);
      assert s == Digits(n);
      assert IsDigit(s[0]);
    }
  }

  /** A printed number has no superfluous zero and a sign only if it is negative. */
  lemma ItoaCanonical(n: int)
    ensures n == 0 ==> Itoa(n) == "0"
    ensures n > 0 ==> '1' <= Itoa(n)[0] <= '9' && forall i :: 0 <= i < |Itoa(n)| ==> '0' <= Itoa(n)[i] <= '9'
    ensures n < 0 ==> Itoa(n) == "-" + Itoa(-n)
  {
    if n > 0 {
      NoLeadingZero(n);
    }
  }

  lemma {:induction false} NoLeadingZero(n: nat)
    requires n > 0
    ensures Digits(n)[0] != '0'
  {
    if n >= 10 {
      NoLeadingZero(n / 10);
    }
  }

  function ZeroDigits(z: nat): string { seq(z, i => '0') }

  /** s is n as printed, with zeros in front, and with a plus sign, or a minus sign before the zero, if
      it likes. */
  predicate Numeral(s: string, n: int, z: nat) {
    || (n >= 0 && (s == ZeroDigits(z) + Itoa(n) || s == "+" + (ZeroDigits(z) + Itoa(n))))
    || (n <= 0 && s == "-" + (ZeroDigits(z) + Itoa(-n)))
  }

  lemma {:induction false} StripZeros(s: string) returns (z: nat)
    requires s != [] && AllDigits(s)
    ensures s == ZeroDigits(z) + Digits(DigitsValue(s))
  {
    var n := |s| - 1;
    z := 0;
    if n > 0 {
      z := StripZeros(s[..n]);
      OneMoreDigit(s[..n], s[n], z);
      z := if DigitsValue(s[..n]) == 0 then z + 1 else z;
    }
    assert s == s[..n] + [s[n]];
  }

  lemma OneMoreDigit(s: string, c: char, z: nat)
    requires s != [] && AllDigits(s) && IsDigit(c) && s == ZeroDigits(z) + Digits(DigitsValue(s))
    ensures var n := 10 * DigitsValue(s) + (c as int - '0' as int);
            s + [c] == ZeroDigits(if DigitsValue(s) == 0 then z + 1 else z) + Digits(n)
  {
    if DigitsValue(s) == 0 {
      assert ZeroDigits(z) + "0" == ZeroDigits(z + 1);
    } else {
      var m := 10 * DigitsValue(s) + (c as int - '0' as int);
      assert m / 10 == DigitsValue(s) && Digits(m) == Digits(DigitsValue(s)) + [c];
    }
  }

  lemma {:induction false} ZerosInFront(z: nat, s: string)
    requires AllDigits(s)
    ensures AllDigits(ZeroDigits(z) + s) && DigitsValue(ZeroDigits(z) + s) == DigitsValue(s)
  {
    var t := ZeroDigits(z) + s;
    if s != [] {
      var n := |s| - 1;
      ZerosInFront(z, s[..n]);
      assert t[..|t| - 1] == ZeroDigits(z) + s[..n];
    } else if z > 0 {
      ZerosInFront(z - 1, []);
      assert ZeroDigits(z - 1) + [] == t[..z - 1];
    }
  }

  lemma AtoiOfDigits(digits: string, n: int)
    requires digits != [] && AllDigits(digits) && DigitsValue(digits) == n
    ensures n < 0x8000_0000_0000_0000 ==> Atoi(digits) == Some(n) && Atoi("+" + digits) == Some(n)
    ensures n <= 0x8000_0000_0000_0000 ==> Atoi("-" + digits) == Some(-n)
  {
    assert IsDigit(digits[0]);
    assert ("+" + digits)[1..] == digits;
    assert ("-" + digits)[1..] == digits;
  }

  lemma ZerosAndDigits(z: nat, m: nat)
    ensures var digits := ZeroDigits(z) + Digits(m);
            digits != [] && AllDigits(digits) && DigitsValue(digits) == m
  {
    DigitsRoundTrip(m);
    ZerosInFront(z, Digits(m));
  }

  lemma PlainIsRead(n: nat, z: nat)
    requires n < 0x8000_0000_0000_0000
    ensures Atoi(ZeroDigits(z) + Itoa(n)) == Some(n) && Atoi("+" + (ZeroDigits(z) + Itoa(n))) == Some(n)
  {
    ZerosAndDigits(z, n);
    AtoiOfDigits(ZeroDigits(z) + Digits(n), n);
  }

  lemma MinusIsRead(n: nat, z: nat)
    requires n <= 0x8000_0000_0000_0000
    ensures Atoi("-" + (ZeroDigits(z) + Itoa(n))) == Some(-(n as int))
  {
    ZerosAndDigits(z, n);
    AtoiOfDigits(ZeroDigits(z) + Digits(n), n);
  }

  lemma NumeralIsRead(s: string, n: int, z: nat)
    requires Numeral(s, n, z) && -0x8000_0000_0000_0000 <= n < 0x8000_0000_0000_0000
    ensures Atoi(s) == Some(n)
  {
    if n >= 0 {
      PlainIsRead(n, z);
    }
    if n <= 0 {
      MinusIsRead(-n, z);
    }
  }

  /** Which texts are read as n: the numerals of n, if it is a 64-bit integer. */
  lemma AtoiExactly(s: string, n: int)
    ensures Atoi(s) == Some(n) <==>
            -0x8000_0000_0000_0000 <= n < 0x8000_0000_0000_0000 && exists z: nat :: Numeral(s, n, z)
  {
    if Atoi(s) == Some(n) {
      var signed := s[0] == '-' || s[0] == '+';
      var z := StripZeros(if signed then s[1..] else s);
      if signed {
        assert s == [s[0]] + s[1..];
      }
      assert Numeral(s, n, z);
    }
    if -0x8000_0000_0000_0000 <= n < 0x8000_0000_0000_0000 && exists z: nat :: Numeral(s, n, z) {
      var z: nat :| Numeral(s, n, z);
      NumeralIsRead(s, n, z);
    }
  }

  predicate Lacks(s: string, c: char) { c !in s }

  lemma ItoaLacks(n: int, c: char)
    requires c != '-' && !IsDigit(c)
    ensures Lacks(Itoa(n), c)
  {
  }

  lemma ItoaLast(n: int)
    ensures Itoa(n) != [] && IsDigit(Itoa(n)[|Itoa(n)| - 1])
  {
    var s := if n < 0 then Digits(-n) else Digits(n);
    assert IsDigit(s[|s| - 1]);
  }

  /** The pieces of s between the separators; always at least one. */
  function Split(s: string, sep: char): (parts: seq<string>)
    ensures parts != []
  {
    if s == [] then [[]]
    else if s[0] == sep then [[]] + Split(s[1..], sep)
    else
      var rest := Split(s[1..], sep);
      [[s[0]] + rest[0]] + rest[1..]
  }

  lemma {:induction false} SplitLacks(s: string, sep: char)
    requires Lacks(s, sep)
    ensures Split(s, sep) == [s]
  {
    if s != [] {
      SplitLacks(s[1..], sep);
      assert [s[0]] + s[1..] == s;
    }
  }

  lemma {:induction false} SplitAt(a: string, sep: char, b: string)
    requires Lacks(a, sep)
    ensures Split(a + [sep] + b, sep) == [a] + Split(b, sep)
  {
    var s := a + [sep] + b;
    if a == [] {
      assert s[1..] == b;
    } else {
      SplitAt(a[1..], sep, b);
      assert s[1..] == a[1..] + [sep] + b;
      assert [a[0]] + a[1..] == a;
    }
  }

  /** No piece contains the separator, nor any character that s does not contain. */
  lemma {:induction false} PiecesLacks(s: string, sep: char, c: char)
    requires c == sep || Lacks(s, c)
    ensures forall i :: 0 <= i < |Split(s, sep)| ==> Lacks(Split(s, sep)[i], c)
  {
    if s != [] {
      PiecesLacks(s[1..], sep, c);
    }
  }

  /** A scanned line loses one carriage return at its end. */
  function DropCR(line: string): string {
    if line != [] && line[|line| - 1] == '\r' then line[..|line| - 1] else line
  }

  /** An empty last piece is no line. */
  function DropEach(pieces: seq<string>): seq<string>
    requires pieces != []
  {
    if |pieces| == 1 then if pieces[0] == [] then [] else [DropCR(pieces[0])]
    else [DropCR(pieces[0])] + DropEach(pieces[1..])
  }

  /** The lines a scanner delivers. */
  function Lines(text: string): seq<string> {
    DropEach(Split(text, '\n'))
  }

  lemma LinesCons(line: string, rest: string)
    requires Lacks(line, '\n')
    ensures Lines(line + ['\n'] + rest) == [DropCR(line)] + Lines(rest)
  {
    SplitAt(line, '\n', rest);
    assert ([line] + Split(rest, '\n'))[1..] == Split(rest, '\n');
  }

  lemma {:induction false} DropEachLacks(pieces: seq<string>, c: char)
    requires pieces != []
    requires forall i :: 0 <= i < |pieces| ==> Lacks(pieces[i], c)
    ensures forall i :: 0 <= i < |DropEach(pieces)| ==> Lacks(DropEach(pieces)[i], c)
  {
    if |pieces| > 1 {
      DropEachLacks(pieces[1..], c);
    }
  }

  lemma LinesLacks(text: string)
    ensures forall i :: 0 <= i < |Lines(text)| ==> Lacks(Lines(text)[i], '\n')
  {
    PiecesLacks(text, '\n', '\n');
    DropEachLacks(Split(text, '\n'), '\n');
  }

  /** Each line followed by a newline. */
  function Unlines(lines: seq<string>): string {
    if lines == [] then [] else lines[0] + ['\n'] + Unlines(lines[1..])
  }

  lemma {:induction false} UnlinesConcat(a: seq<string>, b: seq<string>)
    ensures Unlines(a + b) == Unlines(a) + Unlines(b)
  {
    if a == [] {
      assert a + b == b;
    } else {
      UnlinesConcat(a[1..], b);
      assert (a + b)[1..] == a[1..] + b;
    }
  }
}
