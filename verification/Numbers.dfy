/** Printing numbers: digits are written from the lowest on and then reversed in place. */
module Numbers {
  import opened Arith
  import opened CStrings

  const LOOKUP: string := "0123456789ABCDEFGHIJKLMNOPQRSTUVWXYZ"
  const WORD: nat := 0x1_0000_0000

  predicate IsRadix(radix: nat) {
    2 <= radix <= 36
  }

  // ---------- Numerals ----------

  /** A number without its last digit. */
  function High(value: nat, radix: nat): (q: nat)
    requires IsRadix(radix)
    ensures value > 0 ==> q < value
  {
    value / radix
  }

  /** The last digit. */
  function Low(value: nat, radix: nat): (d: nat)
    requires IsRadix(radix)
    ensures d < radix <= 36
  {
    value % radix
  }

  lemma HighLow(value: nat, radix: nat)
    requires IsRadix(radix)
    ensures value == High(value, radix) * radix + Low(value, radix)
  {
  }

  function DigitOf(i: nat): char
    requires i < 36
  {
    LOOKUP[i]
  }

  /** The digits of a positive number, the highest first. */
  function Digits(value: nat, radix: nat): string
    requires IsRadix(radix)
  {
    if value == 0 then "" else Digits(High(value, radix), radix) + [DigitOf(Low(value, radix))]
  }

  function Numeral(value: nat, radix: nat): string
    requires IsRadix(radix)
  {
    if value == 0 then "0" else Digits(value, radix)
  }

  function DigitValue(c: char): int {
    if '0' <= c <= '9' then c as int - '0' as int
    else if 'A' <= c <= 'Z' then c as int - 'A' as int + 10
    else -1
  }

  predicate IsNumeral(s: string, radix: nat) {
    forall i :: 0 <= i < |s| ==> 0 <= DigitValue(s[i]) < radix
  }

  /** What a string of digits stands for. */
  function Eval(s: string, radix: nat): nat
    requires IsNumeral(s, radix)
  {
    if s == [] then 0 else Eval(s[..|s| - 1], radix) * radix + DigitValue(s[|s| - 1])
  }

  lemma LookupValue(i: nat)
    requires i < 36
    ensures DigitValue(DigitOf(i)) == i
  {
    if i < 10 {
    } else if i < 20 {
    } else if i < 28 {
    }
  }

  lemma ValueLookup(c: char)
    requires 0 <= DigitValue(c) < 36
    ensures DigitOf(DigitValue(c)) == c
  {
  }

  lemma EvalAppended(s: string, c: char, radix: nat)
    requires IsNumeral(s, radix) && 0 <= DigitValue(c) < radix
    ensures IsNumeral(s + [c], radix) && Eval(s + [c], radix) == Eval(s, radix) * radix + DigitValue(c)
  {
    hide DigitValue;
    assert (s + [c])[..|s|] == s;
  }

  lemma {:induction false} DigitsEvaluate(value: nat, radix: nat)
    requires IsRadix(radix)
    ensures IsNumeral(Digits(value, radix), radix) && Eval(Digits(value, radix), radix) == value
  {
    hide DigitValue, IsNumeral, Eval, High, Low;
    if value == 0 {
      NoDigits(radix);
    } else {
      HighLow(value, radix);
      DigitsEvaluate(High(value, radix), radix);
      LookupValue(Low(value, radix));
      EvalAppended(Digits(High(value, radix), radix), DigitOf(Low(value, radix)), radix);
    }
  }

  lemma NoDigits(radix: nat)
    ensures IsNumeral("", radix) && Eval("", radix) == 0
  {
  }

  /** The numeral stands for the number. */
  lemma NumeralEvaluates(value: nat, radix: nat)
    requires IsRadix(radix)
    ensures IsNumeral(Numeral(value, radix), radix) && Eval(Numeral(value, radix), radix) == value
  {
    DigitsEvaluate(value, radix);
    if value == 0 {
      assert "0"[..0] == [];
    }
  }

  lemma {:induction false} EvalPositive(s: string, radix: nat)
    requires IsRadix(radix) && IsNumeral(s, radix) && s != [] && s[0] != '0'
    ensures Eval(s, radix) > 0
  {
    if |s| == 1 {
      ValueLookup(s[0]);
    } else {
      var before := s[..|s| - 1];
      EvalPositive(before, radix);
      MultipleOutside(Eval(before, radix), radix);
    }
  }

  /** And it is the only one without a leading zero. */
  lemma {:induction false} NumeralUnique(s: string, radix: nat)
    requires IsRadix(radix) && IsNumeral(s, radix) && s != [] && s[0] != '0'
    ensures Eval(s, radix) > 0 && Digits(Eval(s, radix), radix) == s
  {
    EvalPositive(s, radix);
    var before, c := s[..|s| - 1], s[|s| - 1];
    ValueLookup(c);
    RemainderUnique(Eval(s, radix), radix, Eval(before, radix), DigitValue(c));
    if |s| == 1 {
      assert before == [];
    } else {
      NumeralUnique(before, radix);
    }
  }

  lemma {:induction false} NoLeadingZero(value: nat, radix: nat)
    requires IsRadix(radix) && value > 0
    ensures Digits(value, radix) != [] && Digits(value, radix)[0] != '0'
  {
    if value < radix {
      RemainderUnique(value, radix, 0, value);
      assert Digits(value, radix) == [DigitOf(value)];
      LookupValue(value);
    } else {
      DivisionBounds(value, radix);
      NoLeadingZero(High(value, radix), radix);
    }
  }

  lemma DivisionBounds(value: nat, d: nat)
    requires 0 < d <= value
    ensures 0 < value / d
  {
    assert value == d * (value / d) + value % d;
  }

  function Power(base: nat, k: nat): nat {
    if k == 0 then 1 else base * Power(base, k - 1)
  }

  lemma Larger(a: nat, b: nat, c: nat)
    requires a <= b
    ensures a * c <= b * c && c * a <= c * b
  {
    assert b * c == a * c + (b - a) * c && (b - a) * c >= 0;
  }

  lemma HighBelow(value: nat, radix: nat, base: nat, p: nat)
    requires IsRadix(radix) && 0 < base <= radix && value < base * p
    ensures High(value, radix) < p
  {
    hide High, Low;
    HighLow(value, radix);
    var q := High(value, radix);
    Larger(base, radix, q);
    if p <= q {
      Larger(p, q, base);
    }
  }

  /** A radix at least as high needs no more digits. */
  lemma {:induction false} DigitsFit(value: nat, radix: nat, base: nat, k: nat)
    requires IsRadix(radix) && 0 < base <= radix && value < Power(base, k)
    ensures |Digits(value, radix)| <= k
  {
    hide High, Low;
    if value != 0 {
      HighBelow(value, radix, base, Power(base, k - 1));
      DigitsFit(High(value, radix), radix, base, k - 1);
    }
  }

  lemma Powers()
    ensures Power(2, 32) == Power(16, 8) == WORD
  {
    assert Power(2, 8) == 0x100;
    assert Power(2, 16) == 0x1_0000;
    assert Power(2, 24) == 0x100_0000;
    assert Power(16, 4) == 0x1_0000;
  }

  /** No 32-bit number needs more than 32 digits, nor more than 8 hexadecimal ones. */
  lemma NumeralFits(value: nat, radix: nat)
    requires IsRadix(radix) && value < WORD
    ensures 1 <= |Numeral(value, radix)| <= 32
    ensures radix >= 16 ==> |Numeral(value, radix)| <= 8
  {
    Powers();
    DigitsFit(value, radix, 2, 32);
    if radix >= 16 {
      DigitsFit(value, radix, 16, 8);
    }
    if value > 0 {
      NoLeadingZero(value, radix);
    }
  }

  // ---------- Conversion in place ----------

  function Reversed(s: string): (r: string)
    ensures |r| == |s| && forall i :: 0 <= i < |s| ==> r[i] == s[|s| - 1 - i]
  {
    seq(|s|, i requires 0 <= i < |s| => s[|s| - 1 - i])
  }

  /** Reverses the string that starts at `at` and ends at `z`. */
  method Strrev(s: array<char>, at: nat, ghost z: nat)
    requires EndsAt(s[..], at, z)
    modifies s
    ensures s[at..z] == Reversed(old(s[at..z]))
    ensures forall k :: 0 <= k < s.Length && !(at <= k < z) ==> s[k] == old(s[k])
  {
    CStringEnd(s[..], at, z);
    ghost var was := s[at..z];
    var len := Strlen(s, at);
    hide CString, EndsAt;
    var beg: int := 0;
    var end: int := len as int - 1;
    assert s[at..z] == Swapped(was, 0);
    while beg < end
      invariant 0 <= beg && beg + end + 1 == len && beg <= end + 1
      invariant s[at..z] == Swapped(was, beg)
      invariant forall k :: 0 <= k < s.Length && !(at <= k < z) ==> s[k] == old(s[k])
      decreases end - beg
    {
      ghost var now := s[at..z];
      var tmp := s[at + end];
      s[at + end] := s[at + beg];
      s[at + beg] := tmp;
      assert s[at..z] == now[end := now[beg]][beg := now[end]];
      SwappedNext(was, beg);
      beg := beg + 1;
      end := end - 1;
    }
    SwappedAll(was, beg);
  }

  /** The first and last `b` characters exchanged. */
  function Swapped(s: string, b: nat): (r: string)
    ensures |r| == |s|
  {
    seq(|s|, i requires 0 <= i < |s| => if i < b || |s| - 1 - i < b then s[|s| - 1 - i] else s[i])
  }

  lemma SwappedNext(s: string, b: nat)
    requires b < |s| - 1 - b
    ensures var r, e := Swapped(s, b), |s| - 1 - b; r[e := r[b]][b := r[e]] == Swapped(s, b + 1)
  {
  }

  lemma SwappedAll(s: string, b: nat)
    requires |s| <= 2 * b + 1
    ensures Swapped(s, b) == Reversed(s)
  {
  }

  /** Writes the numeral and a NUL. */
  method Itoa(value: nat, buf: array<char>, at: nat, radix: nat)
    requires IsRadix(radix) && value < WORD && at + |Numeral(value, radix)| < buf.Length
    modifies buf
    ensures buf[at..at + |Numeral(value, radix)|] == Numeral(value, radix) && buf[at + |Numeral(value, radix)|] == '\0'
    ensures forall k :: 0 <= k < buf.Length && !(at <= k <= at + |Numeral(value, radix)|) ==> buf[k] == old(buf[k])
  {
    hide Digits, EndsAt;
    if value == 0 {
      buf[at] := '0';
      buf[at + 1] := '\0';
      return;
    }
    ghost var numeral := Numeral(value, radix);
    var k := WriteDigits(value, buf, at, radix);
    buf[at + k] := '\0';
    ReversedEnds(buf[..], at, numeral, value, radix);
    Strrev(buf, at, at + |numeral|);
    ReversedTwice(numeral);
  }

  /** Writes the digits from the lowest on. */
  method WriteDigits(value: nat, buf: array<char>, at: nat, radix: nat) returns (k: nat)
    requires IsRadix(radix) && at + |Digits(value, radix)| <= buf.Length
    modifies buf
    ensures k == |Digits(value, radix)| && buf[at..at + k] == Reversed(Digits(value, radix))
    ensures forall i :: 0 <= i < buf.Length && !(at <= i < at + k) ==> buf[i] == old(buf[i])
  {
    hide High, Low, DigitOf;
    ghost var numeral := Digits(value, radix);
    var newval: nat := value;
    k := 0;
    while newval > 0
      invariant k <= |numeral| && Digits(newval, radix) == numeral[..|numeral| - k]
      invariant forall j :: at <= j < at + k ==> buf[j] == numeral[|numeral| - 1 - (j - at)]
      invariant forall i :: 0 <= i < buf.Length && !(at <= i < at + k) ==> buf[i] == old(buf[i])
      decreases newval
    {
      LastDigit(numeral, k, newval, radix);
      var i := Low(newval, radix);
      buf[at + k] := DigitOf(i);
      k := k + 1;
      newval := High(newval, radix);
    }
  }

  lemma LastDigit(numeral: string, k: nat, newval: nat, radix: nat)
    requires IsRadix(radix) && newval > 0 && k <= |numeral| && Digits(newval, radix) == numeral[..|numeral| - k]
    ensures k < |numeral| && numeral[|numeral| - 1 - k] == DigitOf(Low(newval, radix))
    ensures Digits(High(newval, radix), radix) == numeral[..|numeral| - k - 1]
  {
    hide High, Low, DigitOf;
    var before := Digits(High(newval, radix), radix);
    assert numeral[..|numeral| - k][..|before|] == before;
  }

  lemma ReversedEnds(bytes: string, at: nat, numeral: string, value: nat, radix: nat)
    requires IsRadix(radix) && numeral == Numeral(value, radix) && at + |numeral| < |bytes|
    requires bytes[at..at + |numeral|] == Reversed(numeral) && bytes[at + |numeral|] == '\0'
    ensures EndsAt(bytes, at, at + |numeral|)
  {
    NumeralHasNoNul(value, radix);
    hide Numeral;
    forall k | at <= k < at + |numeral| ensures bytes[k] != '\0' {
      assert bytes[k] == bytes[at..at + |numeral|][k - at];
    }
  }

  lemma ReversedTwice(s: string)
    ensures Reversed(Reversed(s)) == s
  {
  }

  lemma NumeralHasNoNul(value: nat, radix: nat)
    requires IsRadix(radix)
    ensures forall i :: 0 <= i < |Numeral(value, radix)| ==> Numeral(value, radix)[i] != '\0'
  {
    NumeralEvaluates(value, radix);
  }

  // ---------- The number formats ----------

  method PrintUnsigned(value: nat) returns (shown: string)
    requires value < WORD
    ensures shown == Numeral(value, 10)
  {
    NumeralFits(value, 10);
    NumeralHasNoNul(value, 10);
    var convBuf := new char[36];
    Itoa(value, convBuf, 0, 10);
    shown := Puts(convBuf, 0, |Numeral(value, 10)|);
  }

  method PrintHex(value: nat) returns (shown: string)
    requires value < WORD
    ensures shown == Numeral(value, 16)
  {
    NumeralFits(value, 16);
    NumeralHasNoNul(value, 16);
    var convBuf := new char[64];
    Itoa(value, convBuf, 0, 16);
    shown := Puts(convBuf, 0, |Numeral(value, 16)|);
  }

  /** The alternate form has exactly 8 digits, with the same value. */
  method PrintHexAlternate(value: nat) returns (shown: string)
    requires value < WORD
    ensures |shown| == 8 && IsNumeral(shown, 16) && Eval(shown, 16) == value
  {
    hide Numeral, Eval, IsNumeral, CString;
    var convBuf := new char[64];
    ghost var numeral := Numeral(value, 16);
    NumeralFits(value, 16);
    NumeralHasNoNul(value, 16);
    Itoa(value, convBuf, 8, 16);
    CStringEnd(convBuf[..], 8, 8 + |numeral|);
    var startingIndex := Strlen(convBuf, 8);
    var i := startingIndex;
    while i < 8
      invariant startingIndex <= i <= 8
      invariant forall k :: startingIndex <= k < i ==> convBuf[k] == '0'
      invariant convBuf[8..8 + |numeral|] == numeral && convBuf[8 + |numeral|] == '\0'
    {
      convBuf[i] := '0';
      i := i + 1;
    }
    shown := Puts(convBuf, startingIndex, 8 + |numeral|);
    assert shown == Zeros(8 - |numeral|) + numeral;
    PaddedEvaluates(8 - |numeral|, value, 16);
  }

  function Zeros(n: nat): (s: string)
    ensures |s| == n && forall i :: 0 <= i < n ==> s[i] == '0'
  {
    seq(n, _ => '0')
  }

  lemma {:induction false} ZerosAdd(n: nat, s: string, radix: nat)
    requires IsRadix(radix) && IsNumeral(s, radix)
    ensures IsNumeral(Zeros(n) + s, radix) && Eval(Zeros(n) + s, radix) == Eval(s, radix)
  {
    if s == [] {
      ZerosAreZero(n, radix);
      assert Zeros(n) + s == Zeros(n);
    } else {
      var before, c := s[..|s| - 1], s[|s| - 1];
      ZerosAdd(n, before, radix);
      EvalAppended(Zeros(n) + before, c, radix);
      assert Zeros(n) + s == (Zeros(n) + before) + [c];
    }
  }

  lemma {:induction false} ZerosAreZero(n: nat, radix: nat)
    requires IsRadix(radix)
    ensures IsNumeral(Zeros(n), radix) && Eval(Zeros(n), radix) == 0
  {
    if n > 0 {
      ZerosAreZero(n - 1, radix);
      EvalAppended(Zeros(n - 1), '0', radix);
      assert Zeros(n) == Zeros(n - 1) + ['0'];
    }
  }

  lemma PaddedEvaluates(n: nat, value: nat, radix: nat)
    requires IsRadix(radix)
    ensures IsNumeral(Zeros(n) + Numeral(value, radix), radix) && Eval(Zeros(n) + Numeral(value, radix), radix) == value
  {
    NumeralEvaluates(value, radix);
    ZerosAdd(n, Numeral(value, radix), radix);
  }

  /** Negation in 32 bits leaves the smallest number as it is. */
  function Negated(value: int): int {
    if value == -0x8000_0000 then value else -value
  }

  /** The same 32 bits without a sign. */
  function Unsigned(value: int): int {
    if value < 0 then value + WORD else value
  }

  /** What a signed numeral stands for. */
  predicate Denotes(s: string, value: int) {
    if value < 0 then |s| > 1 && s[0] == '-' && IsNumeral(s[1..], 10) && s[1] != '0' && Eval(s[1..], 10) == -value
    else s != [] && IsNumeral(s, 10) && (s[0] == '0' ==> s == "0") && Eval(s, 10) == value
  }

  method PrintSigned(value: int) returns (shown: string)
    requires -0x8000_0000 <= value < 0x8000_0000
    ensures Denotes(shown, value)
  {
    var convBuf := new char[36];
    if value < 0 {
      var magnitude := Unsigned(Negated(value));
      NumeralFits(magnitude, 10);
      convBuf[0] := '-';
      Itoa(magnitude, convBuf, 1, 10);
      NumeralHasNoNul(magnitude, 10);
      shown := Puts(convBuf, 0, 1 + |Numeral(magnitude, 10)|);
      assert shown[1..] == Numeral(magnitude, 10);
      NumeralEvaluates(magnitude, 10);
      NoLeadingZero(magnitude, 10);
    } else {
      NumeralFits(value, 10);
      Itoa(value, convBuf, 0, 10);
      NumeralHasNoNul(value, 10);
      shown := Puts(convBuf, 0, |Numeral(value, 10)|);
      NumeralEvaluates(value, 10);
      if value > 0 {
        NoLeadingZero(value, 10);
      }
    }
  }

  /** Puts the characters up to the NUL. */
  method Puts(s: array<char>, at: nat, ghost z: nat) returns (shown: string)
    requires EndsAt(s[..], at, z)
    ensures shown == s[at..z]
  {
    var index := at;
    shown := [];
    while s[index] != '\0'
      invariant at <= index <= z && shown == s[at..index]
      decreases z - index
    {
      shown := shown + [s[index]];
      index := index + 1;
    }
  }
}
