/**
 The integer formatter behind printf: it counts the digits of a number, writes them
 backwards into a character buffer after the sign, and pads to a width.
 */
module IntStr {
  import opened Bits

  const BUFFER: nat := 256

  /** The digit characters; base 17 stands for lower-case hexadecimal. */
  function DigitChar(d: nat, lower: bool): char
    requires d < 16
  {
    ("0123456789" + if lower then "abcdef" else "ABCDEF")[d]
  }

  function DigitValue(c: char): nat {
    if '0' <= c <= '9' then (c - '0') as nat
    else if 'a' <= c <= 'f' then 10 + (c - 'a') as nat
    else if 'A' <= c <= 'F' then 10 + (c - 'A') as nat
    else 0
  }

  /** The numeral of i, most significant digit first. */
  function Digits(i: nat, base: nat, lower: bool): (s: string)
    requires 2 <= base <= 16
    ensures |s| >= 1
  {
    if i < base then [DigitChar(i, lower)]
    else Digits(i / base, base, lower) + [DigitChar(i % base, lower)]
  }

  /** The number a numeral stands for. */
  function Value(s: string, base: nat): nat {
    if s == [] then 0 else Value(s[..|s| - 1], base) * base + DigitValue(s[|s| - 1])
  }

  lemma {:induction false} DigitRoundTrip(d: nat, lower: bool)
    requires d < 16
    ensures DigitValue(DigitChar(d, lower)) == d && DigitChar(d, lower) != '\0'
    ensures DigitChar(d, lower) == '0' ==> d == 0
  {
  }

  /** The digits parse back to the number. */
  lemma {:induction false} DigitsParse(i: nat, base: nat, lower: bool)
    requires 2 <= base <= 16
    ensures Value(Digits(i, base, lower), base) == i
    decreases i
  {
    Smaller(i, base);
    if i < base {
      OneDigit(i, base, lower);
    } else {
      DigitsParse(i / base, base, lower);
      QuotientRemainder(i, base);
      ParseLast(Digits(i / base, base, lower), i / base, i % base, base, lower);
    }
  }

  lemma {:induction false} OneDigit(i: nat, base: nat, lower: bool)
    requires i < base <= 16
    ensures Value([DigitChar(i, lower)], base) == i
  {
    DigitRoundTrip(i, lower);
    AppendDigit([], DigitChar(i, lower), base);
    assert [] + [DigitChar(i, lower)] == [DigitChar(i, lower)];
  }

  lemma {:induction false} ParseLast(s: string, q: nat, r: nat, base: nat, lower: bool)
    requires r < 16 && Value(s, base) == q
    ensures Value(s + [DigitChar(r, lower)], base) == q * base + r
  {
    DigitRoundTrip(r, lower);
    AppendDigit(s, DigitChar(r, lower), base);
  }

  lemma {:induction false} QuotientRemainder(i: nat, base: nat)
    requires base > 0
    ensures i / base * base + i % base == i && 0 <= i % base < base
  {
  }

  lemma {:induction false} AppendDigit(s: string, c: char, base: nat)
    ensures Value(s + [c], base) == Value(s, base) * base + DigitValue(c)
  {
    assert (s + [c])[..|s|] == s;
  }

  /** The characters of a numeral: letters have the case that was asked for. */
  predicate IsNumeralChar(c: char, lower: bool) {
    '0' <= c <= '9' || if lower then 'a' <= c <= 'f' else 'A' <= c <= 'F'
  }

  lemma {:induction false} DigitsCase(i: nat, base: nat, lower: bool, k: nat)
    requires 2 <= base <= 16 && k < |Digits(i, base, lower)|
    ensures IsNumeralChar(Digits(i, base, lower)[k], lower)
  {
    LastDigit(i, base, lower);
    CharCase(i % base, lower);
    if i / base > 0 && k < |Digits(i / base, base, lower)| {
      DigitsCase(i / base, base, lower, k);
    }
  }

  lemma {:induction false} CharCase(d: nat, lower: bool)
    requires d < 16
    ensures IsNumeralChar(DigitChar(d, lower), lower)
  {
  }

  /** No numeral but "0" starts with a zero, and none contains a terminator. */
  lemma {:induction false} DigitsProper(i: nat, base: nat, lower: bool)
    requires 2 <= base <= 16
    ensures i > 0 ==> Digits(i, base, lower)[0] != '0'
    ensures '\0' !in Digits(i, base, lower)
  {
    if i < base {
      DigitRoundTrip(i, lower);
    } else {
      assert i / base > 0;
      DigitsProper(i / base, base, lower);
      DigitRoundTrip(i % base, lower);
    }
  }

  lemma {:induction false} DigitsBound(i: nat, base: nat, lower: bool, n: nat)
    requires 2 <= base <= 16 && i < Pow2(n) && n >= 1
    ensures |Digits(i, base, lower)| <= n
  {
    if i >= base {
      assert i / base <= i / 2 by { Shrink(i, base); }
      DigitsBound(i / base, base, lower, n - 1);
    }
  }

  lemma {:induction false} Shrink(i: nat, base: nat)
    requires base >= 2
    ensures i / base <= i / 2
  {
    var q := i / base;
    assert q * base <= i;
    assert q * 2 <= q * base;
  }

  function Sign(negative: bool, plus: bool, space: bool): string {
    if negative then "-" else if plus then "+" else if space then " " else ""
  }

  function Pad(n: nat, zero: bool): (s: string)
    ensures |s| == n
  {
    seq(n, _ => if zero then '0' else ' ')
  }

  function PadLength(width: int, body: string): nat { if width > |body| then width - |body| else 0 }

  /** What the formatter leaves in the buffer. */
  function Rendered(i: nat, base: nat, lower: bool, sign: string, width: int, left: bool, zero: bool): string
    requires 2 <= base <= 16
  {
    var body := sign + Digits(i, base, lower);
    var pad := Pad(PadLength(width, body), zero);
    if left then body + pad else pad + body
  }

  /** The buffer holds exactly this text: terminator characters follow to its end. */
  ghost predicate Holds(b: seq<char>, text: string) {
    |text| < |b| && b[..|text|] == text && '\0' !in text && forall k | |text| <= k < |b| :: b[k] == '\0'
  }

  /** strlen. */
  method Strlen(b: array<char>, ghost text: string) returns (n: nat)
    requires Holds(b[..], text)
    ensures n == |text|
  {
    n := 0;
    while b[n] != '\0'
      invariant n <= |text|
      decreases |text| - n
    {
      n := n + 1;
    }
    TextCharacter(b[..], text, n);
  }

  lemma {:induction false} TextCharacter(b: seq<char>, text: string, n: nat)
    requires Holds(b, text)
    ensures n < |text| ==> b[n] != '\0'
  {
    if n < |text| {
      assert b[n] == text[n] && text[n] in text;
    }
  }

  /** One step of a padding loop: b[strlen(b)] = c. */
  method AppendChar(b: array<char>, c: char, ghost text: string)
    requires Holds(b[..], text) && |text| + 1 < b.Length && c != '\0'
    modifies b
    ensures Holds(b[..], text + [c])
  {
    var n := Strlen(b, text);
    b[n] := c;
    assert b[..][..n + 1] == text + [c];
  }

  /** A padding loop. */
  method AppendPadding(b: array<char>, n: nat, zero: bool, ghost text: string)
    requires Holds(b[..], text) && |text| + n < b.Length
    modifies b
    ensures Holds(b[..], text + Pad(n, zero))
  {
    for k := 0 to n
      invariant Holds(b[..], text + Pad(k, zero))
    {
      AppendChar(b, if zero then '0' else ' ', text + Pad(k, zero));
      assert text + Pad(k, zero) + [if zero then '0' else ' '] == text + Pad(k + 1, zero);
    }
  }

  /** The counting pass: how many digits the number has. */
  method CountDigits(i: nat, base: nat, ghost lower: bool) returns (length: nat)
    requires 2 <= base <= 16
    ensures length == |Digits(i, base, lower)|
  {
    var shifter := DropDigit(i, base, lower);
    length := 1;
    while shifter != 0
      invariant length + |Front(shifter, base, lower)| == |Digits(i, base, lower)|
      decreases shifter
    {
      shifter := DropDigit(shifter, base, lower);
      length := length + 1;
    }
  }

  /** shifter / base: one digit fewer. */
  method DropDigit(rest: nat, base: nat, ghost lower: bool) returns (more: nat)
    requires 2 <= base <= 16
    ensures |Digits(rest, base, lower)| == |Front(more, base, lower)| + 1
    ensures rest > 0 ==> more < rest
  {
    LastDigit(rest, base, lower);
    more := rest / base;
  }

  lemma {:induction false} Smaller(i: nat, base: nat)
    requires base >= 2
    ensures i > 0 ==> i / base < i
    ensures i / base == 0 <==> i < base
  {
    Shrink(i, base);
    if i >= base { assert i / base >= 1; }
  }

  /** What remains to be written once the last digit of a number is in place. */
  function Front(rest: nat, base: nat, lower: bool): string
    requires 2 <= base <= 16
  {
    if rest == 0 then "" else Digits(rest, base, lower)
  }

  lemma {:induction false} LastDigit(rest: nat, base: nat, lower: bool)
    requires 2 <= base <= 16
    ensures rest % base < 16
    ensures Digits(rest, base, lower) == Front(rest / base, base, lower) + [DigitChar(rest % base, lower)]
    ensures rest > 0 ==> rest / base < rest
  {
    Smaller(rest, base);
    if rest < base { assert rest % base == rest; }
  }

  /** digit[i % base] and i / base. */
  method SplitLast(rest: nat, base: nat, lower: bool) returns (c: char, more: nat)
    requires 2 <= base <= 16
    ensures Digits(rest, base, lower) == Front(more, base, lower) + [c]
    ensures rest > 0 ==> more < rest
  {
    LastDigit(rest, base, lower);
    c, more := DigitChar(rest % base, lower), rest / base;
  }

  /**
   Of the text `all` that is to end just before position `end`, `todo` is still missing and the rest
   stands from p on; the other characters are as they were. Folded.
   */
  ghost predicate Writing(b: seq<char>, was: seq<char>, all: string, todo: string, p: nat, end: nat) {
    forall n: nat | UnfoldText(n) ::
      && |todo| <= p <= end <= |b| == |was|
      && all == todo + b[p..end] && b == was[..p] + b[p..end] + was[end..]
  }

  predicate UnfoldText(n: nat) { true }

  lemma {:induction false} WritingStarts(b: seq<char>, all: string, end: nat)
    requires |all| <= end <= |b|
    ensures Writing(b, b, all, all, end, end)
  {
    assert b == b[..end] + b[end..end] + b[end..];
  }

  lemma {:induction false} WritingEnds(b: seq<char>, was: seq<char>, all: string, p: nat, end: nat)
    requires Writing(b, was, all, "", p, end)
    ensures p == end - |all| && end <= |was| && b == was[..p] + all + was[end..]
  {
    assert UnfoldText(0);
  }

  lemma {:induction false} WritingStep(b: seq<char>, was: seq<char>, all: string, todo: string, c: char, p: nat,
                                       end: nat)
    requires Writing(b, was, all, todo + [c], p, end)
    ensures 0 < p <= |b| && Writing(b[p - 1 := c], was, all, todo, p - 1, end)
  {
    assert UnfoldText(0);
    var b' := b[p - 1 := c];
    assert b'[p - 1..end] == [c] + b[p..end];
    Shift(todo, c, b[p..end]);
  }

  lemma {:induction false} Shift(front: string, c: char, tail: string)
    ensures front + [c] + tail == front + ([c] + tail)
  {
  }

  /** The writing pass: the digits of i, last one first, end just before position `end`. */
  method WriteDigits(b: array<char>, i: nat, base: nat, lower: bool, end: nat) returns (p: nat)
    requires 2 <= base <= 16 && |Digits(i, base, lower)| <= end <= b.Length
    modifies b
    ensures p == end - |Digits(i, base, lower)|
    ensures b[..] == old(b[..p]) + Digits(i, base, lower) + old(b[end..])
  {
    ghost var all, was := Digits(i, base, lower), b[..];
    WritingStarts(was, all, end);
    var c, rest := SplitLast(i, base, lower);
    p := PutDigit(b, c, end, was, all, Front(rest, base, lower), end);
    while rest != 0
      invariant Writing(b[..], was, all, Front(rest, base, lower), p, end)
      decreases rest
    {
      c, rest := SplitLast(rest, base, lower);
      p := PutDigit(b, c, p, was, all, Front(rest, base, lower), end);
    }
    WritingEnds(b[..], was, all, p, end);
  }

  /** *--p = c. */
  method PutDigit(b: array<char>, c: char, p: nat, ghost was: seq<char>, ghost all: string, ghost todo: string,
                  ghost end: nat)
    returns (next: nat)
    requires Writing(b[..], was, all, todo + [c], p, end)
    modifies b
    ensures Writing(b[..], was, all, todo, next, end)
  {
    WritingStep(b[..], was, all, todo, c, p, end);
    next := p - 1;
    b[next] := c;
  }

  /** strcpy(b, a): the text of a and its terminator, over a buffer whose own text is no longer. */
  method Copy(b: array<char>, a: array<char>, ghost shorter: string, ghost text: string)
    requires b != a && a.Length == b.Length && |shorter| <= |text|
    requires Holds(b[..], shorter) && Holds(a[..], text)
    modifies b
    ensures Holds(b[..], text)
  {
    var n := Strlen(a, text);
    for k := 0 to n
      invariant b[..k] == a[..k] && forall j | n <= j < b.Length :: b[j] == '\0'
    {
      b[k] := a[k];
    }
    b[n] := '\0';
    assert b[..][..n] == b[..n] == a[..][..n];
  }

  /** strcat(a, b). */
  method Concatenate(a: array<char>, b: array<char>, ghost first: string, ghost second: string)
    requires b != a && a.Length == b.Length && |first| + |second| < a.Length
    requires Holds(a[..], first) && Holds(b[..], second)
    modifies a
    ensures Holds(a[..], first + second)
  {
    var n := Strlen(b, second);
    for k := 0 to n
      invariant Holds(a[..], first + second[..k])
    {
      TextCharacter(b[..], second, k);
      AppendChar(a, b[k], first + second[..k]);
      assert first + second[..k] + [b[k]] == first + second[..k + 1];
    }
    assert second[..n] == second;
  }

  /** The text parses to i, has no leading zero, and has its letters in the case that was asked for. */
  ghost predicate IsNumeral(s: string, i: nat, radix: nat, lower: bool) {
    && s != "" && Value(s, radix) == i && (s[0] == '0' ==> |s| == 1)
    && forall k | 0 <= k < |s| :: IsNumeralChar(s[k], lower) && DigitValue(s[k]) < radix
  }

  /** A number has one numeral. */
  lemma {:induction false} NumeralUnique(s: string, t: string, i: nat, radix: nat, lower: bool)
    requires radix >= 2 && IsNumeral(s, i, radix, lower) && IsNumeral(t, i, radix, lower)
    ensures s == t
    decreases |s|
  {
    var front, front' := s[..|s| - 1], t[..|t| - 1];
    SplitNumeral(s, i, radix, lower);
    SplitNumeral(t, i, radix, lower);
    SameDigit(s[|s| - 1], t[|t| - 1], lower);
    if front != "" && front' != "" { NumeralUnique(front, front', i / radix, radix, lower); }
    assert s == front + [s[|s| - 1]] && t == front' + [t[|t| - 1]];
  }

  lemma {:induction false} SameDigit(c: char, d: char, lower: bool)
    requires IsNumeralChar(c, lower) && IsNumeralChar(d, lower)
    ensures DigitValue(c) == DigitValue(d) ==> c == d
  {
  }

  /** The last digit is the remainder; what is in front of it is the numeral of the quotient. */
  lemma {:induction false} SplitNumeral(s: string, i: nat, radix: nat, lower: bool)
    requires radix >= 2 && IsNumeral(s, i, radix, lower)
    ensures DigitValue(s[|s| - 1]) == i % radix
    ensures if |s| == 1 then i / radix == 0 else i / radix > 0 && IsNumeral(s[..|s| - 1], i / radix, radix, lower)
  {
    var front, last := s[..|s| - 1], DigitValue(s[|s| - 1]);
    QuotientUnique(i, radix, Value(front, radix), last);
    if |s| > 1 { NotZero(front, radix, lower); }
  }

  lemma {:induction false} NotZero(s: string, radix: nat, lower: bool)
    requires s != "" && s[0] != '0' && IsNumeralChar(s[0], lower) && radix >= 2
    ensures Value(s, radix) > 0
  {
    if |s| > 1 {
      NotZero(s[..|s| - 1], radix, lower);
      Grows(Value(s[..|s| - 1], radix), radix);
    }
  }

  lemma {:induction false} DigitsAreNumeral(i: nat, radix: nat, lower: bool)
    requires 2 <= radix <= 16
    ensures IsNumeral(Digits(i, radix, lower), i, radix, lower)
  {
    DigitsParse(i, radix, lower);
    DigitsProper(i, radix, lower);
    SingleZero(i, radix, lower);
    DigitsAreDigits(i, radix, lower);
    forall k | 0 <= k < |Digits(i, radix, lower)| ensures IsNumeralChar(Digits(i, radix, lower)[k], lower) {
      DigitsCase(i, radix, lower, k);
    }
  }

  /**
   The buffer shows the number i: a numeral of `length` digits that parses to i, behind the sign, with
   padding on one side up to the width and terminators behind.
   */
  ghost predicate Shows(b: seq<char>, i: nat, radix: nat, lower: bool, length: nat, sign: string, width: int,
                        left: bool, zero: bool) {
    var total := if width > |sign| + length then width else |sign| + length;
    var front := if left then 0 else total - |sign| - length;
    && total < |b|
    && b[front..front + |sign|] == sign
    && IsNumeral(b[front + |sign|..front + |sign| + length], i, radix, lower)
    && (forall k | 0 <= k < front || front + |sign| + length <= k < total :: b[k] == if zero then '0' else ' ')
    && forall k | total <= k < |b| :: b[k] == '\0'
  }

  lemma {:induction false} RenderedShows(b: seq<char>, i: nat, radix: nat, lower: bool, sign: string, width: int,
                                         left: bool, zero: bool)
    requires 2 <= radix <= 16 && Holds(b, Rendered(i, radix, lower, sign, width, left, zero))
    ensures Shows(b, i, radix, lower, |Digits(i, radix, lower)|, sign, width, left, zero)
  {
    var digits := Digits(i, radix, lower);
    DigitsAreNumeral(i, radix, lower);
    var n := PadLength(width, sign + digits);
    Places(b, sign, digits, n, left, zero);
    TextShows(b, i, digits, radix, lower, sign, width, left, zero, n);
  }

  lemma {:induction false} SingleZero(i: nat, radix: nat, lower: bool)
    requires 2 <= radix <= 16
    ensures i == 0 ==> |Digits(i, radix, lower)| == 1
  {
  }

  /** Sign and digits, with n characters of padding on one side and terminators behind. */
  ghost predicate Laid(b: seq<char>, sign: string, digits: string, n: nat, left: bool, zero: bool) {
    var front := if left then 0 else n;
    var first, end := front + |sign|, front + |sign| + |digits|;
    && n + |sign| + |digits| < |b| && b[front..first] == sign && b[first..end] == digits
    && (forall k | 0 <= k < front || end <= k < n + |sign| + |digits| :: b[k] == if zero then '0' else ' ')
    && forall k | n + |sign| + |digits| <= k < |b| :: b[k] == '\0'
  }

  lemma {:induction false} TextShows(b: seq<char>, i: nat, digits: string, radix: nat, lower: bool, sign: string,
                                     width: int, left: bool, zero: bool, n: nat)
    requires IsNumeral(digits, i, radix, lower) && Laid(b, sign, digits, n, left, zero)
    requires n == if width > |sign| + |digits| then width - |sign| - |digits| else 0
    ensures Shows(b, i, radix, lower, |digits|, sign, width, left, zero)
  {
  }

  lemma {:induction false} Places(b: seq<char>, sign: string, digits: string, n: nat, left: bool, zero: bool)
    requires var body, pad := sign + digits, Pad(n, zero);
             Holds(b, if left then body + pad else pad + body)
    ensures Laid(b, sign, digits, n, left, zero)
  {
    var body, pad := sign + digits, Pad(n, zero);
    var text := if left then body + pad else pad + body;
    var front := if left then 0 else n;
    assert forall k | 0 <= k < |text| :: b[k] == b[..|text|][k];
    assert text[front..front + |sign|] == sign;
    assert text[front + |sign|..front + |sign| + |digits|] == digits;
  }

  function Radix(base: nat): nat { if base == 17 then 16 else base }

  /** __int_str: for a zeroed buffer, any 64-bit number and any width below the buffer's size. */
  method IntStr(b: array<char>, i: nat, base: nat, plus: bool, space: bool, width: int,
                left: bool, zero: bool, negative: bool) returns (length: nat)
    requires b.Length == BUFFER && forall k | 0 <= k < BUFFER :: b[k] == '\0'
    requires i < 0x1_0000_0000_0000_0000 && width < BUFFER
    requires 2 <= base <= 10 || base == 16 || base == 17
    modifies b
    ensures length == |Digits(i, Radix(base), base == 17)|
    ensures Holds(b[..], Rendered(i, Radix(base), base == 17, Sign(negative, plus, space), width, left, zero))
    ensures Shows(b[..], i, if base == 17 then 16 else base, base == 17, length,
                  if negative then "-" else if plus then "+" else if space then " " else "", width, left, zero)
  {
    ghost var body := Sign(negative, plus, space) + Digits(i, Radix(base), base == 17);
    length := WriteBody(b, i, Radix(base), base == 17, plus, space, negative);
    PadToWidth(b, width, left, zero, body);
    RenderedShows(b[..], i, Radix(base), base == 17, Sign(negative, plus, space), width, left, zero);
  }

  /** Left or right justification. */
  method PadToWidth(b: array<char>, width: int, left: bool, zero: bool, ghost body: string)
    requires b.Length == BUFFER && Holds(b[..], body) && width < BUFFER
    modifies b
    ensures var pad := Pad(PadLength(width, body), zero);
            Holds(b[..], if left then body + pad else pad + body)
  {
    var used := Strlen(b, body);
    var padding := if width > used then width - used else 0;
    if left {
      AppendPadding(b, padding, zero, body);
    } else {
      PrependPadding(b, padding, zero, body);
    }
  }

  /** Right justification: the padding is built in a second buffer and the text copied back. */
  method PrependPadding(b: array<char>, n: nat, zero: bool, ghost text: string)
    requires b.Length == BUFFER && Holds(b[..], text) && |text| + n < BUFFER
    modifies b
    ensures Holds(b[..], Pad(n, zero) + text)
  {
    var a := new char[BUFFER](_ => '\0');
    assert a[..][..0] == "";
    AppendPadding(a, n, zero, "");
    assert "" + Pad(n, zero) == Pad(n, zero);
    Concatenate(a, b, Pad(n, zero), text);
    Copy(b, a, text, Pad(n, zero) + text);
  }

  /** A 64-bit number has at most 64 digits. */
  lemma {:induction false} DigitsFit(i: nat, base: nat, lower: bool)
    requires i < 0x1_0000_0000_0000_0000 && 2 <= base <= 16
    ensures |Digits(i, base, lower)| <= 64
  {
    Pow2Of64();
    DigitsBound(i, base, lower, 64);
  }

  lemma {:induction false} Pow2Of64()
    ensures Pow2(64) == 0x1_0000_0000_0000_0000
  {
    Pow2Values();
    assert Pow2(44) == 0x1000_0000_0000;
    assert Pow2(49) == 0x2_0000_0000_0000;
    assert Pow2(54) == 0x40_0000_0000_0000;
    assert Pow2(59) == 0x800_0000_0000_0000;
  }

  /** The sign, then the digits, counted and written. */
  method WriteBody(b: array<char>, i: nat, base: nat, lower: bool, plus: bool, space: bool, negative: bool)
    returns (length: nat)
    requires b.Length == BUFFER && forall k | 0 <= k < BUFFER :: b[k] == '\0'
    requires i < 0x1_0000_0000_0000_0000 && 2 <= base <= 16
    modifies b
    ensures length == |Digits(i, base, lower)| <= 64
    ensures Holds(b[..], Sign(negative, plus, space) + Digits(i, base, lower))
  {
    DigitsFit(i, base, lower);
    DigitsProper(i, base, lower);
    var p := 0;
    if negative {
      b[0], p := '-', 1;
    } else if plus {
      b[0], p := '+', 1;
    } else if space {
      b[0], p := ' ', 1;
    }
    ghost var sign := Sign(negative, plus, space);
    assert b[..p] == sign;
    length := CountDigits(i, base, lower);
    b[p + length] := '\0';
    ghost var was := b[..];
    var start := WriteDigits(b, i, base, lower, p + length);
    BodyWritten(was, b[..], sign, Digits(i, base, lower));
  }

  lemma {:induction false} BodyWritten(was: seq<char>, b: seq<char>, sign: string, digits: string)
    requires |sign| + |digits| < |was| && '\0' !in sign && '\0' !in digits
    requires was[..|sign|] == sign && forall k | |sign| <= k < |was| :: was[k] == '\0'
    requires b == was[..|sign|] + digits + was[|sign| + |digits|..]
    ensures Holds(b, sign + digits)
  {
  }

  // ---- Reading the text back ----

  predicate IsDigit(c: char, base: nat) {
    ('0' <= c <= '9' || 'a' <= c <= 'f' || 'A' <= c <= 'F') && DigitValue(c) < base
  }

  /** The length of the run of digits at the front of a text. */
  function Run(s: string, base: nat): (n: nat)
    ensures n <= |s|
  {
    if s == [] || !IsDigit(s[0], base) then 0 else 1 + Run(s[1..], base)
  }

  function SkipSpaces(s: string): string {
    if s != [] && s[0] == ' ' then SkipSpaces(s[1..]) else s
  }

  function Signed(negative: bool, n: nat): int { if negative then 0 - n else n }

  /** How a reader takes a number from a text: blanks, at most one sign, then digits up to the first other character. */
  function Scan(s: string, base: nat): int {
    var t := SkipSpaces(s);
    if t != [] && (t[0] == '-' || t[0] == '+')
    then Signed(t[0] == '-', Value(t[1..][..Run(t[1..], base)], base))
    else Value(t[..Run(t, base)], base)
  }

  ghost predicate AllDigits(s: string, base: nat) { forall k | 0 <= k < |s| :: IsDigit(s[k], base) }

  lemma {:induction false} DigitsAreDigits(i: nat, base: nat, lower: bool)
    requires 2 <= base <= 16
    ensures AllDigits(Digits(i, base, lower), base)
  {
    Smaller(i, base);
    if i < base {
      DigitRoundTrip(i, lower);
    } else {
      DigitsAreDigits(i / base, base, lower);
      DigitRoundTrip(i % base, lower);
    }
  }

  /** The run of digits is exactly s when something else, or nothing, follows. */
  lemma {:induction false} RunOf(s: string, t: string, base: nat)
    requires AllDigits(s, base) && (t == [] || !IsDigit(t[0], base))
    ensures Run(s + t, base) == |s|
  {
    if s == [] {
      assert s + t == t;
    } else {
      RunOf(s[1..], t, base);
      assert (s + t)[1..] == s[1..] + t;
    }
  }

  lemma {:induction false} SkipBlanks(n: nat, s: string)
    ensures SkipSpaces(Pad(n, false) + s) == SkipSpaces(s)
  {
    if n == 0 {
      assert Pad(n, false) + s == s;
    } else {
      SkipBlanks(n - 1, s);
      assert (Pad(n, false) + s)[1..] == Pad(n - 1, false) + s;
    }
  }

  /** Zeros in front of a numeral do not change its value. */
  lemma {:induction false} LeadingZeros(n: nat, s: string, base: nat)
    ensures Value(Pad(n, true) + s, base) == Value(s, base)
    decreases |s|, n
  {
    if s == [] {
      assert Pad(n, true) + s == Pad(n, true);
      if n > 0 {
        LeadingZeros(n - 1, [], base);
        assert Pad(n - 1, true) + [] == Pad(n - 1, true);
        assert Pad(n, true) == Pad(n - 1, true) + ['0'];
        AppendDigit(Pad(n - 1, true), '0', base);
      }
    } else {
      var front, last := s[..|s| - 1], s[|s| - 1];
      LeadingZeros(n, front, base);
      AppendDigit(Pad(n, true) + front, last, base);
      assert Pad(n, true) + front + [last] == Pad(n, true) + s;
    }
  }

  /** Zeros behind a numeral multiply it. */
  lemma {:induction false} TrailingZeros(s: string, n: nat, base: nat)
    requires base >= 2
    ensures Value(s, base) == 0 ==> Value(s + Pad(n, true), base) == 0
    ensures Value(s + Pad(n, true), base) >= Value(s, base)
    ensures Value(s, base) > 0 && n > 0 ==> Value(s + Pad(n, true), base) > Value(s, base)
  {
    if n == 0 {
      assert s + Pad(n, true) == s;
    } else {
      TrailingZeros(s, n - 1, base);
      assert s + Pad(n, true) == s + Pad(n - 1, true) + ['0'];
      ZeroBehind(s + Pad(n - 1, true), base);
    }
  }

  lemma {:induction false} ZeroBehind(s: string, base: nat)
    requires base >= 2
    ensures var v, w := Value(s, base), Value(s + ['0'], base);
            w >= v && (v == 0 ==> w == 0) && (v > 0 ==> w > v)
  {
    AppendDigit(s, '0', base);
    Grows(Value(s, base), base);
  }

  lemma {:induction false} Grows(v: nat, base: nat)
    requires base >= 2
    ensures v * base >= v && (v == 0 ==> v * base == 0) && (v > 0 ==> v * base > v)
  {
    MulMonotone(2, base, v);
  }

  /** Scanning an optional sign and what follows it. */
  lemma {:induction false} ScanSign(sign: string, tail: string, base: nat)
    requires sign == "-" || sign == "+" || sign == " " || sign == ""
    requires tail != "" && IsDigit(tail[0], base)
    ensures Scan(sign + tail, base) == Signed(sign == "-", Value(tail[..Run(tail, base)], base))
  {
    assert SkipSpaces(tail) == tail;
    if sign == "" {
      assert sign + tail == tail;
    } else {
      assert (sign + tail)[1..] == tail;
    }
  }

  lemma {:induction false} ScanSignedNumeral(sign: string, digits: string, after: nat, base: nat)
    requires sign == "-" || sign == "+" || sign == " " || sign == ""
    requires AllDigits(digits, base) && digits != ""
    ensures Scan(sign + digits + Pad(after, false), base) == Signed(sign == "-", Value(digits, base))
  {
    var tail := digits + Pad(after, false);
    RunOf(digits, Pad(after, false), base);
    assert tail[..|digits|] == digits;
    assert tail[0] == digits[0] && IsDigit(digits[0], base);
    ScanSign(sign, tail, base);
    assert sign + digits + Pad(after, false) == sign + tail;
  }

  /** Scanning an optional sign and a numeral, with blanks on one side of them. */
  lemma {:induction false} ScanPlain(sign: string, digits: string, n: nat, left: bool, base: nat)
    requires sign == "-" || sign == "+" || sign == " " || sign == ""
    requires AllDigits(digits, base) && digits != ""
    ensures Scan(if left then sign + digits + Pad(n, false) else Pad(n, false) + (sign + digits), base)
         == Signed(sign == "-", Value(digits, base))
  {
    if left {
      ScanSignedNumeral(sign, digits, n, base);
    } else {
      ScanSignedNumeral(sign, digits, 0, base);
      assert sign + digits + Pad(0, false) == sign + digits;
      SkipBlanks(n, sign + digits);
    }
  }

  /** Zeros in front of a sign hide it and the number. */
  lemma {:induction false} ScanZerosThenSign(n: nat, sign: string, digits: string, base: nat)
    requires base >= 2 && n > 0 && |sign| == 1 && !IsDigit(sign[0], base)
    ensures Scan(Pad(n, true) + (sign + digits), base) == 0
  {
    var t := Pad(n, true) + (sign + digits);
    assert SkipSpaces(t) == t;
    RunOf(Pad(n, true), sign + digits, base);
    assert t[..n] == Pad(n, true) == Pad(n, true) + [];
    LeadingZeros(n, [], base);
  }

  /**
   The text reads back as the number, except that zero padding on the right multiplies it and
   zero padding in front of a sign hides it: it does so exactly when neither can matter.
   */
  lemma {:induction false} TextReadsBack(i: nat, base: nat, lower: bool, negative: bool, plus: bool, space: bool,
                                         width: int, left: bool, zero: bool)
    requires 2 <= base <= 16
    ensures var sign := Sign(negative, plus, space);
            Scan(Rendered(i, base, lower, sign, width, left, zero), base) == Signed(negative, i)
            <==> i == 0 || !zero || width <= |sign + Digits(i, base, lower)| || (!left && sign == "")
  {
    var sign, digits := Sign(negative, plus, space), Digits(i, base, lower);
    var n := PadLength(width, sign + digits);
    DigitsParse(i, base, lower);
    DigitsAreDigits(i, base, lower);
    if !zero || n == 0 {
      assert n == 0 ==> Pad(n, true) == Pad(n, false);
      ScanPlain(sign, digits, n, left, base);
    } else if left {
      ReadTrailingZeros(sign, digits, n, base);
    } else if sign == "" {
      ReadLeadingZeros(digits, n, base);
    } else {
      ScanZerosThenSign(n, sign, digits, base);
    }
  }

  lemma {:induction false} ReadTrailingZeros(sign: string, digits: string, n: nat, base: nat)
    requires sign == "-" || sign == "+" || sign == " " || sign == ""
    requires AllDigits(digits, base) && digits != "" && n > 0 && base >= 2
    ensures Scan(sign + digits + Pad(n, true), base) == Signed(sign == "-", Value(digits, base))
            <==> Value(digits, base) == 0
  {
    TrailingZeros(digits, n, base);
    ScanSignedNumeral(sign, digits + Pad(n, true), 0, base);
    assert sign + (digits + Pad(n, true)) + Pad(0, false) == sign + digits + Pad(n, true);
  }

  lemma {:induction false} ReadLeadingZeros(digits: string, n: nat, base: nat)
    requires AllDigits(digits, base) && digits != "" && base >= 2
    ensures Scan(Pad(n, true) + ("" + digits), base) == Value(digits, base)
  {
    LeadingZeros(n, digits, base);
    ScanSignedNumeral("", Pad(n, true) + digits, 0, base);
    assert "" + (Pad(n, true) + digits) + Pad(0, false) == Pad(n, true) + ("" + digits);
  }

  /** printf("%05d", -5) leaves "000-5" and printf("%-02d", 5) leaves "50": neither reads back. */
  lemma {:induction false} ZeroPaddingSpoils()
    ensures Rendered(5, 10, false, "-", 5, false, true) == "000-5" && Scan("000-5", 10) == 0
    ensures Rendered(5, 10, false, "", 2, true, true) == "50" && Scan("50", 10) != 5
  {
    HiddenBehindZeros();
    MultipliedByZeros();
  }

  lemma {:induction false} HiddenBehindZeros()
    ensures Rendered(5, 10, false, "-", 5, false, true) == "000-5" && Scan("000-5", 10) == 0
  {
    assert Digits(5, 10, false) == "5";
    assert Pad(3, true) == "000";
    assert "-" + "5" == "-5" && "000" + "-5" == "000-5";
    ScanZerosThenSign(3, "-", "5", 10);
  }

  lemma {:induction false} MultipliedByZeros()
    ensures Rendered(5, 10, false, "", 2, true, true) == "50" && Scan("50", 10) != 5
  {
    assert Digits(5, 10, false) == "5";
    assert Pad(1, true) == "0";
    assert "" + "5" == "5" && "5" + "0" == "50";
    TextReadsBack(5, 10, false, false, false, false, 2, true, true);
  }

  /** What vprintf prints of the text: as many characters as the number has digits. */
  lemma {:induction false} PrintedPart(i: nat, base: nat, lower: bool, sign: string, width: int, left: bool, zero: bool)
    requires 2 <= base <= 16
    requires sign == "-" || sign == "+" || sign == " " || sign == ""
    ensures var digits := Digits(i, base, lower);
            |digits| <= |Rendered(i, base, lower, sign, width, left, zero)|
    ensures var digits := Digits(i, base, lower);
            Rendered(i, base, lower, sign, width, left, zero)[..|digits|] == digits
            <==> if left || width <= |sign + digits| then sign == "" else zero && i == 0
  {
    var digits := Digits(i, base, lower);
    var n := PadLength(width, sign + digits);
    var text := Rendered(i, base, lower, sign, width, left, zero);
    DigitsProper(i, base, lower);
    DigitsAreDigits(i, base, lower);
    assert IsDigit(digits[0], base);
    if left || n == 0 {
      if sign == "" {
        assert text[..|digits|] == digits;
      } else {
        assert text[..|digits|][0] == sign[0];
      }
    } else {
      assert text[..|digits|][0] == if zero then '0' else ' ';
      if i == 0 { assert digits == "0"; }
    }
  }

  /** printf("%d", -5) prints the sign and printf("%2d", 5) a blank. */
  lemma {:induction false} OnlyTheFront()
    ensures Rendered(5, 10, false, "-", 0, false, false) == "-5" && "-5"[..|Digits(5, 10, false)|] == "-"
    ensures Rendered(5, 10, false, "", 2, false, false) == " 5" && " 5"[..|Digits(5, 10, false)|] == " "
  {
    assert Digits(5, 10, false) == "5";
    assert Pad(0, false) == "" && Pad(1, false) == " ";
    assert "" + ("-" + "5") == "-5" && " " + ("" + "5") == " 5";
  }

  const TWO64: nat := 0x1_0000_0000_0000_0000

  /** neg ? -(uintmax_t)v : (uintmax_t)v, in arithmetic modulo 2^64. */
  function Magnitude(v: int): nat {
    if v < 0 then (TWO64 - v % TWO64) % TWO64 else v % TWO64
  }

  /** The wrapping negation is the absolute value, for the most negative number too. */
  lemma {:induction false} MagnitudeIsAbsolute(v: int)
    requires -0x8000_0000_0000_0000 <= v < 0x8000_0000_0000_0000
    ensures Magnitude(v) == (if v < 0 then -v else v) < TWO64
  {
    assert v < 0 ==> v % TWO64 == v + TWO64;
  }

  /**
   The signed conversions of vprintf: after clearing the buffer, the text reads back as v unless zero padding
   spoils it.
   */
  method FormatSigned(b: array<char>, v: int, plus: bool, space: bool, width: int, left: bool, zero: bool)
    returns (length: nat)
    requires b.Length == BUFFER && width < BUFFER
    requires -0x8000_0000_0000_0000 <= v < 0x8000_0000_0000_0000
    modifies b
    ensures var sign, mag := Sign(v < 0, plus, space), if v < 0 then -v else v;
            && length == |Digits(mag, 10, false)|
            && Holds(b[..], Rendered(mag, 10, false, sign, width, left, zero))
            && Shows(b[..], mag, 10, false, length, sign, width, left, zero)
            && (Scan(Rendered(mag, 10, false, sign, width, left, zero), 10) == v
                <==> v == 0 || !zero || width <= |sign + Digits(mag, 10, false)| || (!left && sign == ""))
  {
    for k := 0 to BUFFER
      invariant forall j | 0 <= j < k :: b[j] == '\0'
    {
      b[k] := '\0';
    }
    MagnitudeIsAbsolute(v);
    length := IntStr(b, Magnitude(v), 10, plus, space, width, left, zero, v < 0);
    TextReadsBack(Magnitude(v), 10, false, v < 0, plus, space, width, left, zero);
  }
}
