/** Console::Convert: a number as text in any radix from 2 to 35, cut to the size of the caller's buffer. */
module Conversion {

  const WORD_LIMIT: int := 0x1_0000_0000_0000_0000

  type Radix = b: int | 2 <= b < 36 witness 2

  function Power(b: nat, k: nat): (p: nat)
    ensures b > 0 ==> p > 0
  {
    if k == 0 then 1 else b * Power(b, k - 1)
  }

  /** The digits of n, most significant first; none for zero. */
  function Digits(n: nat, b: Radix): seq<nat>
    decreases n
  {
    if n == 0 then [] else Digits(n / b, b) + [n % b]
  }

  /** The last k digits of n, with leading zeros where n has fewer. */
  function FixedDigits(n: nat, b: Radix, k: nat): (d: seq<nat>)
    ensures |d| == k
    decreases k
  {
    if k == 0 then [] else FixedDigits(n / b, b, k - 1) + [n % b]
  }

  /** The number that digits stand for. */
  function Value(d: seq<nat>, b: nat): nat {
    if d == [] then 0 else Value(d[..|d| - 1], b) * b + d[|d| - 1]
  }

  /** 0 to 9, then A to Y: the gap of seven in the character table is skipped. */
  function Character(d: nat): char
    requires d < 256
  {
    if d + 0x30 > 0x39 then (d + 0x30 + 7) as char else (d + 0x30) as char
  }

  function DigitOf(c: char): int {
    if '0' <= c <= '9' then c as int - 0x30 else c as int - 0x37
  }

  predicate Proper(d: seq<nat>, b: nat) {
    forall i :: 0 <= i < |d| ==> d[i] < b
  }

  function Text(d: seq<nat>): (t: string)
    ensures |t| == |d|
  {
    if d == [] then "" else Text(d[..|d| - 1]) + [Character(d[|d| - 1] % 256)]
  }

  lemma TextAppend(d: seq<nat>, x: nat)
    requires x < 256
    ensures Text(d + [x]) == Text(d) + [Character(x)]
  {
    assert (d + [x])[..|d|] == d;
  }

  function Parse(t: string, b: nat): int {
    if t == "" then 0 else Parse(t[..|t| - 1], b) * b + DigitOf(t[|t| - 1])
  }

  lemma Remainder(n: nat, b: Radix)
    ensures n % b < b && n / b * b + n % b == n && (n > 0 ==> n / b < n) && (n > 0 && n / b == 0 ==> n % b > 0)
  {
  }

  lemma ProperAppend(d: seq<nat>, x: nat, b: nat)
    requires Proper(d, b) && x < b
    ensures Proper(d + [x], b) && |d + [x]| > 0 && (d != [] ==> (d + [x])[0] == d[0])
  {
  }

  lemma {:induction false} DigitsProper(n: nat, b: Radix)
    ensures Proper(Digits(n, b), b) && (n > 0 ==> Digits(n, b) != [] && Digits(n, b)[0] != 0)
    decreases n
  {
    if n > 0 {
      Remainder(n, b);
      var q, r := n / b, n % b;
      DigitsProper(q, b);
      ProperAppend(Digits(q, b), r, b);
    }
  }

  lemma ValueAppend(d: seq<nat>, x: nat, b: nat)
    ensures Value(d + [x], b) == Value(d, b) * b + x
  {
    assert (d + [x])[..|d|] == d;
  }

  /** Digits stand for the number they were made from. */
  lemma {:induction false} DigitsValue(n: nat, b: Radix)
    ensures Value(Digits(n, b), b) == n
    decreases n
  {
    hide Value;
    if n > 0 {
      Remainder(n, b);
      var q, r := n / b, n % b;
      DigitsValue(q, b);
      ValueAppend(Digits(q, b), r, b);
    } else {
      NoValue(b);
    }
  }

  lemma NoValue(b: nat)
    ensures Value([], b) == 0
  {
  }

  lemma {:induction false} FixedDigitsValue(n: nat, b: Radix, k: nat)
    requires n < Power(b, k)
    ensures Proper(FixedDigits(n, b, k), b) && Value(FixedDigits(n, b, k), b) == n
    decreases k
  {
    hide Value, Proper;
    if k > 0 {
      Remainder(n, b);
      var q, r := n / b, n % b;
      QuotientBelow(n, b, Power(b, k - 1));
      FixedDigitsValue(q, b, k - 1);
      var d := FixedDigits(q, b, k - 1);
      ProperAppend(d, r, b);
      ValueAppend(d, r, b);
    } else {
      NoValue(b);
      ProperNothing(b);
    }
  }

  lemma ProperNothing(b: nat)
    ensures Proper([], b)
  {
  }

  lemma QuotientBelow(n: nat, b: Radix, c: nat)
    requires n < b * c
    ensures n / b < c
  {
  }

  /** Cutting the last digits off divides by the base that many times. */
  lemma {:induction false} PrefixValue(d: seq<nat>, b: Radix, k: nat)
    requires k <= |d| && Proper(d, b)
    ensures Value(d[..k], b) == Value(d, b) / Power(b, |d| - k)
    decreases |d|
  {
    if k == |d| {
      assert d[..k] == d;
    } else {
      var e, x := d[..|d| - 1], d[|d| - 1];
      PrefixValue(e, b, k);
      assert e[..k] == d[..k];
      var v, p := Value(e, b), Power(b, |e| - k);
      LastDigit(v, x, b);
      DivideTwice(v * b + x, b, p);
      assert Power(b, |d| - k) == b * p;
    }
  }

  lemma LastDigit(x: nat, d: nat, b: Radix)
    requires d < b
    ensures (x * b + d) / b == x
  {
  }

  lemma DivideTwice(n: nat, b: nat, c: nat)
    requires b > 0 && c > 0
    ensures b * c > 0 && n / b / c == n / (b * c)
  {
    var p, r := n / b, n % b;
    var q, t := p / c, p % c;
    DivisionFact(n, b);
    DivisionFact(p, c);
    TwoDivisions(n, b, c, p, r, q, t);
    QuotientIs(n, b * c, q, b * t + r);
  }

  lemma DivisionFact(n: nat, m: nat)
    requires m > 0
    ensures n == m * (n / m) + n % m && n % m < m
  {
  }

  lemma TwoDivisions(n: nat, b: nat, c: nat, p: nat, r: nat, q: nat, t: nat)
    requires n == b * p + r && r < b && p == c * q + t && t < c
    ensures n == b * c * q + (b * t + r) && b * t + r < b * c
  {
    assert b * p == b * (c * q) + b * t;
    assert b * (c * q) == b * c * q;
    assert b * c == b * t + b * (c - t);
    Multiple(b, c - t);
  }

  lemma QuotientIs(n: nat, m: nat, q: nat, r: nat)
    requires m > 0 && n == m * q + r && r < m
    ensures n / m == q
  {
    var p := n / m;
    DivisionFact(n, m);
    assert m * (p - q) == m * p - m * q;
    Multiple(m, p - q);
  }

  lemma Multiple(m: nat, x: int)
    ensures x >= 1 ==> m * x >= m
    ensures x <= -1 ==> m * x + m <= 0
  {
  }

  /** Reading the text back gives the number the digits stand for. */
  lemma {:induction false} ParseText(d: seq<nat>, b: Radix)
    requires Proper(d, 35)
    ensures Parse(Text(d), b) == Value(d, b)
    decreases |d|
  {
    if d != [] {
      var t := Text(d);
      assert t[..|t| - 1] == Text(d[..|d| - 1]);
      ParseText(d[..|d| - 1], b);
    }
  }

  /** A number below b to the k has at most k digits. */
  lemma {:induction false} DigitsLength(n: nat, b: Radix, k: nat)
    requires n < Power(b, k)
    ensures |Digits(n, b)| <= k
    decreases k
  {
    if n > 0 && k > 0 {
      QuotientBelow(n, b, Power(b, k - 1));
      DigitsLength(n / b, b, k - 1);
    }
  }

  lemma {:induction false} PowerGrows(b: nat, c: nat, k: nat)
    requires 0 < b <= c
    ensures Power(b, k) <= Power(c, k)
    decreases k
  {
    if k > 0 {
      PowerGrows(b, c, k - 1);
      ProductGrows(b, c, Power(b, k - 1), Power(c, k - 1));
    }
  }

  lemma ProductGrows(b: nat, c: nat, x: nat, y: nat)
    requires b <= c && x <= y
    ensures b * x <= c * y
  {
    assert c * y == b * y + (c - b) * y;
    assert b * y == b * x + b * (y - x);
  }

  lemma {:induction false} PowerSum(b: nat, j: nat, k: nat)
    ensures Power(b, j + k) == Power(b, j) * Power(b, k)
    decreases j
  {
    if j > 0 {
      PowerSum(b, j - 1, k);
      Associate(b, Power(b, j - 1), Power(b, k));
    }
  }

  lemma Associate(x: nat, y: nat, z: nat)
    ensures x * y * z == x * (y * z)
  {
  }

  /** 64 digits are enough in every radix. */
  lemma WordDigits(n: nat, b: Radix)
    requires n < WORD_LIMIT
    ensures |Digits(n, b)| <= 64
  {
    PowerGrows(2, b, 64);
    WordPowers();
    DigitsLength(n, b, 64);
  }

  lemma WordPowers()
    ensures Power(2, 64) == WORD_LIMIT && Power(16, 16) == WORD_LIMIT
  {
    assert Power(2, 1) == 2 * Power(2, 0);
    PowerSum(2, 1, 1);
    PowerSum(2, 2, 2);
    PowerSum(2, 4, 4);
    PowerSum(2, 8, 8);
    PowerSum(2, 16, 16);
    PowerSum(2, 32, 32);
    assert Power(16, 1) == 16 * Power(16, 0);
    PowerSum(16, 1, 1);
    PowerSum(16, 2, 2);
    PowerSum(16, 4, 4);
    PowerSum(16, 8, 8);
  }

  /** What Convert leaves in the buffer: the leading characters that fit, and a terminator. */
  ghost predicate Shows(buffer: seq<char>, size: nat, d: seq<nat>) {
    var k := if size == 0 then 0 else if |d| <= size - 1 then |d| else size - 1;
    k < |buffer| && buffer[..k] == Text(d)[..k] && buffer[k] == 0 as char
  }

  /** In base 1 dividing gets nowhere: the loop ends at the start of its array, with 255 zeros behind it. */
  ghost predicate ShowsZeros(buffer: seq<char>, size: nat) {
    var k := if size == 0 then 0 else size - 1;
    k < |buffer| && buffer[k] == 0 as char && forall q :: 0 <= q < k ==> buffer[q] == '0'
  }

  /** One round splits off the last of k digits. */
  lemma FixedRound(n: nat, k: nat)
    requires k > 0
    ensures Text(FixedDigits(n, 16, k)) == Text(FixedDigits(n / 16, 16, k - 1)) + [Character(n % 16)]
  {
    TextAppend(FixedDigits(n / 16, 16, k - 1), n % 16);
  }

  lemma NoFixedDigits(n: nat)
    ensures Text(FixedDigits(n, 16, 0)) == ""
  {
  }

  /** The loop for HexFixed: exactly sixteen rounds. */
  method FillFixed(c: array<char>, number: nat) returns (i: int)
    requires c.Length == 256
    modifies c
    ensures i == 239 && c[i + 1..] == Text(FixedDigits(number, 16, 16))
  {
    hide Text, FixedDigits, Character;
    var n := number;
    i := 255;
    assert c[256..] == [];
    while i > 255 - 16
      invariant 239 <= i <= 255
      invariant Text(FixedDigits(n, 16, i - 239)) + c[i + 1..] == Text(FixedDigits(number, 16, 16))
    {
      ghost var rest := c[i + 1..];
      FixedRound(n, i - 239);
      c[i] := Character(n % 16);
      assert c[i..] == [Character(n % 16)] + rest;
      n := n / 16;
      i := i - 1;
    }
    NoFixedDigits(n);
  }

  /** The other loop: as many rounds as there are digits, and never more than 255. */
  method FillDigits(c: array<char>, number: nat, b: nat) returns (i: int)
    requires c.Length == 256 && 0 < b < 36 && 0 < number < WORD_LIMIT
    modifies c
    ensures 0 <= i <= 255
    ensures b >= 2 ==> c[i + 1..] == Text(Digits(number, b))
    ensures b == 1 ==> i == 0 && forall k :: 1 <= k < 256 ==> c[k] == '0'
  {
    hide Digits, Text;
    var n: nat := number;
    i := 255;
    assert c[256..] == [];
    if b >= 2 {
      WordDigits(number, b);
    }
    while i > 0 && n > 0
      invariant 0 <= i <= 255
      invariant b >= 2 ==> Text(Digits(n, b)) + c[i + 1..] == Text(Digits(number, b))
      invariant b == 1 ==> n == number && forall k :: i < k < 256 ==> c[k] == '0'
      decreases i
    {
      ghost var rest := c[i + 1..];
      LoopRound(n, b);
      c[i] := Character(n % b);
      assert c[i..] == [Character(n % b)] + rest;
      n := n / b;
      i := i - 1;
    }
    if b >= 2 {
      NoDigits(n, b);
      assert |Text(Digits(n, b)) + c[i + 1..]| == |Digits(number, b)|;
    }
  }

  lemma NoDigits(n: nat, b: Radix)
    ensures Digits(n, b) == [] <==> n == 0
    ensures Text([]) == ""
  {
  }

  /** One round of the loop splits off the last digit, which is a character of its own. */
  lemma LoopRound(n: nat, b: nat)
    requires n > 0 && 0 < b < 36
    ensures 0 <= n / b && n % b < 36
    ensures b == 1 ==> n / b == n && n % b == 0
    ensures b >= 2 ==> Text(Digits(n, b)) == Text(Digits(n / b, b)) + [Character(n % b)]
  {
    if b >= 2 {
      TextAppend(Digits(n / b, b), n % b);
    }
  }

  /** The characters from i on, as many as fit, and a terminator. */
  method CopyOut(buffer: array<char>, c: array<char>, first: int, size: nat)
    requires c.Length == 256 && 0 <= first <= 256 && size <= 256 && buffer.Length >= 1 && size <= buffer.Length
             && buffer != c
    modifies buffer
    ensures var t := c[first..];
            var k := if size == 0 then 0 else if |t| <= size - 1 then |t| else size - 1;
            buffer[..k] == t[..k] && buffer[k] == 0 as char && forall q :: k < q < buffer.Length ==>
                buffer[q] == old(buffer[q])
  {
    var i, j := first, 0;
    while j < size - 1 && i < 256
      invariant 0 <= j <= 255 && i == first + j <= 256 && (j <= size - 1 || j == 0)
      invariant forall k :: 0 <= k < j ==> buffer[k] == c[first + k]
      invariant forall k :: j <= k < buffer.Length ==> buffer[k] == old(buffer[k])
    {
      buffer[j] := c[i];
      i, j := i + 1, j + 1;
    }
    buffer[j] := 0 as char;
  }

  lemma CopiedText(buffer: seq<char>, c: seq<char>, first: int, size: nat, d: seq<nat>)
    requires 0 <= first <= |c| && c[first..] == Text(d)
    requires var t := c[first..];
             var k := if size == 0 then 0 else if |t| <= size - 1 then |t| else size - 1;
             k < |buffer| && buffer[..k] == t[..k] && buffer[k] == 0 as char
    ensures Shows(buffer, size, d)
  {
    hide Text;
  }

  lemma CopiedZeros(buffer: seq<char>, c: seq<char>, size: nat)
    requires |c| == 256 && size <= 256 && forall k :: 1 <= k < 256 ==> c[k] == '0'
    requires var k := if size == 0 then 0 else size - 1;
             k < |buffer| && buffer[..k] == c[1..][..k] && buffer[k] == 0 as char
    ensures ShowsZeros(buffer, size)
  {
    var k := if size == 0 then 0 else size - 1;
    forall q | 0 <= q < k
      ensures buffer[q] == '0'
    {
      assert buffer[..k][q] == c[1..][..k][q] == c[q + 1];
    }
  }

  /** How a call ends: as it should, with a division by zero, or with a store behind the end of the buffer. */
  datatype Ending = Done | DivideError | Overrun

  /** The number is shown as a single zero, whatever size the caller has stated. */
  predicate Zero(number: nat, base: nat, hexFixed: bool) {
    number == 0 && !(hexFixed && base % 36 == 16)
  }

  /** The number of characters that are written in any case. */
  function Least(number: nat, base: nat, hexFixed: bool): nat {
    if Zero(number, base, hexFixed) then 2 else 1
  }

  /** Console::Convert.  A base that is a multiple of 36 divides by zero.  Zero takes two characters and everything else
      one, even of a buffer whose stated size is less. */
  method Convert(buffer: array<char>, buffersize: nat, number: nat, base: nat, hexFixed: bool) returns (r: Ending)
    requires number < WORD_LIMIT && buffersize % 257 <= buffer.Length
    modifies buffer
    ensures r == DivideError <==> base % 36 == 0 && number > 0
    ensures r == Overrun <==>
              !(base % 36 == 0 && number > 0) && buffer.Length < Least(number, base, hexFixed)
    ensures r == Done && 2 <= base % 36 && !(hexFixed && base % 36 == 16) && number > 0 ==>
              Shows(buffer[..], buffersize % 257, Digits(number, base % 36))
    ensures r == Done && base % 36 == 1 && number > 0 ==> ShowsZeros(buffer[..], buffersize % 257)
    ensures r == Done && hexFixed && base % 36 == 16 ==>
              Shows(buffer[..], buffersize % 257, FixedDigits(number, 16, 16))
    ensures r == Done && Zero(number, base, hexFixed) ==> buffer[0] == '0' && buffer[1] == 0 as char
    ensures forall q :: buffersize % 257 <= q < buffer.Length && Least(number, base, hexFixed) <= q ==>
              buffer[q] == old(buffer[q])
  {
    hide Digits, FixedDigits, Text, Shows, ShowsZeros;
    var c := new char[256](_ => ' ');
    var i: int;
    var b := base % 36;
    var size := buffersize % 257;
    if hexFixed && b == 16 {
      i := FillFixed(c, number);
    } else {
      if number == 0 {
        if buffer.Length < 2 {
          return Overrun;
        }
        buffer[0] := '0';
        buffer[1] := 0 as char;
        return Done;
      }
      if b == 0 {
        return DivideError;
      }
      i := FillDigits(c, number, b);
    }
    if buffer.Length == 0 {
      return Overrun;
    }
    CopyOut(buffer, c, i + 1, size);
    if hexFixed && b == 16 {
      CopiedText(buffer[..], c[..], i + 1, size, FixedDigits(number, 16, 16));
    } else if b >= 2 {
      CopiedText(buffer[..], c[..], i + 1, size, Digits(number, b));
    } else {
      CopiedZeros(buffer[..], c[..], size);
    }
    r := Done;
  }

  /** The text in a buffer that is large enough reads back as the number, without a leading zero. */
  lemma RoundTrip(buffer: seq<char>, size: nat, n: nat, b: Radix)
    requires 0 < n < WORD_LIMIT && Shows(buffer, size, Digits(n, b))
    ensures |Digits(n, b)| < size ==>
              var k := |Digits(n, b)|;
              0 < k < |buffer| && buffer[k] == 0 as char && Parse(buffer[..k], b) == n && buffer[0] != '0'
    ensures |Digits(n, b)| >= size > 0 ==>
              var k := size - 1;
              k < |buffer| && buffer[k] == 0 as char && Parse(buffer[..k], b) == n / Power(b, |Digits(n, b)| - k)
  {
    hide Text, Parse, Value, Digits, Power;
    var d := Digits(n, b);
    DigitsProper(n, b);
    DigitsValue(n, b);
    var k := if size == 0 then 0 else if |d| <= size - 1 then |d| else size - 1;
    TextPrefix(d, k);
    ParseText(d[..k], b);
    PrefixValue(d, b, k);
    LeadingCharacter(d, b);
    if |d| < size {
      assert d[..k] == d;
    }
  }

  lemma LeadingCharacter(d: seq<nat>, b: Radix)
    requires d != [] && Proper(d, b) && d[0] != 0
    ensures Text(d) != "" && Text(d)[0] != '0'
  {
    TextPrefix(d, 1);
    assert d[..1] == [] + [d[0]];
    TextAppend([], d[0]);
    assert Text(d)[0] == Text(d)[..1][0];
  }

  /** HexFixed shows the leading ones of sixteen digits, as many as there is room for; they read back as the number
      without the digits cut off, and with room for all sixteen as the number itself. */
  lemma FixedRoundTrip(buffer: seq<char>, size: nat, n: nat)
    requires n < WORD_LIMIT && Shows(buffer, size, FixedDigits(n, 16, 16))
    ensures var k := if size == 0 then 0 else if size <= 16 then size - 1 else 16;
            && k < |buffer| && buffer[k] == 0 as char
            && Parse(buffer[..k], 16) == n / Power(16, 16 - k)
            && (k == 16 ==> Parse(buffer[..k], 16) == n)
  {
    hide Text, Parse, Value, FixedDigits, Power;
    WordPowers();
    FixedDigitsValue(n, 16, 16);
    var d := FixedDigits(n, 16, 16);
    var k := if size == 0 then 0 else if size <= 16 then size - 1 else 16;
    TextPrefix(d, k);
    ParseText(d[..k], 16);
    PrefixValue(d, 16, k);
    if k == 16 {
      assert d[..k] == d;
    }
  }

  lemma {:induction false} TextPrefix(d: seq<nat>, k: nat)
    requires k <= |d|
    ensures Text(d)[..k] == Text(d[..k])
    decreases |d|
  {
    if k == |d| {
      assert d[..k] == d && Text(d)[..k] == Text(d);
    } else {
      var e := d[..|d| - 1];
      TextPrefix(e, k);
      assert e[..k] == d[..k];
      assert Text(d)[..k] == Text(e)[..k];
    }
  }

  const CHARACTERS := "0123456789ABCDEFGHIJKLMNOPQRSTUVWXYZ"

  lemma CharacterOf(d: nat)
    requires d < 36
    ensures Character(d) == CHARACTERS[d]
  {
    if d < 10 {
      assert CHARACTERS[d] == (d + 0x30) as char;
    } else {
      assert CHARACTERS[d] == (d + 0x37) as char;
    }
  }

  /** Each digit is shown by its character: 0 to 9, and from ten on the letters in their order. */
  lemma {:induction false} ShownCharacters(d: seq<nat>, i: nat)
    requires i < |d| && Proper(d, 36)
    ensures Text(d)[i] == CHARACTERS[d[i]]
    decreases |d|
  {
    CharacterOf(d[|d| - 1]);
    if i < |d| - 1 {
      ShownCharacters(d[..|d| - 1], i);
    }
  }
}
