/** The 22-character identifiers: a 128-bit number written in base 62, ten digits at a time. */
module ShortUuid {

  const TWO_64: nat := 0x1_0000_0000_0000_0000

  type uint64 = x: int | 0 <= x < TWO_64

  const ALPHABET: string := "0123456789" + "ABCDEFGHIJKLMNOPQRSTUVWXYZ" + "abcdefghijklmnopqrstuvwxyz"
  const LENGTH: nat := 22
  const N_DIGITS: nat := 10
  const DIVISOR: uint64 := 839299365868340224

  // ---------------------------------------------------------------- 128-bit numbers

  datatype Uint128 = Uint128(lo: uint64, hi: uint64)
  {
    function Value(): nat { hi * TWO_64 + lo }
  }

  /** bits.Div64: the caller must see to it that the quotient fits. */
  function Div64(hi: uint64, lo: uint64, y: uint64): (r: (uint64, uint64))
    requires hi < y
    ensures r.0 * y + r.1 == hi * TWO_64 + lo && r.1 < y
  {
    var n := hi * TWO_64 + lo;
    QuotientFits(hi, lo, y);
    (n / y, n % y)
  }

  lemma QuotientFits(hi: uint64, lo: uint64, y: uint64)
    requires hi < y
    ensures 0 <= (hi * TWO_64 + lo) / y < TWO_64
    ensures (hi * TWO_64 + lo) / y * y + (hi * TWO_64 + lo) % y == hi * TWO_64 + lo
  {
    var n := hi * TWO_64 + lo;
    var q := n / y;
    assert n < y * TWO_64;
    assert q * y <= n;
    if q >= TWO_64 {
      MulMonotone(TWO_64, q, y);
    }
  }

  lemma MulMonotone(a: nat, b: nat, c: nat)
    requires a <= b
    ensures a * c <= b * c
  {
  }

  method QuoRem64(u: Uint128, v: uint64) returns (q: Uint128, r: uint64)
    requires v > 0
    ensures q.Value() * v + r == u.Value() && r < v
  {
    var (q1, r1) := Div64(0, u.hi, v);
    var (q0, r0) := Div64(r1, u.lo, v);
    q, r := Uint128(q0, q1), r0;
    assert q1 * v * TWO_64 == (u.hi - r1) * TWO_64;
    assert (q1 * TWO_64 + q0) * v == q1 * v * TWO_64 + q0 * v;
  }

  // ---------------------------------------------------------------- base 62

  function Pow62(k: nat): (p: nat)
    ensures p > 0
  {
    if k == 0 then 1 else 62 * Pow62(k - 1)
  }

  lemma {:induction false} Pow62Sum(j: nat, k: nat)
    ensures Pow62(j + k) == Pow62(j) * Pow62(k)
  {
    if j > 0 {
      Pow62Sum(j - 1, k);
      assert Pow62(j) * Pow62(k) == 62 * (Pow62(j - 1) * Pow62(k));
    }
  }

  lemma Pow62Values()
    ensures Pow62(N_DIGITS) == DIVISOR
    ensures Pow62(LENGTH) > TWO_64 * TWO_64
  {
    assert Pow62(5) == 62 * Pow62(4) && Pow62(4) == 62 * Pow62(3) && Pow62(3) == 62 * Pow62(2);
    assert Pow62(2) == 3844 && Pow62(5) == 916132832;
    Pow62Sum(5, 5);
    Pow62Sum(10, 10);
    Pow62Sum(20, 2);
    assert Pow62(20) == DIVISOR * DIVISOR;
  }

  predicate IsDigit(c: char) {
    '0' <= c <= '9' || 'A' <= c <= 'Z' || 'a' <= c <= 'z'
  }

  function DigitOf(c: char): (d: nat)
    requires IsDigit(c)
    ensures d < 62
  {
    if c <= '9' then c as int - 48 else if c <= 'Z' then c as int - 55 else c as int - 61
  }

  lemma DecimalAt(k: nat)
    requires k < 10
    ensures "0123456789"[k] == (48 + k) as char
  {
  }

  lemma UpperAt(k: nat)
    requires k < 26
    ensures "ABCDEFGHIJKLMNOPQRSTUVWXYZ"[k] == (65 + k) as char
  {
  }

  lemma LowerAt(k: nat)
    requires k < 26
    ensures "abcdefghijklmnopqrstuvwxyz"[k] == (97 + k) as char
  {
  }

  lemma AlphabetDigit(d: nat)
    requires d < 62
    ensures IsDigit(ALPHABET[d]) && DigitOf(ALPHABET[d]) == d
  {
    var digits, upper, lower := "0123456789", "ABCDEFGHIJKLMNOPQRSTUVWXYZ", "abcdefghijklmnopqrstuvwxyz";
    assert ALPHABET[d] == if d < 10 then digits[d] else if d < 36 then upper[d - 10] else lower[d - 36];
    if d < 10 {
      DecimalAt(d);
    } else if d < 36 {
      UpperAt(d - 10);
    } else {
      LowerAt(d - 36);
    }
  }

  ghost predicate AreDigits(s: string) {
    forall k :: 0 <= k < |s| ==> IsDigit(s[k])
  }

  /** The number that digits stand for, the first being the most significant. */
  ghost function Number(s: string): nat
    requires AreDigits(s)
  {
    if s == "" then 0 else DigitOf(s[0]) * Pow62(|s| - 1) + Number(s[1..])
  }

  lemma {:induction false} NumberBound(s: string)
    requires AreDigits(s)
    ensures Number(s) < Pow62(|s|)
  {
    if s != "" {
      NumberBound(s[1..]);
      MulMonotone(DigitOf(s[0]), 61, Pow62(|s| - 1));
    }
  }

  /** Texts of equal length are ordered as the numbers they stand for. */
  ghost predicate LexLess(s: string, t: string)
    requires |s| == |t|
  {
    s != "" && (s[0] < t[0] || (s[0] == t[0] && LexLess(s[1..], t[1..])))
  }

  lemma {:induction false} OrderIsNumeric(s: string, t: string)
    requires |s| == |t| && AreDigits(s) && AreDigits(t)
    ensures LexLess(s, t) <==> Number(s) < Number(t)
    ensures Number(s) == Number(t) ==> s == t
  {
    if s != "" {
      var p := Pow62(|s| - 1);
      OrderIsNumeric(s[1..], t[1..]);
      NumberBound(s[1..]);
      NumberBound(t[1..]);
      if DigitOf(s[0]) < DigitOf(t[0]) {
        LeadingDigitDecides(DigitOf(s[0]), DigitOf(t[0]), Number(s[1..]), Number(t[1..]), p);
      } else if DigitOf(t[0]) < DigitOf(s[0]) {
        LeadingDigitDecides(DigitOf(t[0]), DigitOf(s[0]), Number(t[1..]), Number(s[1..]), p);
      } else {
        assert s == [s[0]] + s[1..] && t == [t[0]] + t[1..];
      }
    }
  }

  lemma LeadingDigitDecides(d: nat, e: nat, x: nat, y: nat, p: nat)
    requires d < e && x < p
    ensures d * p + x < e * p + y
  {
    MulMonotone(d + 1, e, p);
    assert (d + 1) * p == d * p + p;
  }

  // ---------------------------------------------------------------- the encoder

  lemma SplitOffDigit(num: nat, r: nat, p: nat, q: nat)
    ensures (num * (62 * p) + r) * q == (num * p + r / 62) * (62 * q) + (r % 62) * q
  {
    var high := num * p + r / 62;
    assert num * (62 * p) == 62 * (num * p);
    assert num * (62 * p) + r == 62 * high + r % 62;
    assert (62 * high + r % 62) * q == 62 * high * q + (r % 62) * q;
    assert high * (62 * q) == 62 * high * q;
  }

  lemma NumberCons(c: char, digits: string)
    requires IsDigit(c) && AreDigits(digits)
    ensures AreDigits([c] + digits) && Number([c] + digits) == DigitOf(c) * Pow62(|digits|) + Number(digits)
  {
    hide DigitOf, Pow62, IsDigit;
    assert ([c] + digits)[1..] == digits;
  }

  /** n is written with these digits at its end; what is left of it is num, followed by `left` more digits,
      which r stands for. */
  ghost predicate Encodes(n: nat, num: nat, left: nat, r: nat, digits: string) {
    AreDigits(digits) && r < Pow62(left) && n == (num * Pow62(left) + r) * Pow62(|digits|) + Number(digits)
  }

  /** n is num followed by these digits. */
  ghost predicate Stands(n: nat, num: nat, digits: string) {
    AreDigits(digits) && n == num * Pow62(|digits|) + Number(digits)
  }

  lemma DigitArithmetic(n: nat, num: nat, r: nat, p: nat, q: nat, d: nat, number: nat)
    requires n == (num * (62 * p) + r) * q + number && d == r % 62
    ensures n == (num * p + r / 62) * (62 * q) + (d * q + number)
    ensures r < 62 * p ==> r / 62 < p
  {
    SplitOffDigit(num, r, p, q);
  }

  /** Writing one digit in front of those written so far keeps the number. */
  lemma DigitWritten(n: nat, num: nat, left: nat, r: nat, digits: string)
    requires left > 0 && Encodes(n, num, left, r, digits)
    ensures Encodes(n, num, left - 1, r / 62, [ALPHABET[r % 62]] + digits)
  {
    hide Number, AreDigits, IsDigit, DigitOf;
    AlphabetDigit(r % 62);
    NumberCons(ALPHABET[r % 62], digits);
    DigitArithmetic(n, num, r, Pow62(left - 1), Pow62(|digits|), r % 62, Number(digits));
  }

  /** When all digits of r are written, or the buffer is full, nothing of r is left. */
  lemma RoundDone(n: nat, num: nat, left: nat, r: nat, digits: string)
    requires Encodes(n, num, left, r, digits) && n < TWO_64 * TWO_64
    requires left == 0 || |digits| == LENGTH
    ensures Stands(n, num, digits)
  {
    hide Number, AreDigits, Pow62;
    if |digits| == LENGTH {
      NothingLeft(num * Pow62(left) + r, digits, n);
      LeadingDigitsGone(num, Pow62(left));
    } else {
      PowZero();
      assert num * Pow62(0) + r == num;
    }
  }

  lemma PowZero()
    ensures Pow62(0) == 1
  {
  }

  lemma NothingLeft(high: nat, digits: string, n: nat)
    requires |digits| == LENGTH && AreDigits(digits) && n < TWO_64 * TWO_64
    requires n == high * Pow62(LENGTH) + Number(digits)
    ensures high == 0
  {
    Pow62Values();
    if high >= 1 {
      MulMonotone(1, high, Pow62(LENGTH));
    }
  }

  lemma LeadingZero(n: nat, digits: string)
    requires Stands(n, 0, digits)
    ensures Stands(n, 0, [ALPHABET[0]] + digits)
  {
    hide Pow62, DigitOf, IsDigit;
    AlphabetDigit(0);
    NumberCons(ALPHABET[0], digits);
  }

  /** One round of the encoder: up to ten digits of r, the last of them at position i. */
  method WriteDigits(buf: array<char>, i0: int, num: nat, r0: uint64, ghost n: nat) returns (i: int)
    requires buf.Length == LENGTH && 0 <= i0 < LENGTH && n < TWO_64 * TWO_64
    requires Encodes(n, num, N_DIGITS, r0, buf[i0 + 1..])
    modifies buf
    ensures i == if i0 >= N_DIGITS then i0 - N_DIGITS else -1
    ensures Stands(n, num, buf[i + 1..])
  {
    hide Pow62, Number, AreDigits, IsDigit, DigitOf, Encodes, Stands;
    var r: nat := r0;
    var j := 0;
    i := i0;
    while j < N_DIGITS && i >= 0
      invariant 0 <= j <= N_DIGITS && -1 <= i == i0 - j
      invariant Encodes(n, num, N_DIGITS - j, r, buf[i + 1..])
    {
      ghost var written := buf[i + 1..];
      DigitWritten(n, num, N_DIGITS - j, r, written);
      buf[i] := ALPHABET[r % 62];
      assert buf[i..] == [ALPHABET[r % 62]] + written;
      r := r / 62;
      i := i - 1;
      j := j + 1;
    }
    RoundDone(n, num, N_DIGITS - j, r, buf[i + 1..]);
  }

  /** Dividing by the power of ten digits begins a round. */
  lemma RoundBegins(n: nat, before: nat, num: nat, r: nat, digits: string)
    requires Stands(n, before, digits) && before == num * DIVISOR + r && r < DIVISOR
    ensures Encodes(n, num, N_DIGITS, r, digits)
  {
    hide Number, AreDigits;
    Pow62Values();
    hide Pow62;
  }

  lemma NothingWritten(n: nat)
    ensures Stands(n, n, "")
  {
  }

  lemma LeadingDigitsGone(num: nat, p: nat)
    requires p > 0
    ensures num * p == 0 ==> num == 0
  {
  }

  /** For every 128-bit number: 22 digits of the alphabet that stand for it, in at most three rounds, with
      no digit dropped when the buffer is full. */
  method New(id: Uint128) returns (s: string, ghost rounds: nat)
    ensures |s| == LENGTH && AreDigits(s) && Number(s) == id.Value()
    ensures rounds <= 3
  {
    hide Pow62, Number, AreDigits, IsDigit, DigitOf, Encodes, Stands;
    ghost var n := id.Value();
    var num := id;
    var buf := new char[LENGTH];
    var r: uint64;
    var i := LENGTH - 1;
    rounds := 0;
    assert buf[i + 1..] == "";
    NothingWritten(n);
    while num.hi > 0 || num.lo > 0
      invariant -1 <= i <= LENGTH - 1
      invariant Stands(n, num.Value(), buf[i + 1..])
      invariant i == if rounds <= 2 then LENGTH - 1 - 10 * rounds else -1
      invariant rounds <= 3
      decreases num.Value()
    {
      if i == -1 {
        FullMeansDone(n, num.Value(), buf[0..]);
      }
      ghost var before := num.Value();
      num, r := QuoRem64(num, DIVISOR);
      RoundBegins(n, before, num.Value(), r, buf[i + 1..]);
      i := WriteDigits(buf, i, num.Value(), r, n);
      rounds := rounds + 1;
    }
    while i >= 0
      invariant -1 <= i <= LENGTH - 1
      invariant Stands(n, 0, buf[i + 1..])
    {
      ghost var written := buf[i + 1..];
      LeadingZero(n, written);
      buf[i] := ALPHABET[0];
      assert buf[i..] == [ALPHABET[0]] + written;
      i := i - 1;
    }
    assert buf[..] == buf[0..];
    AllWritten(n, buf[0..]);
    s := buf[..];
  }

  lemma FullMeansDone(n: nat, num: nat, digits: string)
    requires Stands(n, num, digits) && |digits| == LENGTH && n < TWO_64 * TWO_64
    ensures num == 0
  {
    hide Pow62, Number, AreDigits;
    NothingLeft(num, digits, n);
  }

  lemma AllWritten(n: nat, digits: string)
    requires Stands(n, 0, digits)
    ensures AreDigits(digits) && Number(digits) == n
  {
    hide Pow62, Number, AreDigits;
  }
}
