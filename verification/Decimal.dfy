/**
 Integer formatting: `convert` writes digits from the least significant end, using a table
 that is symmetric about zero so that C's negative remainders need no special case, and then
 reverses them in place. `formatInteger` calls it only with room to spare.
 */
module DecimalFormat {
  import opened Basics

  // Any of the integer types up to 64 bits.
  predicate Integer64(v: int) {
    -0x8000_0000_0000_0000 <= v < 0x1_0000_0000_0000_0000
  }

  // C's division truncates toward zero and the remainder takes the sign of the dividend.
  function CDiv(a: int, b: int): int
    requires 0 < b
  {
    if 0 <= a then a / b else -((-a) / b)
  }

  function CMod(a: int, b: int): int
    requires 0 < b
  {
    if 0 <= a then a % b else -((-a) % b)
  }

  function Abs(v: int): nat {
    if v < 0 then -v else v
  }

  const DIGITS: string := "9876543210123456789"

  function DigitChar(d: nat): char
    requires d < 10
  {
    '0' + d as char
  }

  function DigitValue(c: char): nat {
    if '0' <= c <= '9' then (c - '0') as nat else 0
  }

  // ---------------------------------------------------------------- decimal notation

  function Digits(n: nat): string {
    if n == 0 then "" else Digits(n / 10) + [DigitChar(n % 10)]
  }

  function Decimal(v: int): string {
    (if v < 0 then "-" else "") + if v == 0 then "0" else Digits(Abs(v))
  }

  function ReadDigits(s: string): nat {
    if s == "" then 0 else 10 * ReadDigits(s[..|s| - 1]) + DigitValue(s[|s| - 1])
  }

  function ReadDecimal(s: string): int {
    if s != "" && s[0] == '-' then -(ReadDigits(s[1..]) as int) else ReadDigits(s)
  }

  lemma {:induction false} DigitsRoundTrip(n: nat)
    ensures ReadDigits(Digits(n)) == n
    ensures forall k :: 0 <= k < |Digits(n)| ==> '0' <= Digits(n)[k] <= '9'
  {
    if n != 0 {
      DigitsRoundTrip(n / 10);
      var s := Digits(n);
      assert s[..|s| - 1] == Digits(n / 10);
    }
  }

  // Reading back what was written, for every value.
  lemma DecimalRoundTrip(v: int)
    ensures ReadDecimal(Decimal(v)) == v
  {
    if v == 0 {
      assert Decimal(v) == "0";
      assert ReadDigits("0") == 10 * ReadDigits("") + 0;
    } else {
      DigitsRoundTrip(Abs(v));
      if v < 0 {
        assert Decimal(v)[1..] == Digits(Abs(v));
      } else {
        assert Decimal(v) == Digits(v);
      }
    }
  }

  // The one notation of a number: a sign only before a negative one, and no zero in front.
  predicate AllDigits(s: string) {
    forall k :: 0 <= k < |s| ==> '0' <= s[k] <= '9'
  }

  predicate Positive(s: string) {
    s != "" && s[0] != '0' && AllDigits(s)
  }

  predicate Canonical(s: string) {
    s == "0" || Positive(s) || (s != "" && s[0] == '-' && Positive(s[1..]))
  }

  lemma {:induction false} DigitsArePositive(n: nat)
    requires 0 < n
    ensures Positive(Digits(n))
  {
    DigitsRoundTrip(n);
    if 10 <= n {
      DigitsArePositive(n / 10);
    } else {
      assert Digits(n / 10) == "";
    }
  }

  lemma {:induction false} PositiveIsDigits(s: string)
    requires Positive(s)
    ensures 0 < ReadDigits(s) && s == Digits(ReadDigits(s))
    decreases |s|
  {
    var n := |s| - 1;
    var init, c := s[..n], s[n];
    assert s == init + [c];
    if init != "" {
      assert init[0] == s[0] && Positive(init);
      PositiveIsDigits(init);
    }
    AppendDigit(init, c);
  }

  lemma {:induction false} AppendDigit(init: string, c: char)
    requires '0' <= c <= '9' && init == Digits(ReadDigits(init)) && (init == "" ==> c != '0')
    ensures 0 < ReadDigits(init + [c]) && init + [c] == Digits(ReadDigits(init + [c]))
  {
    var m, d := ReadDigits(init), DigitValue(c);
    ReadOneMore(init, c);
    CharOfDigit(c);
    if m == 0 { assert init == ""; }
    NextDigits(m, d);
  }

  lemma {:induction false} ReadOneMore(init: string, c: char)
    ensures ReadDigits(init + [c]) == 10 * ReadDigits(init) + DigitValue(c)
  {
    assert (init + [c])[..|init|] == init;
  }

  lemma CharOfDigit(c: char)
    requires '0' <= c <= '9'
    ensures DigitValue(c) < 10 && DigitChar(DigitValue(c)) == c && (c != '0' ==> 0 < DigitValue(c))
  {
  }

  lemma NextDigits(m: nat, d: nat)
    requires d < 10 && (0 < m || 0 < d)
    ensures Digits(10 * m + d) == Digits(m) + [DigitChar(d)]
  {
    LastDigit(m, d);
  }

  lemma LastDigit(m: nat, d: nat)
    requires d < 10
    ensures (10 * m + d) / 10 == m && (10 * m + d) % 10 == d
  {
  }

  // What is written is canonical, and it is the only canonical notation of its value.
  lemma DecimalIsTheNotation(v: int, s: string)
    ensures Canonical(Decimal(v))
    ensures Canonical(s) && ReadDecimal(s) == v ==> s == Decimal(v)
  {
    if v != 0 {
      DigitsArePositive(Abs(v));
      if v < 0 { assert Decimal(v)[1..] == Digits(Abs(v)); } else { assert Decimal(v) == Digits(v); }
    }
    if Canonical(s) && ReadDecimal(s) == v {
      NotationIs(s);
    }
  }

  lemma NotationIs(s: string)
    requires Canonical(s)
    ensures s == Decimal(ReadDecimal(s))
  {
    if s == "0" {
      ReadOneMore("", '0');
      assert "" + ['0'] == s;
    } else if s[0] == '-' {
      NegativeIs(s[1..]);
      assert s == "-" + s[1..];
    } else {
      PositiveIsDigits(s);
      Signed(ReadDigits(s));
    }
  }

  lemma NegativeIs(s: string)
    requires Positive(s)
    ensures "-" + s == Decimal(-(ReadDigits(s) as int))
  {
    PositiveIsDigits(s);
    Signed(ReadDigits(s));
  }

  lemma Signed(n: int)
    requires 0 < n
    ensures Decimal(n) == Digits(n) && Decimal(-n) == "-" + Digits(n)
  {
    assert "" + Digits(n) == Digits(n);
  }

  function Pow10(k: nat): nat {
    if k == 0 then 1 else 10 * Pow10(k - 1)
  }

  lemma {:induction false} DigitsLength(n: nat, k: nat)
    requires n < Pow10(k)
    ensures |Digits(n)| <= k
    decreases k
  {
    if n != 0 {
      DigitsLength(n / 10, k - 1);
    }
  }

  lemma Pow10Values()
    ensures Pow10(19) == 10_000_000_000_000_000_000 && Pow10(20) == 100_000_000_000_000_000_000
  {
    assert Pow10(6) == 1_000_000;
    assert Pow10(12) == 1_000_000_000_000;
    assert Pow10(18) == 1_000_000_000_000_000_000;
  }

  lemma DecimalLength(v: int)
    requires Integer64(v)
    ensures 1 <= |Decimal(v)| <= 20
  {
    Pow10Values();
    if v < 0 {
      DigitsLength(Abs(v), 19);
    } else {
      DigitsLength(v, 20);
    }
    if v != 0 {
      assert Digits(Abs(v)) != "";
    }
  }

  // ---------------------------------------------------------------- the code

  function Reversed(s: string): (r: string)
    ensures |r| == |s| && forall i :: 0 <= i < |s| ==> r[i] == s[|s| - 1 - i]
  {
    seq(|s|, i requires 0 <= i < |s| => s[|s| - 1 - i])
  }

  lemma ReversedAppend(s: string, c: char)
    ensures Reversed(s + [c]) == [c] + Reversed(s)
    ensures Reversed([c] + s) == Reversed(s) + [c]
  {
  }

  lemma ReversedTwice(s: string)
    ensures Reversed(Reversed(s)) == s
  {
  }

  // std::reverse(buf + lo, buf + hi)
  method Reverse(buf: array<char>, lo: nat, hi: nat)
    requires lo <= hi <= buf.Length
    modifies buf
    ensures buf[lo..hi] == Reversed(old(buf[lo..hi]))
    ensures forall i :: 0 <= i < buf.Length && !(lo <= i < hi) ==> buf[i] == old(buf[i])
  {
    var a, b := lo, hi;
    while a < b
      invariant lo <= a <= b + 1 && b <= hi && a - lo == hi - b
      invariant forall i :: lo <= i < a ==> buf[i] == old(buf[lo + hi - 1 - i]) && buf[lo + hi - 1 - i] == old(buf[i])
      invariant forall i :: a <= i < b ==> buf[i] == old(buf[i])
      invariant forall i :: 0 <= i < buf.Length && !(lo <= i < hi) ==> buf[i] == old(buf[i])
    {
      b := b - 1;
      if a < b {
        buf[a], buf[b] := buf[b], buf[a];
      }
      a := a + 1;
    }
    forall i | lo <= i < hi ensures buf[i] == old(buf[lo + hi - 1 - i]) {
      if a <= i { assert lo <= lo + hi - 1 - i < a; }
    }
  }

  // Quotient and remainder belong together, and the remainder has the sign of the dividend.
  lemma CDivision(i: int)
    ensures i == 10 * CDiv(i, 10) + CMod(i, 10) && Abs(CMod(i, 10)) < 10
    ensures (0 <= i ==> 0 <= CMod(i, 10)) && (i <= 0 ==> CMod(i, 10) <= 0)
  {
  }

  lemma TableIsSymmetric(i: int)
    ensures 0 <= 9 + CMod(i, 10) < |DIGITS|
    ensures DIGITS[9 + CMod(i, 10)] == DigitChar(Abs(i) % 10)
    ensures Abs(CDiv(i, 10)) == Abs(i) / 10
  {
  }

  function Unsigned(n: nat): string {
    if n == 0 then "0" else Digits(n)
  }

  // One more digit of the value, from the back.
  lemma NextDigit(n: nat, i: nat, done: string)
    requires i != 0 && Unsigned(n) == Digits(i) + done
    ensures Unsigned(n) == Digits(i / 10) + ([DigitChar(i % 10)] + done)
  {
  }

  // The do-while loop of convert: the digits, least significant first.
  method WriteDigits(buf: array<char>, start: nat, value: int) returns (p: nat)
    requires Integer64(value) && start + 20 <= buf.Length
    modifies buf
    ensures p == start + |Unsigned(Abs(value))| <= buf.Length
    ensures buf[start..p] == Reversed(Unsigned(Abs(value)))
    ensures forall i :: 0 <= i < buf.Length && !(start <= i < p) ==> buf[i] == old(buf[i])
  {
    ghost var n := Abs(value);
    DecimalLength(n);
    TableIsSymmetric(value);
    var i := CDiv(value, 10);
    buf[start] := DIGITS[9 + CMod(value, 10)];
    p := start + 1;
    ghost var done := [DigitChar(n % 10)];
    assert Unsigned(n) == Digits(Abs(i)) + done;
    while i != 0
      invariant start < p == start + |done|
      invariant Unsigned(n) == Digits(Abs(i)) + done && |Unsigned(n)| <= 20
      invariant p <= buf.Length && buf[start..p] == Reversed(done)
      invariant forall k :: 0 <= k < buf.Length && !(start <= k < p) ==> buf[k] == old(buf[k])
      decreases Abs(i)
    {
      TableIsSymmetric(i);
      NextDigit(n, Abs(i), done);
      ghost var before := buf[start..p];
      var lsd := CMod(i, 10);
      i := CDiv(i, 10);
      buf[p] := DIGITS[9 + lsd];
      assert buf[start..p] == before;
      assert buf[start..p + 1] == before + [buf[p]];
      ReversedAppend(done, buf[p]);
      done := [buf[p]] + done;
      p := p + 1;
    }
    assert Digits(0) + done == done;
  }

  // The digits and, behind them, the sign.
  method WriteBackwards(buf: array<char>, start: nat, value: int) returns (p: nat)
    requires Integer64(value) && start + 21 <= buf.Length
    modifies buf
    ensures start < p == start + |Decimal(value)| <= start + 20
    ensures buf[start..p] == Reversed(Decimal(value))
    ensures forall i :: 0 <= i < buf.Length && !(start <= i < p) ==> buf[i] == old(buf[i])
  {
    DecimalLength(value);
    p := WriteDigits(buf, start, value);
    if value < 0 {
      ghost var digits := buf[start..p];
      buf[p] := '-';
      assert buf[start..p + 1] == digits + ['-'];
      ReversedAppend(Unsigned(Abs(value)), '-');
      assert Decimal(value) == ['-'] + Unsigned(Abs(value));
      p := p + 1;
    } else {
      assert Decimal(value) == Unsigned(Abs(value));
    }
  }

  method Terminate(buf: array<char>, start: nat, p: nat)
    requires start <= p < buf.Length
    modifies buf
    ensures buf[p] == '\0' && buf[start..p] == old(buf[start..p])
    ensures forall i :: 0 <= i < buf.Length && i != p ==> buf[i] == old(buf[i])
  {
    buf[p] := '\0';
  }

  // What was written backwards is terminated and turned round.
  method TurnRound(buf: array<char>, start: nat, p: nat, ghost s: string)
    requires start <= p < buf.Length && buf[start..p] == Reversed(s)
    modifies buf
    ensures buf[start..p] == s && buf[p] == '\0'
    ensures forall i :: 0 <= i < buf.Length && !(start <= i <= p) ==> buf[i] == old(buf[i])
  {
    ReversedTwice(s);
    Terminate(buf, start, p);
    Reverse(buf, start, p);
  }

  // The characters are the decimal notation, then a terminator; nothing else is touched.
  method Convert(buf: array<char>, start: nat, value: int) returns (len: nat)
    requires Integer64(value) && start + 21 <= buf.Length
    modifies buf
    ensures 1 <= len <= 20 && buf[start..start + len] == Decimal(value) && buf[start + len] == '\0'
    ensures forall i :: 0 <= i < buf.Length && !(start <= i <= start + len) ==> buf[i] == old(buf[i])
  {
    var p := WriteBackwards(buf, start, value);
    TurnRound(buf, start, p, Decimal(value));
    len := p - start;
  }

  const MAX_NUMERIC_SIZE: nat := 48   // kMaxNumericSize

  lemma SplitAt(s: string, i: nat, j: nat)
    requires i <= j <= |s|
    ensures s[..j] == s[..i] + s[i..j]
  {
  }

  // The stream's buffer and its cursor.
  class Stream {
    const data: array<char>
    var cur: nat

    ghost predicate Valid()
      reads this
    {
      data.Length == BUFFER_SIZE && cur <= BUFFER_SIZE
    }

    constructor ()
      ensures Valid() && fresh(data) && cur == 0
    {
      data := new char[BUFFER_SIZE](_ => '\0');
      cur := 0;
    }

    // Appends the decimal notation, or nothing at all when fewer than 48 characters are left: the
    // cursor never leaves the buffer and what was there stays.
    method FormatInteger(v: int)
      requires Valid() && Integer64(v)
      modifies this`cur, data
      ensures Valid()
      ensures data[..cur] == old(data[..cur]) + if BUFFER_SIZE - old(cur) >= MAX_NUMERIC_SIZE then Decimal(v) else ""
    {
      if data.Length - cur >= MAX_NUMERIC_SIZE {
        ghost var before := data[..cur];
        var len := Convert(data, cur, v);
        assert data[..cur] == before;
        SplitAt(data[..], cur, cur + len);
        cur := cur + len;
      }
    }
  }
}
