/** `Display for Time`: a fixed-width text that sorts as the instants do and can be read back. */
module Timestamp {
  import opened RustInt
  import opened Calendar
  import opened UtcTime

  function Digit(n: int): char
    requires 0 <= n < 10
  {
    '0' + n as char
  }

  /** The decimal digits of `n`, without padding. */
  function Decimal(n: nat): string {
    if n < 10 then [Digit(n)] else Decimal(n / 10) + [Digit(n % 10)]
  }

  function Zeros(k: nat): string {
    if k == 0 then "" else Zeros(k - 1) + "0"
  }

  /** The format `{:0w}`: zeros fill up to `w` characters, after the sign. */
  function Padded(n: int, w: nat): string {
    var sign := if n < 0 then "-" else "";
    var digits := Decimal(if n < 0 then -n else n);
    sign + (if |sign| + |digits| < w then Zeros(w - |sign| - |digits|) + digits else digits)
  }

  /** The width of each field of the format string, with the character after the field. */
  const FORMAT: seq<(nat, char)> := [(4, '-'), (2, '-'), (2, 'T'), (2, ':'), (2, ':'), (2, '.'), (6, 'Z')]

  /** The fields of a time in the order of the format string; subseconds are cut to microseconds. */
  function Fields(t: Time): seq<int> {
    [t.year, t.month, t.mday, t.hour, t.minute, t.second, t.nanos / 1000]
  }

  /** The text of the fields from the `k`-th on. */
  function Render(v: seq<int>, k: nat): string
    requires |v| == |FORMAT| && k <= |v|
    decreases |v| - k
  {
    if k == |v| then "" else Padded(v[k], FORMAT[k].0) + ([FORMAT[k].1] + Render(v, k + 1))
  }

  function Display(t: Time): string {
    Render(Fields(t), 0)
  }

  /** Microseconds from the epoch, rounded down. */
  function Micros(t: Time): int
    requires t.Valid()
  {
    Seconds(t) * 1_000_000 + t.nanos / 1000
  }

  function Pow10(w: nat): nat {
    if w == 0 then 1 else 10 * Pow10(w - 1)
  }

  /** The last `w` decimal digits of `n`. */
  function Fixed(n: nat, w: nat): (s: string)
    ensures |s| == w
  {
    if w == 0 then "" else Fixed(n / 10, w - 1) + [Digit(n % 10)]
  }

  lemma {:induction false} ZerosAreFixed(w: nat)
    ensures Fixed(0, w) == Zeros(w)
  {
    if w == 0 {
    } else {
      ZerosAreFixed(w - 1);
    }
  }

  lemma {:induction false} PaddedIsFixed(n: nat, w: nat)
    requires w > 0 && n < Pow10(w)
    ensures Padded(n, w) == Fixed(n, w)
  {
    if n < 10 {
      ZerosAreFixed(w - 1);
      assert Fixed(n, w) == Fixed(0, w - 1) + [Digit(n)];
    } else {
      assert w > 1 by { assert Pow10(1) == 10; }
      PaddedIsFixed(n / 10, w - 1);
      var digits := Decimal(n / 10);
      assert Decimal(n) == digits + [Digit(n % 10)];
      if |digits| < w - 1 {
        assert Zeros(w - 1 - |digits|) + (digits + [Digit(n % 10)])
            == Zeros(w - 1 - |digits|) + digits + [Digit(n % 10)];
      }
    }
  }

  /** Lexicographic order on texts. */
  predicate Precedes(a: string, b: string) {
    b != "" && (a == "" || a[0] < b[0] || (a[0] == b[0] && Precedes(a[1..], b[1..])))
  }

  lemma {:induction false} PrecedesConcat(a: string, b: string, x: string, y: string)
    requires |a| == |b|
    ensures Precedes(a + x, b + y) <==> Precedes(a, b) || (a == b && Precedes(x, y))
  {
    if a == "" {
      assert a + x == x && b + y == y;
    } else {
      PrecedesConcat(a[1..], b[1..], x, y);
      assert (a + x)[1..] == a[1..] + x && (b + y)[1..] == b[1..] + y;
      assert a == [a[0]] + a[1..] && b == [b[0]] + b[1..];
    }
  }

  lemma {:induction false} FixedOrders(m: nat, n: nat, w: nat)
    requires m < Pow10(w) && n < Pow10(w)
    ensures Precedes(Fixed(m, w), Fixed(n, w)) <==> m < n
    ensures Fixed(m, w) == Fixed(n, w) <==> m == n
  {
    if w == 0 {
    } else {
      FixedOrders(m / 10, n / 10, w - 1);
      var a, b := Fixed(m / 10, w - 1), Fixed(n / 10, w - 1);
      var x, y := [Digit(m % 10)], [Digit(n % 10)];
      PrecedesConcat(a, b, x, y);
      assert Precedes(x, y) <==> x[0] < y[0] by { assert x[1..] == "" && y[1..] == ""; }
      assert a + x == b + y <==> a == b && x == y by {
        assert (a + x)[..w - 1] == a && (b + y)[..w - 1] == b;
        assert (a + x)[w - 1..] == x && (b + y)[w - 1..] == y;
      }
    }
  }

  lemma {:induction false} PrecedesIrreflexive(a: string)
    ensures !Precedes(a, a)
  {
    if a == "" {
    } else {
      PrecedesIrreflexive(a[1..]);
    }
  }

  predicate FieldFits(v: seq<int>, i: nat)
    requires i < |v| == |FORMAT|
  {
    0 <= v[i] < Pow10(FORMAT[i].0)
  }

  /** Every field from the `k`-th on fits its width. */
  predicate Fits(v: seq<int>, k: nat) {
    |v| == |FORMAT| && forall i :: k <= i < |v| ==> FieldFits(v, i)
  }

  /** Lexicographic order on the fields from the `k`-th on. */
  predicate Less(v: seq<int>, u: seq<int>, k: nat)
    requires |v| == |u|
    decreases |v| - k
  {
    k < |v| && (v[k] < u[k] || (v[k] == u[k] && Less(v, u, k + 1)))
  }

  /** The length of the text from the `k`-th field on. */
  function Width(k: nat): nat
    requires k <= |FORMAT|
    decreases |FORMAT| - k
  {
    if k == |FORMAT| then 0 else FORMAT[k].0 + 1 + Width(k + 1)
  }

  lemma {:induction false} RenderOrders(v: seq<int>, u: seq<int>, k: nat)
    requires k <= |FORMAT| && Fits(v, k) && Fits(u, k)
    ensures |Render(v, k)| == |Render(u, k)| == Width(k)
    ensures Precedes(Render(v, k), Render(u, k)) <==> Less(v, u, k)
    decreases |FORMAT| - k
  {
    if k == |FORMAT| {
    } else {
      RenderOrders(v, u, k + 1);
      var (w, sep) := FORMAT[k];
      assert FieldFits(v, k) && FieldFits(u, k) && w > 0;
      FieldOrders(v[k], u[k], w, sep, Render(v, k + 1), Render(u, k + 1));
    }
  }

  /** A padded field and its separator, in front of what follows. */
  lemma FieldOrders(m: nat, n: nat, w: nat, sep: char, x: string, y: string)
    requires w > 0 && m < Pow10(w) && n < Pow10(w)
    ensures |Padded(m, w) + ([sep] + x)| == w + 1 + |x| && |Padded(n, w) + ([sep] + y)| == w + 1 + |y|
    ensures Precedes(Padded(m, w) + ([sep] + x), Padded(n, w) + ([sep] + y)) <==> m < n || (m == n && Precedes(x, y))
  {
    PaddedIsFixed(m, w);
    PaddedIsFixed(n, w);
    FixedOrders(m, n, w);
    PrecedesConcat(Fixed(m, w), Fixed(n, w), [sep] + x, [sep] + y);
    PrecedesConcat([sep], [sep], x, y);
    PrecedesIrreflexive([sep]);
  }

  predicate FourDigitYear(t: Time) {
    0 <= t.year < 10000
  }

  lemma FieldsFit(t: Time)
    requires t.Valid() && FourDigitYear(t)
    ensures Fits(Fields(t), 0)
  {
    assert Pow10(1) == 10 && Pow10(2) == 100;
    assert Pow10(3) == 1000 && Pow10(4) == 10000;
    assert Pow10(5) == 100000 && Pow10(6) == 1000000;
  }

  /** In the years 0000 to 9999 the text has 27 characters and sorts as the instants do, down to
      the microsecond. */
  lemma TextOrdersInstants(a: Time, b: Time)
    requires a.Valid() && b.Valid() && FourDigitYear(a) && FourDigitYear(b)
    ensures |Display(a)| == |Display(b)| == 27
    ensures Precedes(Display(a), Display(b)) <==> Micros(a) < Micros(b)
  {
    FieldsFit(a);
    FieldsFit(b);
    RenderOrders(Fields(a), Fields(b), 0);
    assert Width(5) == 10 && Width(3) == 16 && Width(1) == 22;
    FieldsLessIsEarlier(a, b);
    MicrosInNanos(a);
    MicrosInNanos(b);
    FieldsOrderInstants(a.(nanos := a.nanos / 1000 * 1000), b.(nanos := b.nanos / 1000 * 1000));
  }

  lemma FieldsLessIsEarlier(a: Time, b: Time)
    ensures Less(Fields(a), Fields(b), 0)
       <==> EarlierTime(a.(nanos := a.nanos / 1000 * 1000), b.(nanos := b.nanos / 1000 * 1000))
  {
    var v, u := Fields(a), Fields(b);
    assert Less(v, u, 6) <==> v[6] < u[6];
    assert Less(v, u, 5) <==> v[5] < u[5] || (v[5] == u[5] && Less(v, u, 6));
    assert Less(v, u, 4) <==> v[4] < u[4] || (v[4] == u[4] && Less(v, u, 5));
    assert Less(v, u, 3) <==> v[3] < u[3] || (v[3] == u[3] && Less(v, u, 4));
    assert Less(v, u, 2) <==> v[2] < u[2] || (v[2] == u[2] && Less(v, u, 3));
    assert Less(v, u, 1) <==> v[1] < u[1] || (v[1] == u[1] && Less(v, u, 2));
  }

  lemma MicrosInNanos(t: Time)
    requires t.Valid()
    ensures var t' := t.(nanos := t.nanos / 1000 * 1000); t'.Valid() && Nanoseconds(t') == 1000 * Micros(t)
  {
    var t' := t.(nanos := t.nanos / 1000 * 1000);
    assert t'.Date() == t.Date() && t'.SecondOfDay() == t.SecondOfDay();
  }

  // Reading the text back.

  predicate IsDigit(c: char) { '0' <= c <= '9' }

  function Value(s: string): int {
    if s == "" then 0 else 10 * Value(s[..|s| - 1]) + (s[|s| - 1] as int - '0' as int)
  }

  /** Reads `w` digits and the separator after them. */
  function Field(s: string, w: nat, sep: char): Option<(int, string)> {
    if |s| > w && (forall i :: 0 <= i < w ==> IsDigit(s[i])) && s[w] == sep
    then Some((Value(s[..w]), s[w + 1..])) else None
  }

  /** The numbers of a text of the form 0000-00-00T00:00:00.000000Z. */
  function ReadText(s: string): (r: Option<seq<int>>)
    ensures r.Some? ==> |r.value| == 7
  {
    var (year, s1) :- Field(s, 4, '-');
    var (month, s2) :- Field(s1, 2, '-');
    var (mday, s3) :- Field(s2, 2, 'T');
    var (hour, s4) :- Field(s3, 2, ':');
    var (minute, s5) :- Field(s4, 2, ':');
    var (second, s6) :- Field(s5, 2, '.');
    var (micros, s7) :- Field(s6, 6, 'Z');
    if s7 == "" then Some([year, month, mday, hour, minute, second, micros]) else None
  }

  /** Such a text has its punctuation in the places of RFC 3339, and digits in all others. */
  lemma ReadTextIsPunctuated(s: string)
    requires ReadText(s).Some?
    ensures |s| == 27 && s[4] == '-' && s[7] == '-' && s[10] == 'T' && s[13] == ':' && s[16] == ':'
    ensures s[19] == '.' && s[26] == 'Z'
  {
    var s1 := s[5..];
    var s2 := s1[3..];
    var s3 := s2[3..];
    var s4 := s3[3..];
    var s5 := s4[3..];
    var s6 := s5[3..];
    assert s1[2] == s[7] && s2[2] == s[10] && s3[2] == s[13] && s4[2] == s[16] && s5[2] == s[19] && s6[6] == s[26];
  }

  lemma {:induction false} FixedReadsBack(n: nat, w: nat)
    requires n < Pow10(w)
    ensures Value(Fixed(n, w)) == n
    ensures forall i :: 0 <= i < w ==> IsDigit(Fixed(n, w)[i])
  {
    if w == 0 {
    } else {
      FixedReadsBack(n / 10, w - 1);
      OneMoreDigit(Fixed(n / 10, w - 1), n % 10);
    }
  }

  lemma OneMoreDigit(s: string, n: int)
    requires 0 <= n < 10 && forall i :: 0 <= i < |s| ==> IsDigit(s[i])
    ensures var more := s + [Digit(n)];
      Value(more) == 10 * Value(s) + n && forall i :: 0 <= i < |more| ==> IsDigit(more[i])
  {
    assert (s + [Digit(n)])[..|s|] == s;
  }

  lemma FieldReadsBack(n: nat, w: nat, sep: char, rest: string)
    requires w > 0 && n < Pow10(w)
    ensures Field(Padded(n, w) + ([sep] + rest), w, sep) == Some((n, rest))
  {
    PaddedIsFixed(n, w);
    FixedReadsBack(n, w);
    var f := Fixed(n, w);
    var s := f + ([sep] + rest);
    assert s[..w] == f && s[w] == sep && s[w + 1..] == rest;
    forall i | 0 <= i < w ensures IsDigit(s[i]) {
      assert s[i] == f[i];
    }
  }

  /** Each of the texts begins with a field and its separator, and the next one follows. */
  predicate FieldByField(s: seq<string>, v: seq<int>) {
    && |v| == |FORMAT| && |s| == |v| + 1
    && forall k :: 0 <= k < |v| ==> Field(s[k], FORMAT[k].0, FORMAT[k].1) == Some((v[k], s[k + 1]))
  }

  /** The text of the fields from each of them on. */
  function Suffixes(v: seq<int>): seq<string>
    requires |v| == |FORMAT|
  {
    seq(|v| + 1, k requires 0 <= k <= |v| => Render(v, k))
  }

  lemma SuffixesAreFields(v: seq<int>)
    requires Fits(v, 0)
    ensures FieldByField(Suffixes(v), v)
  {
    var s := Suffixes(v);
    forall k | 0 <= k < |v| ensures Field(s[k], FORMAT[k].0, FORMAT[k].1) == Some((v[k], s[k + 1])) {
      assert FieldFits(v, k) && FORMAT[k].0 > 0;
      FieldReadsBack(v[k], FORMAT[k].0, FORMAT[k].1, s[k + 1]);
    }
  }

  lemma FieldsAreRead(s: seq<string>, v: seq<int>)
    requires FieldByField(s, v) && s[7] == ""
    ensures ReadText(s[0]) == Some(v)
  {
    assert Field(s[0], 4, '-') == Some((v[0], s[1])) && Field(s[1], 2, '-') == Some((v[1], s[2]));
    assert Field(s[2], 2, 'T') == Some((v[2], s[3])) && Field(s[3], 2, ':') == Some((v[3], s[4]));
    assert Field(s[4], 2, ':') == Some((v[4], s[5])) && Field(s[5], 2, '.') == Some((v[5], s[6]));
    assert Field(s[6], 6, 'Z') == Some((v[6], s[7]));
    assert v == [v[0], v[1], v[2], v[3], v[4], v[5], v[6]];
  }

  lemma RenderReadsBack(v: seq<int>)
    requires Fits(v, 0)
    ensures ReadText(Render(v, 0)) == Some(v)
  {
    SuffixesAreFields(v);
    FieldsAreRead(Suffixes(v), v);
  }

  lemma {:induction false} DecimalMeans(n: nat)
    ensures var s := Decimal(n);
      && s != "" && Value(s) == n && (forall i :: 0 <= i < |s| ==> IsDigit(s[i]))
      && (n > 0 ==> s[0] != '0') && (n < 10 ==> |s| == 1)
  {
    if n < 10 {
      assert Value([]) == 0;
    } else {
      DecimalMeans(n / 10);
      assert Decimal(n)[..|Decimal(n)| - 1] == Decimal(n / 10);
    }
  }

  lemma {:induction false} ZerosInFront(k: nat, s: string)
    ensures Value(Zeros(k) + s) == Value(s) && |Zeros(k)| == k && forall i :: 0 <= i < k ==> Zeros(k)[i] == '0'
    decreases |s|, k
  {
    if s != "" {
      ZerosInFront(k, s[..|s| - 1]);
      assert (Zeros(k) + s)[..k + |s| - 1] == Zeros(k) + s[..|s| - 1];
    } else if k > 0 {
      ZerosInFront(k - 1, s);
      assert Zeros(k - 1) + s == Zeros(k - 1) && Zeros(k) + s == Zeros(k);
      assert Zeros(k)[..k - 1] == Zeros(k - 1);
    }
  }

  lemma FilledNumber(m: nat, fill: nat, digits: string)
    requires digits == Zeros(fill) + Decimal(m)
    ensures |digits| == fill + |Decimal(m)| > fill && Value(digits) == m && (m == 0 ==> |Decimal(m)| == 1)
    ensures forall i :: 0 <= i < |digits| ==> IsDigit(digits[i])
    ensures fill == 0 && m > 0 ==> digits[0] != '0'
  {
    DecimalMeans(m);
    ZerosInFront(fill, Decimal(m));
  }

  /** The text is a minus for a negative number, then digits that stand for its absolute value. */
  predicate ShowsNumber(s: string, n: int) {
    var k := if n < 0 then 1 else 0;
    && |s| > k && (n < 0 ==> s[0] == '-') && (forall i :: k <= i < |s| ==> IsDigit(s[i]))
    && Value(s[k..]) == if n < 0 then -n else n
  }

  lemma SignedDigits(s: string, n: int, sign: string, digits: string)
    requires s == sign + digits && sign == (if n < 0 then "-" else "")
    requires digits != "" && Value(digits) == if n < 0 then -n else n
    requires forall i :: 0 <= i < |digits| ==> IsDigit(digits[i])
    ensures ShowsNumber(s, n) && |s| == |sign| + |digits| && s[if n < 0 then 1 else 0] == digits[0]
  {
    var k := |sign|;
    assert s[k..] == digits;
    forall i | k <= i < |s| ensures IsDigit(s[i]) {
      assert s[i] == digits[i - k];
    }
  }

  /** What fills up to `w` characters. */
  function Fill(n: int, w: nat): nat {
    var used := |Decimal(if n < 0 then -n else n)| + if n < 0 then 1 else 0;
    if used < w then w - used else 0
  }

  lemma PaddedIsFilled(n: int, w: nat)
    ensures var digits := Zeros(Fill(n, w)) + Decimal(if n < 0 then -n else n);
      Padded(n, w) == (if n < 0 then "-" else "") + digits
  {
    var digits := Decimal(if n < 0 then -n else n);
    assert Fill(n, w) == 0 ==> Zeros(Fill(n, w)) + digits == digits;
  }

  /** `{:0w}` of any number: its text has at least `w` characters and no leading zero beyond that. */
  lemma PaddedMeans(n: int, w: nat)
    requires w > 0
    ensures ShowsNumber(Padded(n, w), n) && |Padded(n, w)| >= w
    ensures |Padded(n, w)| > w ==> n != 0 && Padded(n, w)[if n < 0 then 1 else 0] != '0'
  {
    var m, sign := if n < 0 then -n else n, if n < 0 then "-" else "";
    var digits := Zeros(Fill(n, w)) + Decimal(m);
    PaddedIsFilled(n, w);
    FilledNumber(m, Fill(n, w), digits);
    SignedDigits(Padded(n, w), n, sign, digits);
  }

  lemma {:induction false} DecimalDigits(n: nat, w: nat)
    ensures Decimal(n) != "" && forall i :: 0 <= i < |Decimal(n)| ==> IsDigit(Decimal(n)[i])
    ensures n >= Pow10(w) ==> |Decimal(n)| > w
    decreases n
  {
    if n < 10 {
      Pow10AtLeastTen(w);
    } else {
      DecimalDigits(n / 10, if w > 0 then w - 1 else 0);
    }
  }

  lemma Pow10AtLeastTen(w: nat)
    ensures Pow10(w) >= 1 && (w > 0 ==> Pow10(w) >= 10)
  {
  }

  /** A year that does not fit its four digits has a minus or a fifth digit where none can be read. */
  lemma YearMustFit(v: seq<int>)
    requires |v| == |FORMAT| && !(0 <= v[0] < 10000)
    ensures ReadText(Render(v, 0)) == None
  {
    var year := Padded(v[0], 4);
    var text := Render(v, 0);
    assert text == year + (['-'] + Render(v, 1));
    if v[0] < 0 {
      assert text[0] == '-';
    } else {
      assert Pow10(2) == 100 && Pow10(4) == 10000;
      DecimalDigits(v[0], 4);
      assert year == Decimal(v[0]);
      assert IsDigit(year[4]) && text[4] == year[4];
    }
    assert Field(text, 4, '-') == None;
  }

  /** A printed time reads back, and to its own fields, exactly if its year has four digits. */
  lemma TextReadsBack(t: Time)
    requires t.Valid()
    ensures ReadText(Display(t)) == if FourDigitYear(t) then Some(Fields(t)) else None
  {
    if FourDigitYear(t) {
      FieldsFit(t);
      RenderReadsBack(Fields(t));
    } else {
      YearMustFit(Fields(t));
    }
  }

  /** So in the years 0000 to 9999 its punctuation is that of RFC 3339. */
  lemma TextIsPunctuated(t: Time)
    requires t.Valid() && FourDigitYear(t)
    ensures var s := Display(t);
      && |s| == 27 && s[4] == '-' && s[7] == '-' && s[10] == 'T' && s[13] == ':' && s[16] == ':'
      && s[19] == '.' && s[26] == 'Z'
  {
    TextReadsBack(t);
    ReadTextIsPunctuated(Display(t));
  }

  /** Fields in RFC 3339's numbering, whose months run from 01 to 12. */
  predicate DenotesTime(v: seq<int>)
    requires |v| == 7
  {
    Date(v[0], v[1] - 1, v[2]).Valid() && 0 <= v[3] < 24 && 0 <= v[4] < 60 && 0 <= v[5] < 60
  }

  /** The second that they denote. */
  function TimeOf(v: seq<int>): (t: Time)
    requires |v| == 7 && DenotesTime(v)
    ensures t.Valid()
  {
    Time(v[0], v[1] - 1, v[2], v[3], v[4], v[5], 0)
  }

  /** The instant that they denote, in microseconds from the epoch. */
  function InstantOf(v: seq<int>): Option<int>
    requires |v| == 7
  {
    if DenotesTime(v) then Some(Seconds(TimeOf(v)) * 1_000_000 + v[6]) else None
  }

  /** The instant an RFC 3339 reader takes the text for. */
  function Rfc3339(s: string): Option<int> {
    var v :- ReadText(s);
    InstantOf(v)
  }

  /** The printed month is zero-based, so no printed time reads as its own instant under RFC 3339... */
  lemma MonthIsOneShort(t: Time)
    requires t.Valid()
    ensures Rfc3339(Display(t)) != Some(Micros(t))
  {
    TextReadsBack(t);
    var v := Fields(t);
    if FourDigitYear(t) && DenotesTime(v) {
      DayNumberOrdersDates(TimeOf(v).Date(), t.Date());
      assert Seconds(TimeOf(v)) < Seconds(t);
    }
  }

  /** ...while printing the month plus one would do, exactly in the years that have four digits. */
  lemma MonthPlusOneWouldRead(t: Time)
    requires t.Valid()
    ensures Rfc3339(Display(t.(month := t.month + 1))) == Some(Micros(t)) <==> FourDigitYear(t)
  {
    MonthPlusOneReads(t);
    MonthPlusOneDenotes(t);
  }

  lemma MonthPlusOneDenotes(t: Time)
    requires t.Valid()
    ensures InstantOf(Fields(t.(month := t.month + 1))) == Some(Micros(t))
  {
    var v := Fields(t.(month := t.month + 1));
    assert TimeOf(v) == t.(nanos := 0);
    assert Seconds(TimeOf(v)) == Seconds(t);
  }

  lemma MonthPlusOneReads(t: Time)
    requires t.Valid()
    ensures var v := Fields(t.(month := t.month + 1));
      ReadText(Display(t.(month := t.month + 1))) == if FourDigitYear(t) then Some(v) else None
  {
    var v := Fields(t.(month := t.month + 1));
    if FourDigitYear(t) {
      MonthPlusOneFits(t);
      RenderReadsBack(v);
    } else {
      YearMustFit(v);
    }
  }

  lemma MonthPlusOneFits(t: Time)
    requires t.Valid() && FourDigitYear(t)
    ensures Fits(Fields(t.(month := t.month + 1)), 0)
  {
    var v := Fields(t.(month := t.month + 1));
    FieldsFit(t);
    assert v == Fields(t)[1 := t.month + 1];
    assert Pow10(2) == 100 by { assert Pow10(1) == 10; }
    forall i | 0 <= i < |v| ensures FieldFits(v, i) {
      assert FieldFits(Fields(t), i);
    }
  }
}
