// itoa and the time stamp of formatHeader (logger.go).
module LogHeaders {
  import opened Decimals

  // The accumulating byte buffer of StdLogger.
  class LogBuffer {
    var data: string

    constructor ()
      ensures data == ""
    {
      data := "";
    }

    method Append(s: string)
      modifies this
      ensures data == old(data) + s
    {
      data := data + s;
    }
  }

  // What itoa's loop keeps: the digits still to print, before those printed, make the text,
  // and the buffer places up to bp are enough for them.
  ghost predicate Printing(i: nat, wid: int, n: nat, w: int, bp: nat, printed: string) {
    n < Pow10(bp) && w <= bp + 1 && Padded(n, w) + printed == Padded(i, wid)
  }

  lemma {:induction false} PrintDigit(i: nat, wid: int, n: nat, w: int, bp: nat, printed: string)
    requires Printing(i, wid, n, w, bp, printed)
    requires n >= 10 || w > 1
    ensures n - n / 10 * 10 == n % 10
    ensures bp > 0 && Printing(i, wid, n / 10, w - 1, bp - 1, [Digit(n % 10)] + printed)
  {
    assert Pow10(bp) == if bp == 0 then 1 else 10 * Pow10(bp - 1);
    var a, d := Padded(n / 10, w - 1), [Digit(n % 10)];
    assert (a + d) + printed == a + (d + printed);
  }

  // b[bp] = byte('0' + d), where the digits after bp are those printed so far.
  method StoreDigit(b: array<char>, bp: nat, d: nat, ghost tail: string)
    requires bp < b.Length && d < 10 && b[bp + 1..] == tail
    modifies b
    ensures b[bp..] == [Digit(d)] + tail
  {
    b[bp] := ('0' as int + d) as char;
    assert b[bp..] == [b[bp]] + b[bp + 1..];
  }

  method Itoa(buf: LogBuffer, i: int, wid: int)
    requires 0 <= i < 0x8000_0000_0000_0000
    requires wid <= 20
    modifies buf
    ensures buf.data == old(buf.data) + Padded(i, wid)
  {
    var b := new char[20];
    var bp := b.Length - 1;
    var n, w := i, wid;
    MaxIntBelowPow10();
    ghost var printed := "";
    while n >= 10 || w > 1
      invariant 0 <= bp < b.Length && 0 <= n
      invariant Printing(i, wid, n, w, bp, printed)
      invariant b[bp + 1..] == printed
      decreases n, w
      modifies b
    {
      PrintDigit(i, wid, n, w, bp, printed);
      w := w - 1;
      var q := n / 10;
      StoreDigit(b, bp, n - q * 10, printed);
      printed := b[bp..];
      bp := bp - 1;
      n := q;
    }
    StoreDigit(b, bp, n, printed);
    buf.Append(b[bp..]);
  }

  // ---------- The time stamp ----------

  datatype Time = Time(year: nat, month: nat, day: nat, hour: nat, minute: nat, second: nat, nanosecond: nat) {
    // What t.Date() and t.Clock() of a Go time with a non-negative year can give.
    predicate Valid() {
      && year < 0x8000_0000_0000_0000
      && 1 <= month <= 12 && 1 <= day <= 31
      && hour < 24 && minute < 60 && second < 60 && nanosecond < 1_000_000_000
    }

    function Millisecond(): nat {
      nanosecond / 1_000_000
    }
  }

  // A number of fixed width and the character after it.
  datatype Field = Field(value: nat, width: nat, sep: char)

  function Render(fs: seq<Field>): string {
    if fs == [] then "" else Padded(fs[0].value, fs[0].width) + [fs[0].sep] + Render(fs[1..])
  }

  function FieldsOf(t: Time): seq<Field> {
    [Field(t.year, 4, '-'), Field(t.month, 2, '-'), Field(t.day, 2, ' '),
     Field(t.hour, 2, ':'), Field(t.minute, 2, ':'), Field(t.second, 2, '.'),
     Field(t.Millisecond(), 3, ' ')]
  }

  function Header(t: Time): string {
    Render(FieldsOf(t))
  }

  // One field: itoa, then the separator.
  method AppendField(buf: LogBuffer, ghost start: string, t: Time, k: nat)
    requires t.Valid() && k < 7
    requires buf.data == start + Render(FieldsOf(t)[..k])
    modifies buf
    ensures buf.data == start + Render(FieldsOf(t)[..k + 1])
  {
    var fs := FieldsOf(t);
    FieldInRange(t, k);
    Itoa(buf, fs[k].value, fs[k].width);
    buf.Append([fs[k].sep]);
    RenderAppend(fs[..k], fs[k]);
    assert fs[..k + 1] == fs[..k] + [fs[k]];
    Reassociate(start, Render(fs[..k]), Padded(fs[k].value, fs[k].width), [fs[k].sep]);
  }

  lemma {:induction false} Reassociate(a: string, b: string, c: string, d: string)
    ensures a + b + c + d == a + (b + (c + d))
  {
  }

  lemma {:induction false} FieldInRange(t: Time, k: nat)
    requires t.Valid() && k < 7
    ensures FieldsOf(t)[k].value < 0x8000_0000_0000_0000 && FieldsOf(t)[k].width <= 20
  {
  }

  method FormatHeader(buf: LogBuffer, t: Time)
    requires t.Valid()
    modifies buf
    ensures buf.data == old(buf.data) + Header(t)
  {
    ghost var start := buf.data;
    assert FieldsOf(t)[..0] == [];
    AppendField(buf, start, t, 0);
    AppendField(buf, start, t, 1);
    AppendField(buf, start, t, 2);
    AppendField(buf, start, t, 3);
    AppendField(buf, start, t, 4);
    AppendField(buf, start, t, 5);
    AppendField(buf, start, t, 6);
    assert FieldsOf(t)[..7] == FieldsOf(t);
  }

  lemma {:induction false} RenderAppend(fs: seq<Field>, f: Field)
    ensures Render(fs + [f]) == Render(fs) + (Padded(f.value, f.width) + [f.sep])
  {
    var text := Padded(f.value, f.width) + [f.sep];
    if fs == [] {
      assert [f][1..] == [];
      assert fs + [f] == [f];
      assert text + "" == text && "" + text == text;
    } else {
      RenderAppend(fs[1..], f);
      assert (fs + [f])[1..] == fs[1..] + [f];
      var head := Padded(fs[0].value, fs[0].width) + [fs[0].sep];
      assert head + (Render(fs[1..]) + text) == (head + Render(fs[1..])) + text;
    }
  }

  // ---------- Order ----------

  // Byte-wise lexicographic order.
  ghost predicate LexLess(a: string, b: string) {
    b != "" && (a == "" || a[0] < b[0] || (a[0] == b[0] && LexLess(a[1..], b[1..])))
  }

  lemma {:induction false} LexConcat(a: string, b: string, c: string, d: string)
    requires |a| == |b|
    ensures LexLess(a + c, b + d) <==> LexLess(a, b) || (a == b && LexLess(c, d))
  {
    if a == "" {
      assert a + c == c && b + d == d;
    } else {
      LexConcat(a[1..], b[1..], c, d);
      assert (a + c)[1..] == a[1..] + c && (b + d)[1..] == b[1..] + d;
      assert a == b <==> a[0] == b[0] && a[1..] == b[1..] by {
        assert a == [a[0]] + a[1..] && b == [b[0]] + b[1..];
      }
    }
  }

  // Digits of one length are ordered as the numbers they denote.
  lemma {:induction false} DigitsOrder(s: string, t: string)
    requires AllDigits(s) && AllDigits(t) && |s| == |t|
    ensures LexLess(s, t) <==> Value(s) < Value(t)
  {
    if s != "" {
      var n := |s| - 1;
      DigitsOrder(s[..n], t[..n]);
      LexConcat(s[..n], t[..n], [s[n]], [t[n]]);
      LexOne(s[n], t[n]);
      assert s == s[..n] + [s[n]] && t == t[..n] + [t[n]];
      if Value(s[..n]) == Value(t[..n]) {
        ValueInjective(s[..n], t[..n]);
      }
    }
  }

  lemma {:induction false} LexOne(a: char, b: char)
    ensures LexLess([a], [b]) <==> a < b
  {
    assert [a][1..] == "" && [b][1..] == "";
  }

  ghost predicate SameLength(f: Field, g: Field) {
    |Padded(f.value, f.width)| == |Padded(g.value, g.width)|
  }

  ghost predicate SameShape(fs: seq<Field>, gs: seq<Field>) {
    && |fs| == |gs|
    && forall i :: 0 <= i < |fs| ==>
         SameLength(fs[i], gs[i]) && fs[i].width == gs[i].width && fs[i].sep == gs[i].sep
  }

  ghost predicate TupleLess(fs: seq<Field>, gs: seq<Field>)
    requires |fs| == |gs|
  {
    fs != [] && (fs[0].value < gs[0].value || (fs[0].value == gs[0].value && TupleLess(fs[1..], gs[1..])))
  }

  lemma {:induction false} FieldOrder(f: Field, g: Field, r: string, r': string)
    requires SameLength(f, g) && f.sep == g.sep
    ensures LexLess(Padded(f.value, f.width) + [f.sep] + r, Padded(g.value, g.width) + [g.sep] + r') <==>
              f.value < g.value || (f.value == g.value && LexLess(r, r'))
  {
    var a, b := Padded(f.value, f.width), Padded(g.value, g.width);
    PaddedOrder(f, g);
    LexOne(f.sep, g.sep);
    LexConcat(a, b, [f.sep], [g.sep]);
    LexConcat(a + [f.sep], b + [g.sep], r, r');
    assert a + [f.sep] == b + [g.sep] <==> a == b by {
      assert (a + [f.sep])[..|a|] == a && (b + [g.sep])[..|b|] == b;
    }
  }

  lemma {:induction false} PaddedOrder(f: Field, g: Field)
    requires SameLength(f, g)
    ensures LexLess(Padded(f.value, f.width), Padded(g.value, g.width)) <==> f.value < g.value
    ensures Padded(f.value, f.width) == Padded(g.value, g.width) <==> f.value == g.value
  {
    PaddedValue(f.value, f.width);
    PaddedValue(g.value, g.width);
    DigitsOrder(Padded(f.value, f.width), Padded(g.value, g.width));
    if f.value == g.value {
      ValueInjective(Padded(f.value, f.width), Padded(g.value, g.width));
    }
  }

  // Texts made of fields of pairwise equal lengths are ordered as the tuples of their numbers.
  lemma {:induction false} RenderOrder(fs: seq<Field>, gs: seq<Field>)
    requires SameShape(fs, gs)
    ensures |Render(fs)| == |Render(gs)|
    ensures LexLess(Render(fs), Render(gs)) <==> TupleLess(fs, gs)
  {
    if fs != [] {
      RenderOrder(fs[1..], gs[1..]);
      FieldOrder(fs[0], gs[0], Render(fs[1..]), Render(gs[1..]));
    }
  }

  // Calendar order at millisecond precision.
  predicate Earlier(t: Time, u: Time) {
    || t.year < u.year
    || (t.year == u.year &&
        (|| t.month < u.month
         || (t.month == u.month &&
             (|| t.day < u.day
              || (t.day == u.day && EarlierInDay(t, u))))))
  }

  predicate EarlierInDay(t: Time, u: Time) {
    || t.hour < u.hour
    || (t.hour == u.hour &&
        (|| t.minute < u.minute
         || (t.minute == u.minute &&
             (|| t.second < u.second
              || (t.second == u.second && t.Millisecond() < u.Millisecond())))))
  }

  lemma {:induction false} TupleLessFrom(fs: seq<Field>, gs: seq<Field>, i: nat)
    requires |fs| == |gs| && i < |fs|
    ensures TupleLess(fs[i..], gs[i..]) <==>
              fs[i].value < gs[i].value || (fs[i].value == gs[i].value && TupleLess(fs[i + 1..], gs[i + 1..]))
  {
    assert fs[i..][1..] == fs[i + 1..] && gs[i..][1..] == gs[i + 1..];
  }

  lemma {:induction false} TupleLessInDay(t: Time, u: Time)
    ensures TupleLess(FieldsOf(t)[3..], FieldsOf(u)[3..]) <==> EarlierInDay(t, u)
  {
    var f, g := FieldsOf(t), FieldsOf(u);
    TupleLessFrom(f, g, 6);
    TupleLessFrom(f, g, 5);
    TupleLessFrom(f, g, 4);
    TupleLessFrom(f, g, 3);
  }

  lemma {:induction false} TupleLessIsEarlier(t: Time, u: Time)
    ensures TupleLess(FieldsOf(t), FieldsOf(u)) <==> Earlier(t, u)
  {
    var f, g := FieldsOf(t), FieldsOf(u);
    TupleLessInDay(t, u);
    TupleLessFrom(f, g, 2);
    TupleLessFrom(f, g, 1);
    TupleLessFrom(f, g, 0);
    assert f[0..] == f && g[0..] == g;
  }

  lemma {:induction false} Pow10Small()
    ensures Pow10(2) == 100 && Pow10(3) == 1000 && Pow10(4) == 10000
  {
  }

  // The text of a number that fits has the width asked for.
  lemma {:induction false} WidthKept(n: nat, w: nat)
    requires w >= 1 && n < Pow10(w)
    ensures |Padded(n, w)| == w
  {
    PaddedLength(n, w);
    DecimalLength(n, w);
  }

  // The number of digits of the year in a header: four, or as many as it needs.
  function YearDigits(y: nat): nat {
    |Padded(y, 4)|
  }

  // All fields but the year have a fixed length, 19 characters in all.
  lemma {:induction false} HeaderShape(t: Time)
    requires t.Valid()
    ensures |Header(t)| == YearDigits(t.year) + 20
    ensures forall i :: 1 <= i < 7 ==>
              |Padded(FieldsOf(t)[i].value, FieldsOf(t)[i].width)| == FieldsOf(t)[i].width
  {
    Pow10Small();
    var fs := FieldsOf(t);
    forall i | 1 <= i < 7 ensures |Padded(fs[i].value, fs[i].width)| == fs[i].width {
      WidthKept(fs[i].value, fs[i].width);
    }
    RestLength(fs[1..]);
  }

  // Headers of equal length are ordered byte-wise as their times, and are equal only when the
  // times agree to the millisecond.
  lemma {:induction false} EqualLengthOrder(t: Time, u: Time)
    requires t.Valid() && u.Valid() && |Header(t)| == |Header(u)|
    ensures LexLess(Header(t), Header(u)) <==> Earlier(t, u)
    ensures Header(t) == Header(u) <==> FieldsOf(t) == FieldsOf(u)
  {
    var f, g := FieldsOf(t), FieldsOf(u);
    HeaderShape(t);
    HeaderShape(u);
    forall i | 0 <= i < 7 ensures SameLength(f[i], g[i]) {
      assert i > 0 ==> f[i].width == g[i].width;
    }
    RenderOrder(f, g);
    RenderOrder(g, f);
    TupleLessIsEarlier(t, u);
    TupleLessIsEarlier(u, t);
    if Header(t) == Header(u) {
      LexIrreflexive(Header(t));
      TupleTotal(f, g);
    }
  }

  // For years up to 9999, headers are ordered byte-wise as their times, hence distinct times
  // at millisecond precision have distinct headers.
  lemma {:induction false} HeaderOrder(t: Time, u: Time)
    requires t.Valid() && u.Valid() && t.year <= 9999 && u.year <= 9999
    ensures LexLess(Header(t), Header(u)) <==> Earlier(t, u)
    ensures Header(t) == Header(u) <==> FieldsOf(t) == FieldsOf(u)
  {
    HeaderLengthIff(t);
    HeaderLengthIff(u);
    EqualLengthOrder(t, u);
  }

  // A year with fewer digits is the smaller one.
  lemma {:induction false} FewerDigitsEarlier(y: nat, z: nat)
    requires YearDigits(y) < YearDigits(z)
    ensures y < z
  {
    var a := YearDigits(y);
    PaddedLength(y, 4);
    PaddedLength(z, 4);
    DecimalLength(y, a);
    DecimalLength(z, a);
  }

  // A number before a character below the digits, against more digits: only their first ones
  // count, and on a tie the shorter text comes first.
  lemma {:induction false} ShortTextOrder(s: string, p: string, x: string, y: string)
    requires AllDigits(s) && AllDigits(p) && |s| == |p|
    requires x != "" && y != "" && x[0] < '0' && IsDigit(y[0])
    ensures LexLess(s + x, p + y) <==> Value(s) <= Value(p)
    ensures LexLess(p + y, s + x) <==> Value(p) < Value(s)
  {
    LexConcat(s, p, x, y);
    LexConcat(p, s, y, x);
    DigitsOrder(s, p);
    DigitsOrder(p, s);
    if Value(s) == Value(p) {
      ValueInjective(s, p);
    }
  }

  // When the first year has fewer digits, its header sorts first exactly when the year with
  // zeros appended to the length of the other one does not exceed it.
  lemma {:induction false} ShorterYearOrder(t: Time, u: Time)
    requires YearDigits(t.year) < YearDigits(u.year)
    ensures var c := YearDigits(u.year) - YearDigits(t.year);
            && (LexLess(Header(t), Header(u)) <==> t.year * Pow10(c) <= u.year)
            && (LexLess(Header(u), Header(t)) <==> t.year * Pow10(c) > u.year)
  {
    var s, s' := Padded(t.year, 4), Padded(u.year, 4);
    var p, q := s'[..|s|], s'[|s|..];
    assert s' == p + q;
    var x, z := ['-'] + Render(FieldsOf(t)[1..]), ['-'] + Render(FieldsOf(u)[1..]);
    HeaderText(t);
    HeaderText(u);
    Associate(p, q, z);
    ShortTextOrder(s, p, x, q + z);
    PaddedValue(t.year, 4);
    PaddedValue(u.year, 4);
    LeadingDigitsAtLeast(p, q, t.year);
  }

  lemma {:induction false} Associate(a: string, b: string, c: string)
    ensures (a + b) + c == a + (b + c)
  {
  }

  lemma {:induction false} HeaderText(t: Time)
    ensures Header(t) == Padded(t.year, 4) + (['-'] + Render(FieldsOf(t)[1..]))
  {
    Associate(Padded(t.year, 4), ['-'], Render(FieldsOf(t)[1..]));
  }

  // The years stand in the order in which their digits sort.
  predicate YearsSort(y: nat, z: nat) {
    if YearDigits(y) < YearDigits(z) then y * Pow10(YearDigits(z) - YearDigits(y)) <= z
    else if YearDigits(z) < YearDigits(y) then z * Pow10(YearDigits(y) - YearDigits(z)) <= y
    else true
  }

  // For every two valid times, byte order agrees with time order if and only if the years have
  // equally many digits, or the shorter one with zeros appended does not exceed the longer.
  lemma {:induction false} HeaderOrderIff(t: Time, u: Time)
    requires t.Valid() && u.Valid()
    ensures (LexLess(Header(t), Header(u)) <==> Earlier(t, u)) <==> YearsSort(t.year, u.year)
  {
    HeaderShape(t);
    HeaderShape(u);
    if YearDigits(t.year) < YearDigits(u.year) {
      FewerDigitsEarlier(t.year, u.year);
      ShorterYearOrder(t, u);
    } else if YearDigits(u.year) < YearDigits(t.year) {
      FewerDigitsEarlier(u.year, t.year);
      ShorterYearOrder(u, t);
    } else {
      EqualLengthOrder(t, u);
    }
  }

  lemma {:induction false} TupleTotal(fs: seq<Field>, gs: seq<Field>)
    requires SameShape(fs, gs) && !TupleLess(fs, gs) && !TupleLess(gs, fs)
    ensures fs == gs
  {
    if fs != [] {
      TupleTotal(fs[1..], gs[1..]);
      assert fs == [fs[0]] + fs[1..] && gs == [gs[0]] + gs[1..];
    }
  }

  lemma {:induction false} LexIrreflexive(a: string)
    ensures !LexLess(a, a)
  {
    if a != "" {
      LexIrreflexive(a[1..]);
    }
  }

  // The header has the fixed length 24 exactly for the years up to 9999.
  lemma {:induction false} HeaderLengthIff(t: Time)
    requires t.Valid()
    ensures |Header(t)| >= 24
    ensures |Header(t)| == 24 <==> t.year <= 9999
  {
    Pow10Small();
    HeaderShape(t);
    PaddedLength(t.year, 4);
    DecimalLength(t.year, 4);
  }

  lemma {:induction false} RestLength(fs: seq<Field>)
    requires |fs| == 6
    requires forall i :: 0 <= i < 6 ==> |Padded(fs[i].value, fs[i].width)| == if i < 5 then 2 else 3
    ensures |Render(fs)| == 19
  {
    RenderLength(fs, 5);
    RenderLength(fs, 4);
    RenderLength(fs, 3);
    RenderLength(fs, 2);
    RenderLength(fs, 1);
    RenderLength(fs, 0);
    assert fs[0..] == fs;
  }

  lemma {:induction false} RenderLength(fs: seq<Field>, i: nat)
    requires i < |fs|
    ensures |Render(fs[i..])| == |Padded(fs[i].value, fs[i].width)| + 1 + |Render(fs[i + 1..])|
  {
    assert fs[i..][1..] == fs[i + 1..];
  }

  // Beyond that the order breaks: a time in the year 10000 sorts before one in the year 9999.
  lemma {:induction false} Year10000SortsFirst(t: Time, u: Time)
    requires t.Valid() && u.Valid() && t.year == 10000 && u.year == 9999
    ensures Earlier(u, t) && LexLess(Header(t), Header(u))
  {
    YearTexts();
    assert Header(t)[0] == '1' && Header(u)[0] == '9';
  }

  lemma {:induction false} YearTexts()
    ensures Padded(10000, 4) == "10000" && Padded(9999, 4) == "9999"
  {
    assert Padded(1, 0) == "1" && Padded(10, 1) == "10" && Padded(100, 2) == "100" && Padded(1000, 3) == "1000";
    assert Padded(9, 1) == "9" && Padded(99, 2) == "99" && Padded(999, 3) == "999";
  }

  // ---------- Reading a header back ----------

  // From position i there are w digits that denote v, and then the separator.
  ghost predicate Reads(h: string, i: nat, w: nat, v: nat, sep: char) {
    i + w < |h| && AllDigits(h[i..i + w]) && Value(h[i..i + w]) == v && h[i + w] == sep
  }

  lemma {:induction false} RenderSplits(fs: seq<Field>, k: nat)
    requires k <= |fs|
    ensures Render(fs) == Render(fs[..k]) + Render(fs[k..])
    decreases k
  {
    if k == 0 {
      assert fs[0..] == fs && "" + Render(fs) == Render(fs);
    } else {
      var f, rest := fs[k - 1], fs[k..];
      RenderSplits(fs, k - 1);
      RenderAppend(fs[..k - 1], f);
      assert fs[..k] == fs[..k - 1] + [f];
      assert fs[k - 1..][1..] == rest;
      Associate(Render(fs[..k - 1]), Padded(f.value, f.width) + [f.sep], Render(rest));
    }
  }

  lemma {:induction false} ReadsInside(a: string, d: string, sep: char, b: string)
    requires AllDigits(d)
    ensures Reads(a + (d + [sep] + b), |a|, |d|, Value(d), sep)
  {
    assert (a + (d + [sep] + b))[|a|..|a| + |d|] == d;
  }

  // Field k of a text is read back where the fields before it end, and where it ends the next
  // one begins.
  lemma {:induction false} FieldReads(fs: seq<Field>, k: nat)
    requires k < |fs|
    ensures Reads(Render(fs), |Render(fs[..k])|, |Padded(fs[k].value, fs[k].width)|, fs[k].value, fs[k].sep)
    ensures |Render(fs[..k + 1])| == |Render(fs[..k])| + |Padded(fs[k].value, fs[k].width)| + 1
  {
    var d := Padded(fs[k].value, fs[k].width);
    RenderSplits(fs, k);
    assert fs[k..][1..] == fs[k + 1..];
    ReadsInside(Render(fs[..k]), d, fs[k].sep, Render(fs[k + 1..]));
    PaddedValue(fs[k].value, fs[k].width);
    RenderAppend(fs[..k], fs[k]);
    assert fs[..k + 1] == fs[..k] + [fs[k]];
  }

  // Every part of a valid time is read back from its place in the header, between the
  // separators of the format, down to the millisecond.
  lemma {:induction false} HeaderReadsBack(t: Time)
    requires t.Valid()
    ensures var h, y := Header(t), YearDigits(t.year);
            && |h| == y + 20
            && Reads(h, 0, y, t.year, '-')
            && Reads(h, y + 1, 2, t.month, '-')
            && Reads(h, y + 4, 2, t.day, ' ')
            && Reads(h, y + 7, 2, t.hour, ':')
            && Reads(h, y + 10, 2, t.minute, ':')
            && Reads(h, y + 13, 2, t.second, '.')
            && Reads(h, y + 16, 3, t.nanosecond / 1_000_000, ' ')
  {
    HeaderShape(t);
    var fs := FieldsOf(t);
    FieldReads(fs, 0);
    FieldReads(fs, 1);
    FieldReads(fs, 2);
    FieldReads(fs, 3);
    FieldReads(fs, 4);
    FieldReads(fs, 5);
    FieldReads(fs, 6);
  }
}
