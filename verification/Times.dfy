/** Time values: assembling fields into an instant, and GeneralizedTime with a fraction. */
module Times {
  import opened Types
  import opened Text
  import opened Civil

  const I64_MIN: int := -0x8000_0000_0000_0000
  const I64_MAX: int := 0x7FFF_FFFF_FFFF_FFFF

  /** The numbers that the ISO text shows, in UTC; `frac` when a fraction is printed. */
  datatype Iso = Iso(date: Date, hour: int, minute: int, second: int, frac: Option<int>)

  datatype TimeValue = TimeValue(iso: Iso, micros: int)

  datatype Clock = Clock(date: Date, hour: int, minute: int, second: int)

  /** Seconds since the epoch of a date and time of day in UTC. */
  function Instant(c: Clock): int {
    DaysFromCivil(c.date.y, c.date.m, c.date.d) * 86400 + c.hour * 3600 + c.minute * 60 + c.second
  }

  predicate IsClock(c: Clock) {
    IsDate(c.date) && 0 <= c.hour < 24 && 0 <= c.minute < 60 && 0 <= c.second < 60
  }

  function CheckedI64(x: int): Option<int> {
    if I64_MIN <= x <= I64_MAX then Some(x) else None
  }

  function Assemble(c: Clock, frac: int, offset: int): Option<TimeValue> {
    if !(1 <= c.date.m <= 12) || !(1 <= c.date.d <= 31) then None
    else if c.hour > 23 || c.minute > 59 || c.second > 60 then None
    else
      var micros :- CheckedI64((Instant(c) - offset) * 1_000_000);
      var total :- CheckedI64(micros + frac);
      Some(TimeValue(Iso(c.date, c.hour, c.minute, c.second, None), total))
  }

  function CivilFromMicros(micros: int): Clock {
    var secs := micros / 1_000_000;
    var rem := secs % 86400;
    Clock(CivilFromDays(secs / 86400), rem / 3600, rem % 3600 / 60, rem % 60)
  }

  // ---------- instants ----------

  /** The fields derived from an instant are a real date and time of day, and denote it to
      the second. */
  lemma FieldsDenoteInstant(micros: int)
    ensures IsClock(CivilFromMicros(micros))
    ensures Instant(CivilFromMicros(micros)) == micros / 1_000_000
  {
    hide CivilFromDays, DaysFromCivil, IsDate;
    DayRoundTrip(micros / 1_000_000 / 86400);
  }

  /** Deriving fields undoes taking the instant. */
  lemma FieldsOfInstant(c: Clock, frac: int)
    requires IsClock(c) && 0 <= frac < 1_000_000
    ensures CivilFromMicros(Instant(c) * 1_000_000 + frac) == c
  {
    hide CivilFromDays, DaysFromCivil, IsDate;
    var days := DaysFromCivil(c.date.y, c.date.m, c.date.d);
    var rest := c.hour * 3600 + c.minute * 60 + c.second;
    FloorUnique(Instant(c) * 1_000_000 + frac, 1_000_000, Instant(c));
    FloorUnique(Instant(c), 86400, days);
    FloorUnique(rest, 3600, c.hour);
    DateRoundTrip(c.date);
  }

  /** When the fields derived from an assembled instant are the ones it was assembled from:
      a real date, no leap second, and no offset from UTC. */
  lemma DerivedFieldsAreParsed(c: Clock, frac: int, offset: int)
    requires 0 <= c.hour && 0 <= c.minute && 0 <= c.second && 0 <= frac < 1_000_000
    requires Assemble(c, frac, offset).Some?
    ensures CivilFromMicros(Assemble(c, frac, offset).value.micros) == c
            <==> IsDate(c.date) && c.second <= 59 && offset == 0
  {
    hide CivilFromMicros, Instant, IsDate;
    var micros := Assemble(c, frac, offset).value.micros;
    FieldsDenoteInstant(micros);
    FloorUnique(micros, 1_000_000, Instant(c) - offset);
    if IsDate(c.date) && c.second <= 59 && offset == 0 {
      FieldsOfInstant(c, frac);
    }
  }

  // ---------- GeneralizedTime ----------

  /** `digits(s, start, len)`. */
  function DigitsAt(s: string, start: nat, len: nat): Option<nat> {
    if start + len <= |s| && AllDigits(s[start..start + len])
    then Some(ReadDigits(0, s[start..start + len]))
    else None
  }

  /** Minutes and seconds, each if present, and the position after them. */
  function ClockAt(s: string): (r: Option<(nat, nat, nat)>)
    requires |s| >= 10
    ensures r.Some? ==> 10 <= r.value.2 <= |s|
  {
    if |s| > 11 && IsDigit(s[10]) then
      var minute :- DigitsAt(s, 10, 2);
      if |s| > 13 && IsDigit(s[12]) then
        var second :- DigitsAt(s, 12, 2);
        Some((minute, second, 14))
      else Some((minute, 0, 12))
    else Some((0, 0, 10))
  }

  function DigitsEnd(s: string, p: nat): (e: nat)
    requires p <= |s|
    ensures p <= e <= |s|
    ensures AllDigits(s[p..e])
    decreases |s| - p
  {
    if p < |s| && IsDigit(s[p]) then
      var e := DigitsEnd(s, p + 1);
      assert s[p..e] == [s[p]] + s[p + 1..e];
      e
    else p
  }

  /** At most six fraction digits, filled up with zeros to microseconds. */
  function FillZeros(f: string): string
    decreases 6 - |f|
  {
    if |f| < 6 then FillZeros(f + "0") else f
  }

  function FractionMicros(f: string): nat {
    var filled := FillZeros(if |f| > 6 then f[..6] else f);
    if AllDigits(filled) then ReadDigits(0, filled) else 0
  }

  function FractionAt(s: string, pos: nat): (r: (nat, nat))
    requires pos <= |s|
    ensures pos <= r.1 <= |s|
  {
    if pos < |s| && (s[pos] == '.' || s[pos] == ',') then
      var end := DigitsEnd(s, pos + 1);
      (FractionMicros(s[pos + 1..end]), end)
    else (0, pos)
  }

  /** Seconds east of UTC; anything but a sign is taken as UTC. */
  function ParseTz(text: string): Option<int> {
    var tz := Trim(text);
    if tz == "" || tz == "Z" then Some(0)
    else if tz[0] != '+' && tz[0] != '-' then Some(0)
    else if |tz| < 5 then None
    else
      var h :- DigitsAt(tz, 1, 2);
      var m :- DigitsAt(tz, 3, 2);
      Some((if tz[0] == '+' then 1 else -1) * (h * 3600 + m * 60))
  }

  /** With a fraction, the ISO text is derived again from the instant. */
  function Refit(tv: TimeValue, frac: int): TimeValue {
    if frac == 0 then tv
    else
      var c := CivilFromMicros(tv.micros);
      tv.(iso := Iso(c.date, c.hour, c.minute, c.second, Some(frac)))
  }

  /** What is read off a text before anything is computed. */
  datatype Fields = Fields(clock: Clock, frac: nat, offset: int)

  function FieldsOf(s: string): Option<Fields> {
    if |s| < 10 then None
    else
      var year :- DigitsAt(s, 0, 4);
      var month :- DigitsAt(s, 4, 2);
      var day :- DigitsAt(s, 6, 2);
      var hour :- DigitsAt(s, 8, 2);
      var (minute, second, pos) :- ClockAt(s);
      var (frac, end) := FractionAt(s, pos);
      var offset :- ParseTz(s[end..]);
      Some(Fields(Clock(Date(year, month, day), hour, minute, second), frac, offset))
  }

  /** `parse_generalized` on a trimmed text. */
  function GeneralizedOf(s: string): Option<TimeValue> {
    var fields :- FieldsOf(s);
    var tv :- Assemble(fields.clock, fields.frac, fields.offset);
    Some(Refit(tv, fields.frac))
  }

  /** From `start` to `end` there is a decimal mark with all the digits that follow it, and
      `frac` is that fraction rounded down to millionths; or there is no mark. */
  predicate IsFractionOf(s: string, start: nat, frac: nat, end: nat)
    requires start <= |s|
  {
    if start < |s| && (s[start] == '.' || s[start] == ',') then
      && start < end <= |s| && AllDigits(s[start + 1..end])
      && (end < |s| ==> !IsDigit(s[end]))
      && var f := s[start + 1..end];
         frac * Pow10(|f|) <= ReadDigits(0, f) * Pow10(6) < (frac + 1) * Pow10(|f|)
    else frac == 0 && end == start
  }

  lemma FractionAtIs(s: string, start: nat)
    requires start <= |s|
    ensures IsFractionOf(s, start, FractionAt(s, start).0, FractionAt(s, start).1)
  {
    hide FractionMicros, DigitsEnd, Pow10, ReadDigits;
    if start < |s| && (s[start] == '.' || s[start] == ',') {
      DigitsEndStops(s, start + 1);
      FractionTruncates(s[start + 1..DigitsEnd(s, start + 1)]);
    }
  }

  lemma {:induction false} DigitsEndStops(s: string, p: nat)
    requires p <= |s|
    ensures DigitsEnd(s, p) < |s| ==> !IsDigit(s[DigitsEnd(s, p)])
    decreases |s| - p
  {
    if p < |s| && IsDigit(s[p]) {
      DigitsEndStops(s, p + 1);
    }
  }

  method ParseFraction(s: string, start: nat) returns (frac: nat, end: nat)
    requires start <= |s|
    ensures (frac, end) == FractionAt(s, start)
    ensures IsFractionOf(s, start, frac, end)
  {
    hide ReadDigits, Pow10;
    FractionAtIs(s, start);
    var pos := start;
    frac := 0;
    if pos < |s| && (s[pos] == '.' || s[pos] == ',') {
      pos := pos + 1;
      while pos < |s| && IsDigit(s[pos])
        invariant start + 1 <= pos <= |s|
        invariant DigitsEnd(s, pos) == DigitsEnd(s, start + 1)
        decreases |s| - pos
      {
        pos := pos + 1;
      }
      var f := s[start + 1..pos];
      ghost var cut := if |f| > 6 then f[..6] else f;
      if |f| > 6 {
        f := f[..6];
      }
      while |f| < 6
        invariant FillZeros(f) == FillZeros(cut)
        decreases 6 - |f|
      {
        f := f + "0";
      }
      frac := if AllDigits(f) then ReadDigits(0, f) else 0;
    }
    end := pos;
  }

  method ParseGeneralized(s: string) returns (r: Option<TimeValue>)
    ensures r == GeneralizedOf(s)
  {
    hide DigitsAt, FractionAt, ParseTz, Assemble, Refit;
    if |s| < 10 {
      return None;
    }
    var year :- DigitsAt(s, 0, 4);
    var month :- DigitsAt(s, 4, 2);
    var day :- DigitsAt(s, 6, 2);
    var hour :- DigitsAt(s, 8, 2);
    var pos, minute, second := 10, 0, 0;
    if |s| > pos + 1 && IsDigit(s[pos]) {
      minute :- DigitsAt(s, pos, 2);
      pos := pos + 2;
      if |s| > pos + 1 && IsDigit(s[pos]) {
        second :- DigitsAt(s, pos, 2);
        pos := pos + 2;
      }
    }
    assert ClockAt(s) == Some((minute, second, pos));
    var frac, end := ParseFraction(s, pos);
    var offset :- ParseTz(s[end..]);
    var tv :- Assemble(Clock(Date(year, month, day), hour, minute, second), frac, offset);
    return Some(Refit(tv, frac));
  }

  // ---------- digits ----------

  function Pow10(k: nat): nat {
    if k == 0 then 1 else 10 * Pow10(k - 1)
  }

  lemma SmallPowers()
    ensures Pow10(2) == 100 && Pow10(4) == 10_000 && Pow10(6) == 1_000_000
  {
    assert Pow10(1) == 10 && Pow10(3) == 1000 && Pow10(5) == 100_000;
  }

  lemma {:induction false} PowAdds(j: nat, k: nat)
    ensures Pow10(j + k) == Pow10(j) * Pow10(k)
  {
    if j > 0 {
      PowAdds(j - 1, k);
      assert Pow10(j + k) == 10 * Pow10(j - 1 + k);
    }
  }

  /** Reading `s` after `acc` leaves room for `|s|` more digits. */
  lemma {:induction false} ReadDigitsBound(acc: nat, s: string)
    requires AllDigits(s)
    ensures acc * Pow10(|s|) <= ReadDigits(acc, s) < (acc + 1) * Pow10(|s|)
    decreases |s|
  {
    if s != "" {
      var next := acc * 10 + DigitValue(s[0]);
      ReadDigitsBound(next, s[1..]);
      var p := Pow10(|s| - 1);
      Scaled(acc * 10, next, p);
      Scaled(next + 1, (acc + 1) * 10, p);
      Regrouped(acc, 10, p);
      Regrouped(acc + 1, 10, p);
    }
  }

  lemma Scaled(a: int, b: int, p: nat)
    requires a <= b
    ensures a * p <= b * p
  {
    assert (b - a) * p >= 0;
  }

  lemma Regrouped(a: int, b: int, c: int)
    ensures a * b * c == a * (b * c)
  {
  }

  lemma {:induction false} ReadDigitsSplit(acc: nat, a: string, b: string)
    requires AllDigits(a) && AllDigits(b)
    ensures AllDigits(a + b) && ReadDigits(acc, a + b) == ReadDigits(ReadDigits(acc, a), b)
    decreases |a|
  {
    if a == "" {
      assert a + b == b;
    } else {
      assert (a + b)[1..] == a[1..] + b;
      ReadDigitsSplit(acc * 10 + DigitValue(a[0]), a[1..], b);
    }
  }

  /** Zeros at the end multiply by powers of ten. */
  lemma {:induction false} FilledReads(f: string)
    requires AllDigits(f) && |f| <= 6
    ensures AllDigits(FillZeros(f)) && ReadDigits(0, FillZeros(f)) == ReadDigits(0, f) * Pow10(6 - |f|)
    decreases 6 - |f|
  {
    if |f| < 6 {
      ReadDigitsAppend(0, f, '0');
      FilledReads(f + "0");
      Regrouped(ReadDigits(0, f), 10, Pow10(5 - |f|));
    }
  }

  /** Whatever the number of its digits, a fraction of a second is rounded down to
      microseconds: `m / 10^6 <= 0.f < (m + 1) / 10^6`. */
  lemma FractionTruncates(f: string)
    requires AllDigits(f)
    ensures var m := FractionMicros(f);
            && m * Pow10(|f|) <= ReadDigits(0, f) * Pow10(6) < (m + 1) * Pow10(|f|)
            && m < 1_000_000
  {
    hide ReadDigits, FillZeros, Pow10;
    var m, v, n := FractionMicros(f), ReadDigits(0, f), |f|;
    SmallPowers();
    if n <= 6 {
      FilledReads(f);
      PowAdds(6 - n, n);
      PowPositive(n);
      PowPositive(6 - n);
      ReadDigitsBound(0, f);
      FilledBounds(v, Pow10(6 - n), Pow10(n));
    } else {
      var a, b := f[..6], f[6..];
      assert f == a + b;
      FilledReads(a);
      ZerothPower();
      ReadDigitsSplit(0, a, b);
      ReadDigitsBound(m, b);
      ReadDigitsBound(0, a);
      PowAdds(n - 6, 6);
      CutBounds(m, v, Pow10(n - 6));
    }
  }

  lemma FilledBounds(v: nat, p: nat, q: nat)
    requires p > 0 && v < q
    ensures v * p < p * q
    ensures v * p * q == v * (p * q) < (v * p + 1) * q
  {
    Scaled(v + 1, q, p);
    Regrouped(v, p, q);
    assert (v * p + 1) * q == v * p * q + q;
  }

  lemma CutBounds(m: nat, v: nat, p: nat)
    requires m * p <= v < (m + 1) * p
    ensures m * (p * 1_000_000) <= v * 1_000_000 < (m + 1) * (p * 1_000_000)
  {
    Regrouped(m, p, 1_000_000);
    Regrouped(m + 1, p, 1_000_000);
  }

  lemma {:induction false} PowPositive(k: nat)
    ensures Pow10(k) > 0
  {
    if k > 0 {
      PowPositive(k - 1);
    }
  }

  lemma ZerothPower()
    ensures Pow10(0) == 1
  {
  }

  lemma {:induction false} DigitsEndAt(s: string, p: nat, e: nat)
    requires p <= e <= |s| && AllDigits(s[p..e]) && (e < |s| ==> !IsDigit(s[e]))
    ensures DigitsEnd(s, p) == e
    decreases e - p
  {
    if p < e {
      assert s[p] == s[p..e][0];
      assert s[p + 1..e] == s[p..e][1..];
      DigitsEndAt(s, p + 1, e);
    }
  }

  // ---------- what the ISO text denotes ----------

  /** The instant at which a clock in UTC shows what an ISO text shows, in microseconds. */
  function IsoInstant(iso: Iso): int {
    Instant(Clock(iso.date, iso.hour, iso.minute, iso.second)) * 1_000_000
    + if iso.frac.Some? then iso.frac.value else 0
  }

  /** An ISO text ending in `Z` denotes an instant when it shows a real date and time of day
      that UTC clocks show at that instant. */
  predicate IsoDenotes(iso: Iso, micros: int) {
    IsClock(Clock(iso.date, iso.hour, iso.minute, iso.second)) && IsoInstant(iso) == micros
  }

  lemma FieldsInRange(s: string)
    requires FieldsOf(s).Some?
    ensures var f := FieldsOf(s).value;
            && f.clock.hour >= 0 && f.clock.minute >= 0 && f.clock.second >= 0
            && f.frac < 1_000_000
  {
    hide DigitsAt, ParseTz, FractionMicros, DigitsEnd;
    var pos := ClockAt(s).value.2;
    if pos < |s| && (s[pos] == '.' || s[pos] == ',') {
      FractionTruncates(s[pos + 1..FractionAt(s, pos).1]);
    }
  }

  /** The ISO text of an accepted time always ends in `Z`. It denotes the returned instant if
      and only if a fraction of a second was given, and the text derived from the instant; or
      the time was given without offset, on a real date, outside a leap second. */
  lemma IsoDenotesInstant(s: string)
    requires GeneralizedOf(s).Some?
    ensures FieldsOf(s).Some?
    ensures var tv, f := GeneralizedOf(s).value, FieldsOf(s).value;
            IsoDenotes(tv.iso, tv.micros)
            <==> f.frac != 0 || (f.offset == 0 && f.clock.second <= 59 && IsDate(f.clock.date))
  {
    hide FieldsOf, Instant, CivilFromMicros, IsDate;
    var f := FieldsOf(s).value;
    var micros := GeneralizedOf(s).value.micros;
    FieldsInRange(s);
    FieldsDenoteInstant(micros);
    FloorUnique(micros, 1_000_000, Instant(f.clock) - f.offset);
  }

  // ---------- printing and reading back ----------

  /** `n` in exactly `w` digits. */
  function Pad(n: nat, w: nat): (s: string)
    ensures |s| == w
    decreases w
  {
    if w == 0 then "" else Pad(n / 10, w - 1) + [DigitChar(n % 10)]
  }

  lemma {:induction false} PadReads(n: nat, w: nat)
    requires n < Pow10(w)
    ensures AllDigits(Pad(n, w)) && ReadDigits(0, Pad(n, w)) == n
    decreases w
  {
    if w > 0 {
      PadReads(n / 10, w - 1);
      ReadDigitsAppend(0, Pad(n / 10, w - 1), DigitChar(n % 10));
    }
  }

  datatype Precision = Hours | Minutes | Seconds

  /** A decimal mark and any number of digits. */
  datatype Fraction = Fraction(mark: char, digits: string)

  datatype Zone = Local | Zulu | Offset(east: bool, hours: nat, minutes: nat)

  /** The ways in which one time can be written. */
  datatype Shape = Shape(precision: Precision, fraction: Option<Fraction>, zone: Zone)

  predicate IsFraction(f: Option<Fraction>) {
    f.Some? ==> (f.value.mark == '.' || f.value.mark == ',') && AllDigits(f.value.digits)
  }

  predicate IsZone(z: Zone) { z.Offset? ==> z.hours < 100 && z.minutes < 100 }

  function FractionText(f: Option<Fraction>): string {
    if f.None? then "" else [f.value.mark] + f.value.digits
  }

  function MicrosOf(f: Option<Fraction>): nat {
    if f.None? then 0 else FractionMicros(f.value.digits)
  }

  function ZoneText(z: Zone): string {
    match z
    case Local => ""
    case Zulu => "Z"
    case Offset(east, hours, minutes) => (if east then "+" else "-") + Pad(hours, 2) + Pad(minutes, 2)
  }

  function ZoneSeconds(z: Zone): int {
    if !z.Offset? then 0 else (if z.east then 1 else -1) * (z.hours * 3600 + z.minutes * 60)
  }

  /** Fields that fit in their columns. */
  predicate Printable(c: Clock) {
    && 0 <= c.date.y < 10_000 && 0 <= c.date.m < 100 && 0 <= c.date.d < 100
    && 0 <= c.hour < 100 && 0 <= c.minute < 100 && 0 <= c.second < 100
  }

  function ClockText(c: Clock, p: Precision): string
    requires Printable(c)
  {
    match p
    case Hours => ""
    case Minutes => Pad(c.minute, 2)
    case Seconds => Pad(c.minute, 2) + Pad(c.second, 2)
  }

  /** What is left of a time of day at this precision. */
  function Shown(c: Clock, p: Precision): Clock {
    match p
    case Hours => c.(minute := 0, second := 0)
    case Minutes => c.(second := 0)
    case Seconds => c
  }

  function GeneralizedText(c: Clock, shape: Shape): string
    requires Printable(c)
  {
    Pad(c.date.y, 4) + Pad(c.date.m, 2) + Pad(c.date.d, 2) + Pad(c.hour, 2)
    + ClockText(c, shape.precision) + FractionText(shape.fraction) + ZoneText(shape.zone)
  }

  lemma FieldReads(pre: string, n: nat, w: nat, post: string)
    requires n < Pow10(w)
    ensures DigitsAt(pre + Pad(n, w) + post, |pre|, w) == Some(n)
    ensures w > 0 ==> IsDigit((pre + Pad(n, w) + post)[|pre|])
  {
    hide Pad, Pow10, ReadDigits;
    PadReads(n, w);
    var s := pre + Pad(n, w) + post;
    assert s[|pre|..|pre| + w] == Pad(n, w);
    if w > 0 {
      assert s[|pre|] == Pad(n, w)[0];
    }
  }

  lemma ClockReads(pre: string, c: Clock, p: Precision, post: string)
    requires Printable(c) && |pre| == 10
    requires post != "" ==> !IsDigit(post[0])
    ensures var shown := Shown(c, p);
            ClockAt(pre + ClockText(c, p) + post)
            == Some((shown.minute, shown.second, 10 + |ClockText(c, p)|))
  {
    hide Pad, DigitsAt, Pow10;
    SmallPowers();
    var s := pre + ClockText(c, p) + post;
    match p
    case Hours =>
      assert s == pre + post;
    case Minutes =>
      FieldReads(pre, c.minute, 2, post);
      assert s[12..] == post;
    case Seconds =>
      FieldReads(pre, c.minute, 2, Pad(c.second, 2) + post);
      assert s == pre + Pad(c.minute, 2) + (Pad(c.second, 2) + post);
      FieldReads(pre + Pad(c.minute, 2), c.second, 2, post);
      assert s == (pre + Pad(c.minute, 2)) + Pad(c.second, 2) + post;
  }

  lemma FractionReads(pre: string, f: Option<Fraction>, post: string)
    requires IsFraction(f)
    requires post != "" ==> !IsDigit(post[0]) && post[0] != '.' && post[0] != ','
    ensures FractionAt(pre + FractionText(f) + post, |pre|) == (MicrosOf(f), |pre + FractionText(f)|)
  {
    hide FractionMicros, DigitsEnd;
    var s := pre + FractionText(f) + post;
    if f.None? {
      assert s == pre + post;
    } else {
      var e := |pre + FractionText(f)|;
      assert s[|pre|] == f.value.mark && s[|pre| + 1..e] == f.value.digits;
      assert e < |s| ==> s[e] == post[0];
      DigitsEndAt(s, |pre| + 1, e);
    }
  }

  lemma ZoneReads(z: Zone)
    requires IsZone(z)
    ensures ParseTz(ZoneText(z)) == Some(ZoneSeconds(z))
    ensures ZoneText(z) != "" ==> ZoneText(z)[0] in {'Z', '+', '-'}
  {
    hide Pad, DigitsAt, Pow10;
    if z.Offset? {
      SmallPowers();
      var sign, h, m := if z.east then "+" else "-", Pad(z.hours, 2), Pad(z.minutes, 2);
      var tz := ZoneText(z);
      PadReads(z.minutes, 2);
      assert tz[4] == m[1] && IsDigit(m[1]);
      assert Trim(tz) == tz;
      FieldReads(sign, z.hours, 2, m);
      FieldReads(sign + h, z.minutes, 2, "");
      assert tz == sign + h + m == sign + h + m + "";
    }
  }

  lemma HourColumnsRead(c: Clock, rest: string)
    requires Printable(c)
    ensures var s := Pad(c.date.y, 4) + Pad(c.date.m, 2) + Pad(c.date.d, 2) + Pad(c.hour, 2) + rest;
            && DigitsAt(s, 0, 4) == Some(c.date.y) && DigitsAt(s, 4, 2) == Some(c.date.m)
            && DigitsAt(s, 6, 2) == Some(c.date.d) && DigitsAt(s, 8, 2) == Some(c.hour)
  {
    hide Pad, DigitsAt, Pow10;
    SmallPowers();
    var y, mo, d, h := Pad(c.date.y, 4), Pad(c.date.m, 2), Pad(c.date.d, 2), Pad(c.hour, 2);
    var s := y + mo + d + h + rest;
    assert s == [] + y + (mo + d + h + rest);
    FieldReads([], c.date.y, 4, mo + d + h + rest);
    assert s == y + mo + (d + h + rest);
    FieldReads(y, c.date.m, 2, d + h + rest);
    assert s == (y + mo) + d + (h + rest);
    FieldReads(y + mo, c.date.d, 2, h + rest);
    FieldReads(y + mo + d, c.hour, 2, rest);
  }

  /** Whatever the shape of the text, exactly the printed fields are read off it. */
  lemma FieldsRead(c: Clock, shape: Shape)
    requires Printable(c) && IsFraction(shape.fraction) && IsZone(shape.zone)
    ensures FieldsOf(GeneralizedText(c, shape))
            == Some(Fields(Shown(c, shape.precision), MicrosOf(shape.fraction), ZoneSeconds(shape.zone)))
  {
    hide Pad, DigitsAt, FractionAt, ParseTz, ClockAt, ZoneText, ZoneSeconds, MicrosOf, ClockText, Shown, Pow10;
    var pre := Pad(c.date.y, 4) + Pad(c.date.m, 2) + Pad(c.date.d, 2) + Pad(c.hour, 2);
    var k, f, z := ClockText(c, shape.precision), FractionText(shape.fraction), ZoneText(shape.zone);
    var s := GeneralizedText(c, shape);
    assert s == pre + (k + f + z);
    HourColumnsRead(c, k + f + z);
    ZoneReads(shape.zone);
    assert s == pre + k + (f + z);
    ClockReads(pre, c, shape.precision, f + z);
    assert s == (pre + k) + f + z;
    FractionReads(pre + k, shape.fraction, z);
    assert s[|pre + k + f|..] == z;
    ShownDate(c, shape.precision);
  }

  lemma ShownDate(c: Clock, p: Precision)
    ensures Shown(c, p).date == c.date && Shown(c, p).hour == c.hour
  {
  }

  /** A real time of a four-digit year, written at any precision, with any fraction of a
      second and in any zone, is read back: the instant is exact to the microsecond, the ISO
      text shows the printed fields or, with a fraction, the fields of the instant in UTC. */
  lemma GeneralizedRoundTrip(c: Clock, shape: Shape)
    requires IsClock(c) && 0 <= c.date.y <= 9999
    requires IsFraction(shape.fraction) && IsZone(shape.zone)
    ensures Printable(c)
    ensures var r := GeneralizedOf(GeneralizedText(c, shape));
            var shown, frac := Shown(c, shape.precision), MicrosOf(shape.fraction);
            && r.Some?
            && r.value.micros == (Instant(shown) - ZoneSeconds(shape.zone)) * 1_000_000 + frac
            && (frac == 0 || ZoneSeconds(shape.zone) == 0 ==>
                  r.value.iso == Iso(shown.date, shown.hour, shown.minute, shown.second,
                                     if frac == 0 then None else Some(frac)))
            && (frac != 0 ==> IsoDenotes(r.value.iso, r.value.micros) && r.value.iso.frac == Some(frac))
  {
    hide FieldsOf, GeneralizedText, Assemble, CivilFromMicros, Instant, IsDate, ZoneSeconds, MicrosOf;
    RealDateFields(c.date);
    FieldsRead(c, shape);
    var s := GeneralizedText(c, shape);
    var shown, frac, offset := Shown(c, shape.precision), MicrosOf(shape.fraction), ZoneSeconds(shape.zone);
    FieldsInRange(s);
    ZoneBound(shape.zone);
    YearsFit(shown, frac, offset);
    IsoDenotesInstant(s);
    if offset == 0 {
      FieldsOfInstant(shown, frac);
    }
  }

  lemma RealDateFields(t: Date)
    requires IsDate(t)
    ensures 1 <= t.m <= 12 && 1 <= t.d <= 31
  {
  }

  lemma ZoneBound(z: Zone)
    requires IsZone(z)
    ensures -400_000 <= ZoneSeconds(z) <= 400_000
  {
  }

  /** Four-digit years stay far inside the 64-bit range. */
  lemma YearsFit(c: Clock, frac: nat, offset: int)
    requires IsClock(c) && 0 <= c.date.y <= 9999 && frac < 1_000_000
    requires -400_000 <= offset <= 400_000
    ensures Assemble(c, frac, offset)
            == Some(TimeValue(Iso(c.date, c.hour, c.minute, c.second, None),
                              (Instant(c) - offset) * 1_000_000 + frac))
  {
    hide DaysFromCivil, DayOfEra;
    RealDateFields(c.date);
    DaysFromCivilIs(c.date);
    DayOfEraBound(YearOfEra(c.date), DayOfYear(c.date));
    var days := DaysFromCivil(c.date.y, c.date.m, c.date.d);
    assert -1_000_000 <= days <= 5_000_000;
  }

  lemma DayOfEraBound(yoe: int, doy: int)
    requires 0 <= yoe < 400 && 0 <= doy <= 365
    ensures 0 <= DayOfEra(yoe, doy) <= 146_500
  {
  }

  // ---------- which texts are accepted ----------

  /** A zone is refused only when a sign is not followed by four digits. */
  lemma ZoneAccepted(text: string)
    ensures ParseTz(text).Some? <==>
            var z := Trim(text);
            z == "" || (z[0] != '+' && z[0] != '-') || (|z| >= 5 && AllDigits(z[1..5]))
  {
    hide Trim, ReadDigits;
    var z := Trim(text);
    if |z| >= 5 {
      assert z[1..5] == z[1..3] + z[3..5];
      AllDigitsAppend(z[1..3], z[3..5]);
    }
  }

  lemma AllDigitsAppend(a: string, b: string)
    ensures AllDigits(a + b) <==> AllDigits(a) && AllDigits(b)
  {
    if AllDigits(a + b) {
      assert forall i | 0 <= i < |a| :: (a + b)[i] == a[i];
      forall i | 0 <= i < |b|
        ensures IsDigit(b[i])
      {
        assert (a + b)[|a| + i] == b[i];
      }
    }
  }

  /** Ten digits; then minutes and seconds, where a first digit asks for a second one; then a
      zone. */
  lemma FieldsAccepted(s: string)
    ensures FieldsOf(s).Some? <==>
            && |s| >= 10 && AllDigits(s[..10])
            && (|s| > 11 && IsDigit(s[10]) ==>
                  IsDigit(s[11]) && (|s| > 13 && IsDigit(s[12]) ==> IsDigit(s[13])))
            && ClockAt(s).Some?
            && ParseTz(s[FractionAt(s, ClockAt(s).value.2).1..]).Some?
  {
    hide ReadDigits, FractionMicros, DigitsEnd, ParseTz;
    if |s| >= 10 {
      assert s[..10] == s[..4] + s[4..6] + s[6..8] + s[8..10];
      AllDigitsAppend(s[..4] + s[4..6] + s[6..8], s[8..10]);
      AllDigitsAppend(s[..4] + s[4..6], s[6..8]);
      AllDigitsAppend(s[..4], s[4..6]);
      TwoDigits(s);
    }
  }

  lemma TwoDigits(s: string)
    requires |s| >= 10
    ensures ClockAt(s).Some? <==>
            (|s| > 11 && IsDigit(s[10]) ==> IsDigit(s[11]) && (|s| > 13 && IsDigit(s[12]) ==> IsDigit(s[13])))
  {
    hide ReadDigits;
    if |s| > 11 {
      assert s[10..12] == [s[10], s[11]];
    }
    if |s| > 13 {
      assert s[12..14] == [s[12], s[13]];
    }
  }

  lemma FieldsBound(s: string)
    requires FieldsOf(s).Some?
    ensures var f := FieldsOf(s).value;
            && 0 <= f.clock.date.y < 10_000 && 0 <= f.clock.date.m && 0 <= f.clock.date.d
            && -400_000 <= f.offset <= 400_000
  {
    hide FractionAt, ClockAt, Pow10, ReadDigits, Trim;
    SmallPowers();
    ReadDigitsBound(0, s[0..4]);
    var tz := Trim(s[FractionAt(s, ClockAt(s).value.2).1..]);
    if tz != "" && (tz[0] == '+' || tz[0] == '-') {
      ReadDigitsBound(0, tz[1..3]);
      ReadDigitsBound(0, tz[3..5]);
    }
  }

  /** The day number goes up with the day of the month, even past the end of the month. */
  lemma DayInMonth(y: int, m: int, d: int)
    ensures DaysFromCivil(y, m, d) == DaysFromCivil(y, m, 1) + d - 1
  {
  }

  lemma NoOverflow(c: Clock, frac: nat, offset: int)
    requires 0 <= c.date.y < 10_000 && 1 <= c.date.m <= 12 && 1 <= c.date.d <= 31
    requires 0 <= c.hour <= 23 && 0 <= c.minute <= 59 && 0 <= c.second <= 60
    requires frac < 1_000_000 && -400_000 <= offset <= 400_000
    ensures Assemble(c, frac, offset).Some?
  {
    hide DaysFromCivil, DayOfEra;
    var first := Date(c.date.y, c.date.m, 1);
    DayInMonth(c.date.y, c.date.m, c.date.d);
    DaysFromCivilIs(first);
    DayOfEraBound(YearOfEra(first), DayOfYear(first));
    assert -1_000_000 <= DaysFromCivil(c.date.y, c.date.m, 1) <= 5_000_000;
  }

  /** Of the texts that can be read, exactly those are accepted whose month, day, hour, minute
      and second are in range; the day may be up to 31 in any month, and the second up to 60. */
  lemma AcceptedInRange(s: string)
    ensures GeneralizedOf(s).Some? <==>
            && FieldsOf(s).Some?
            && var c := FieldsOf(s).value.clock;
               1 <= c.date.m <= 12 && 1 <= c.date.d <= 31 && c.hour <= 23 && c.minute <= 59 && c.second <= 60
  {
    hide FieldsOf, Instant;
    if FieldsOf(s).Some? {
      FieldsInRange(s);
      FieldsBound(s);
      var f := FieldsOf(s).value;
      if 1 <= f.clock.date.m <= 12 && 1 <= f.clock.date.d <= 31 && f.clock.hour <= 23 && f.clock.minute <= 59
         && f.clock.second <= 60 {
        NoOverflow(f.clock, f.frac, f.offset);
      }
    }
  }

  // ---------- where the ISO text is wrong ----------

  lemma PadTwo(n: nat)
    requires n < 100
    ensures Pad(n, 2) == [DigitChar(n / 10), DigitChar(n % 10)]
  {
    assert Pad(n / 10, 1) == Pad(0, 0) + [DigitChar(n / 10)];
  }

  lemma PadStep(n: nat, w: nat)
    ensures Pad(n, w + 1) == Pad(n / 10, w) + [DigitChar(n % 10)]
  {
  }

  lemma PadFour(n: nat)
    requires n < 10_000
    ensures Pad(n, 4) == Pad(n / 100, 2) + [DigitChar(n / 10 % 10), DigitChar(n % 10)]
  {
    hide Pad;
    PadStep(n, 3);
    PadStep(n / 10, 2);
  }

  lemma DateDigits(t: Date, text: string)
    requires 0 <= t.y < 10_000 && 0 <= t.m < 100 && 0 <= t.d < 100
    requires text == [DigitChar(t.y / 100 / 10), DigitChar(t.y / 100 % 10),
                      DigitChar(t.y / 10 % 10), DigitChar(t.y % 10),
                      DigitChar(t.m / 10), DigitChar(t.m % 10), DigitChar(t.d / 10), DigitChar(t.d % 10)]
    ensures Pad(t.y, 4) + Pad(t.m, 2) + Pad(t.d, 2) == text
  {
    hide Pad;
    PadFour(t.y);
    PadTwo(t.y / 100);
    PadTwo(t.m);
    PadTwo(t.d);
  }

  /** Noon five hours east of Greenwich is seven o'clock UTC; the text says noon UTC. */
  lemma LocalTimeShownAsUtc()
    ensures var r := GeneralizedOf("20230915120000+0500");
            && r.Some?
            && r.value.iso == Iso(Date(2023, 9, 15), 12, 0, 0, None)
            && !IsoDenotes(r.value.iso, r.value.micros)
  {
    hide Pad, FieldsOf, IsoDenotes;
    var c, zone := Clock(Date(2023, 9, 15), 12, 0, 0), Offset(true, 5, 0);
    var shape := Shape(Seconds, None, zone);
    DateDigits(c.date, "20230915");
    PadTwo(0);
    PadTwo(5);
    PadTwo(12);
    assert GeneralizedText(c, shape) == "20230915120000+0500";
    FieldsRead(c, shape);
    IsoDenotesInstant("20230915120000+0500");
  }

  /** The last day of February may be overstepped: the text shows a date that does not exist,
      and with a fraction of a second another date than the one given. */
  lemma UnrealDateAccepted()
    ensures var r := GeneralizedOf("20230231120000Z");
            && r.Some?
            && r.value.iso == Iso(Date(2023, 2, 31), 12, 0, 0, None)
            && !IsoDenotes(r.value.iso, r.value.micros)
    ensures var r := GeneralizedOf("20230231120000.5Z");
            && r.Some?
            && FieldsOf("20230231120000.5Z").value.clock == Clock(Date(2023, 2, 31), 12, 0, 0)
            && r.value.iso == Iso(Date(2023, 3, 3), 12, 0, 0, Some(500_000))
  {
    hide Pad, FieldsOf, IsoDenotes, CivilFromMicros, Instant, FractionMicros;
    var c, half := Clock(Date(2023, 2, 31), 12, 0, 0), Some(Fraction('.', "5"));
    DateDigits(c.date, "20230231");
    PadTwo(0);
    PadTwo(12);
    HalfSecond();
    NoonThirdOfMarch();
    var plain, split := Shape(Seconds, None, Zulu), Shape(Seconds, half, Zulu);
    assert GeneralizedText(c, plain) == "20230231120000Z";
    assert GeneralizedText(c, split) == "20230231120000.5Z";
    FieldsRead(c, plain);
    IsoDenotesInstant("20230231120000Z");
    FieldsRead(c, split);
    FieldsOfInstant(c.(date := Date(2023, 3, 3)), 500_000);
  }

  lemma HalfSecond()
    ensures FractionMicros("5") == 500_000
  {
    hide FillZeros;
    SmallPowers();
    FractionTruncates("5");
    assert "5"[1..] == "";
    assert Pow10(1) == 10;
  }

  /** 31 February is counted as the third day of March. */
  lemma NoonThirdOfMarch()
    ensures Instant(Clock(Date(2023, 2, 31), 12, 0, 0)) == Instant(Clock(Date(2023, 3, 3), 12, 0, 0))
    ensures Instant(Clock(Date(2023, 3, 3), 12, 0, 0)) == 1_677_844_800
  {
  }

  /** A leap second is counted as the first second of the next day; the text keeps it. */
  lemma LeapSecondAccepted()
    ensures var r := GeneralizedOf("20161231235960Z");
            && r.Some?
            && r.value.iso == Iso(Date(2016, 12, 31), 23, 59, 60, None)
            && !IsoDenotes(r.value.iso, r.value.micros)
  {
    hide Pad, FieldsOf, IsoDenotes;
    var c, shape := Clock(Date(2016, 12, 31), 23, 59, 60), Shape(Seconds, None, Zulu);
    DateDigits(c.date, "20161231");
    PadTwo(23);
    PadTwo(59);
    PadTwo(60);
    assert GeneralizedText(c, shape) == "20161231235960Z";
    FieldsRead(c, shape);
    IsoDenotesInstant("20161231235960Z");
  }
}
