/** `formatTime` of popup/script.js: a duration in milliseconds rendered as
    `HH:MM:SS`. The arithmetic is JavaScript's: `Math.floor(a / b)` with a
    positive divisor is Dafny's `/`, while JavaScript's `%` truncates, so a
    negative dividend gives a non-positive remainder (see JsRem). */
module Clock {
  import opened Wrappers
  import opened Text

  /** JavaScript's `a % b` for a positive divisor: the remainder carries the
      sign of the dividend, is smaller than `b` in magnitude, differs from
      the dividend by a multiple of `b`, and agrees with Dafny's Euclidean
      `%` on a non-negative dividend. */
  function JsRem(a: int, b: int): (r: int)
    requires b > 0
    ensures -b < r < b
    ensures a >= 0 ==> r == a % b
    ensures a <= 0 ==> r <= 0
    ensures (a - r) % b == 0
  {
    TruncatedRemainder(a, b);
    if a >= 0 then a % b else -((-a) % b)
  }

  /** Taking away the truncated remainder leaves a multiple of the divisor. */
  lemma TruncatedRemainder(a: int, b: int)
    requires b > 0
    ensures (a - (if a >= 0 then a % b else -((-a) % b))) % b == 0
  {
    var n := if a >= 0 then a else -a;
    var q, m := n / b, n % b;
    assert n == b * q + m;
    if a >= 0 {
      assert a - m == b * q;
      MultipleMod(b, q);
    } else {
      assert a + m == b * (-q);
      MultipleMod(b, -q);
    }
  }

  lemma MultipleMod(b: int, k: int)
    requires b > 0
    ensures (b * k) % b == 0
  {
    var m, d := (b * k) % b, (b * k) / b;
    assert b * (k - d) == m by {
      assert b * k == b * d + m;
    }
    if k - d >= 1 {
      MulAtLeast(b, k - d);
    } else if k - d <= -1 {
      MulAtLeast(b, d - k);
    }
  }

  lemma {:induction false} MulAtLeast(b: int, j: int)
    requires b > 0 && j >= 1
    ensures b * j >= b
    decreases j
  {
    if j > 1 {
      MulAtLeast(b, j - 1);
      assert b * j == b * (j - 1) + b;
    }
  }

  /** One field of the clock: the integer's decimal text padded to two
      characters with '0'. */
  function Field(n: int): string {
    PadStart(IntToString(n), 2, '0')
  }

  /** `formatTime(ms)`: whole hours, minutes and seconds, each padded to two
      digits, joined by colons. For a duration of at least zero the text
      reads back as fields that make up the whole seconds of `ms`; it never
      holds a newline; a negative duration is neither rejected nor clamped,
      and its text starts with a minus sign. */
  function FormatTime(ms: int): (r: string)
    ensures ms >= 0 ==>
              var p := ParseClock(r);
              p.Some? && p.value.0 * 3600 + p.value.1 * 60 + p.value.2 == ms / 1000
    ensures '\n' !in r
    ensures ms < 0 ==> |r| > 0 && r[0] == '-'
  {
    var totalSeconds := ms / 1000;
    var hours := totalSeconds / 3600;
    var minutes := JsRem(totalSeconds, 3600) / 60;
    var seconds := JsRem(totalSeconds, 60);
    ClockOfFields(ms, hours, minutes, seconds);
    Field(hours) + ":" + Field(minutes) + ":" + Field(seconds)
  }

  /** Reads a clock string back: an hour field of exactly two digits, or of
      more digits without a leading zero, then `:MM:SS` with exactly two
      digits each and both below 60. Anything else is None. */
  function ParseClock(s: string): (r: Option<(nat, nat, nat)>)
    ensures r.Some? ==> r.value.1 < 60 && r.value.2 < 60
  {
    if |s| >= 8 && s[|s| - 6] == ':' && s[|s| - 3] == ':' && (|s| == 8 || s[0] != '0')
       && AllDigits(s[..|s| - 6]) && AllDigits(s[|s| - 5..|s| - 3]) && AllDigits(s[|s| - 2..])
    then
      var h := DigitsValue(s[..|s| - 6]);
      var m := DigitsValue(s[|s| - 5..|s| - 3]);
      var sec := DigitsValue(s[|s| - 2..]);
      if m < 60 && sec < 60 then Some((h, m, sec)) else None
    else None
  }

  lemma ClockStartsWithHours(h: string, m: string, s: string)
    requires |h| > 0
    ensures (h + ":" + m + ":" + s)[0] == h[0]
  {
  }

  /** A field of a number below 100 is exactly two digits that read back as
      the number; a larger number keeps all its digits. */
  lemma FieldOfNat(n: nat)
    ensures |Field(n)| >= 2 && AllDigits(Field(n)) && DigitsValue(Field(n)) == n
    ensures n < 100 ==> |Field(n)| == 2
    ensures |Field(n)| == 2 || Field(n)[0] != '0'
  {
    var d := NatToString(n);
    if |d| < 2 {
      assert Field(n) == ['0'] + d;
      assert DigitsValue(Field(n)) == n by {
        var f := Field(n);
        assert f[..|f| - 1] == ['0'];
        assert DigitsValue(['0']) == DigitsValue([]) * 10 + 0;
      }
    }
  }

  /** The facts FormatTime promises, stated on its three field values: the
      round trip for a duration of at least zero, no newline, and a leading
      minus sign for a negative duration. */
  lemma ClockOfFields(ms: int, h: int, m: int, s: int)
    requires h == (ms / 1000) / 3600
    requires m == JsRem(ms / 1000, 3600) / 60
    requires s == JsRem(ms / 1000, 60)
    ensures var r := Field(h) + ":" + Field(m) + ":" + Field(s);
            && (ms >= 0 ==>
                  var p := ParseClock(r);
                  p.Some? && p.value.0 * 3600 + p.value.1 * 60 + p.value.2 == ms / 1000)
            && '\n' !in r
            && (ms < 0 ==> |r| > 0 && r[0] == '-')
  {
    FieldHasNoNewline(h);
    FieldHasNoNewline(m);
    FieldHasNoNewline(s);
    NoNewlineInClock(Field(h), Field(m), Field(s));
    if ms >= 0 {
      ClockRoundTrip(ms, h, m, s);
    } else {
      ClockNegative(ms, h, m, s);
    }
  }

  lemma NoNewlineInClock(fh: string, fm: string, fs: string)
    requires '\n' !in fh && '\n' !in fm && '\n' !in fs
    ensures '\n' !in fh + ":" + fm + ":" + fs
  {
  }

  /** For a duration of at least zero the clock fields parse back, and make
      up the whole seconds of `ms`. */
  lemma ClockRoundTrip(ms: int, h: int, m: int, s: int)
    requires ms >= 0
    requires h == (ms / 1000) / 3600
    requires m == JsRem(ms / 1000, 3600) / 60
    requires s == JsRem(ms / 1000, 60)
    ensures var p := ParseClock(Field(h) + ":" + Field(m) + ":" + Field(s));
            p.Some? && p.value.0 * 3600 + p.value.1 * 60 + p.value.2 == ms / 1000
  {
    var ts := ms / 1000;
    assert m == (ts % 3600) / 60 && s == ts % 60;
    ParseFields(h, m, s);
    var rest := ts % 3600;
    assert ts == 3600 * h + rest;
    assert rest == 60 * m + rest % 60;
    assert ts == 60 * (60 * h + m) + rest % 60;
    DivMod60(ts, 60 * h + m, rest % 60);
  }

  /** A negative duration has a negative hour field, so its text starts
      with a minus sign. */
  lemma ClockNegative(ms: int, h: int, m: int, s: int)
    requires ms < 0
    requires h == (ms / 1000) / 3600
    ensures var r := Field(h) + ":" + Field(m) + ":" + Field(s);
            |r| > 0 && r[0] == '-'
  {
    var ts := ms / 1000;
    assert ts < 0;
    assert h < 0;
    var f := Field(h);
    assert f == IntToString(h) == "-" + NatToString(-h);
    ClockStartsWithHours(f, Field(m), Field(s));
  }

  /** Division by 60 is determined by any quotient-remainder split. */
  lemma DivMod60(a: int, q: int, x: int)
    requires 0 <= x < 60 && a == 60 * q + x
    ensures a / 60 == q && a % 60 == x
  {
  }

  /** Three in-range fields joined by colons parse back to themselves. */
  lemma ParseFields(h: nat, m: nat, s: nat)
    requires m < 60 && s < 60
    ensures ParseClock(Field(h) + ":" + Field(m) + ":" + Field(s)) == Some((h, m, s))
  {
    FieldOfNat(h);
    FieldOfNat(m);
    FieldOfNat(s);
    ParseDigitFields(Field(h), Field(m), Field(s));
  }

  lemma ParseDigitFields(fh: string, fm: string, fs: string)
    requires |fh| >= 2 && |fm| == 2 && |fs| == 2
    requires |fh| == 2 || fh[0] != '0'
    requires AllDigits(fh) && AllDigits(fm) && AllDigits(fs)
    requires DigitsValue(fm) < 60 && DigitsValue(fs) < 60
    ensures ParseClock(fh + ":" + fm + ":" + fs) == Some((DigitsValue(fh), DigitsValue(fm), DigitsValue(fs)))
  {
    ClockSlices(fh, fm, fs);
  }

  lemma ClockSlices(fh: string, fm: string, fs: string)
    requires |fh| >= 2 && |fm| == 2 && |fs| == 2
    ensures var out := fh + ":" + fm + ":" + fs;
            && |out| >= 8
            && out[..|out| - 6] == fh && out[|out| - 5..|out| - 3] == fm && out[|out| - 2..] == fs
            && out[|out| - 6] == ':' && out[|out| - 3] == ':' && out[0] == fh[0]
  {
  }

  /** Hours are not wrapped at 24: the hour field is the number of whole
      hours in the duration, however large. */
  lemma FormatTimeHoursUnbounded(ms: int)
    requires ms >= 0
    ensures var r := ParseClock(FormatTime(ms));
            r.Some? && r.value.0 == ms / 3600000
  {
    var ts := ms / 1000;
    var h := ts / 3600;
    var r1, r0 := ts % 3600, ms % 1000;
    assert ms == 1000 * ts + r0;
    assert ts == 3600 * h + r1;
    assert ms == 3600000 * h + (1000 * r1 + r0);
    DivBy3600000(ms, h, 1000 * r1 + r0);
  }

  /** Division by 3600000 is determined by any quotient-remainder split. */
  lemma DivBy3600000(a: int, q: int, x: int)
    requires 0 <= x < 3600000 && a == 3600000 * q + x
    ensures a / 3600000 == q
  {
  }

  lemma FieldHasNoNewline(n: int)
    ensures '\n' !in Field(n)
  {
    var d := IntToString(n);
    IntTextHasNoNewline(n);
    var f := Field(n);
    var k := |f| - |d|;
    forall i | 0 <= i < |f|
      ensures f[i] != '\n'
    {
      if i >= k {
        assert f[i] == f[k..][i - k];
      }
    }
  }

  /** An integer's text is a minus sign and digits. */
  lemma IntTextHasNoNewline(n: int)
    ensures forall i :: 0 <= i < |IntToString(n)| ==> IntToString(n)[i] != '\n'
  {
    var d := IntToString(n);
    forall i | 0 <= i < |d|
      ensures d[i] != '\n'
    {
      if n < 0 && i >= 1 {
        assert d[i] == d[1..][i - 1];
      }
    }
  }

  /** FormatTime unfolded at given field values. */
  lemma FormatTimeFields(ms: int, h: int, m: int, s: int)
    requires h == (ms / 1000) / 3600
    requires m == JsRem(ms / 1000, 3600) / 60
    requires s == JsRem(ms / 1000, 60)
    ensures FormatTime(ms) == Field(h) + ":" + Field(m) + ":" + Field(s)
  {
  }

  /** The worked examples of the format: zero, one of each field, and
      ninety seconds. */
  lemma FormatTimeZero()
    ensures FormatTime(0) == "00:00:00"
  {
    FormatTimeFields(0, 0, 0, 0);
    OneDigitField(0);
    ClockChars(Field(0), Field(0), Field(0));
  }

  lemma FormatTimeOneOfEach()
    ensures FormatTime(3661000) == "01:01:01"
  {
    FormatTimeFields(3661000, 1, 1, 1);
    OneDigitField(1);
    ClockChars(Field(1), Field(1), Field(1));
  }

  lemma FormatTimeNinetySeconds()
    ensures FormatTime(90000) == "00:01:30"
  {
    FormatTimeFields(90000, 0, 1, 30);
    OneDigitField(0);
    OneDigitField(1);
    TwoDigitField(30);
    ClockChars(Field(0), Field(1), Field(30));
  }

  lemma FormatTimeTwoSeconds()
    ensures FormatTime(2000) == "00:00:02"
  {
    FormatTimeFields(2000, 0, 0, 2);
    OneDigitField(0);
    OneDigitField(2);
    ClockChars(Field(0), Field(0), Field(2));
  }

  /** Three two-character fields joined by colons, character by character. */
  lemma ClockChars(a: string, b: string, c: string)
    requires |a| == 2 && |b| == 2 && |c| == 2
    ensures a + ":" + b + ":" + c == [a[0], a[1], ':', b[0], b[1], ':', c[0], c[1]]
  {
  }

  /** A number below 10 is padded with one zero. */
  lemma OneDigitField(n: nat)
    requires n < 10
    ensures Field(n) == ['0', DigitChar(n)]
  {
    assert IntToString(n) == [DigitChar(n)];
  }

  /** A number from 10 to 99 is its own field: its two digits, unpadded. */
  lemma TwoDigitField(n: nat)
    requires 10 <= n < 100
    ensures Field(n) == [DigitChar(n / 10), DigitChar(n % 10)]
  {
    assert NatToString(n) == NatToString(n / 10) + [DigitChar(n % 10)];
  }

  /** Twenty-five hours show as 25, not as 01. */
  lemma FormatTimePastOneDay()
    ensures FormatTime(90000000) == "25:00:00"
  {
    FormatTimeFields(90000000, 25, 0, 0);
    OneDigitField(0);
    TwoDigitField(25);
    ClockChars(Field(25), Field(0), Field(0));
  }
}
