/** The date-time formats: each is one way of printing six numbers and one way of reading them back. */
module DateFormats {
  import opened Decimal
  import opened Options

  datatype Stamp = Stamp(year: int, month: int, day: int, hour: int, minute: int, second: int) {
    /** The numbers that fit the widths of the formats: years of 4 characters, everything else of 2. */
    predicate Fits() {
      FitsDate() && FitsWidth(hour, 2) && FitsWidth(minute, 2) && FitsWidth(second, 2)
    }

    predicate FitsDate() {
      FitsWidth(year, 4) && FitsWidth(month, 2) && FitsWidth(day, 2)
    }

    predicate NonNegative() {
      year >= 0 && month >= 0 && day >= 0 && hour >= 0 && minute >= 0 && second >= 0
    }

    function Date(): Stamp {
      Stamp(year, month, day, 0, 0, 0)
    }
  }

  const ZERO := Stamp(0, 0, 0, 0, 0, 0)

  /** `sprintf_s` into `char[32]`: a text with no room for itself and its final zero is not returned. */
  function Sprintf(text: string): Option<string> {
    if |text| < 32 then Some(text) else None
  }

  /** `atoi(date.substr(at, n).c_str())`. */
  function Number(date: string, at: nat, n: nat): int
    requires at + n <= |date|
  {
    Atoi(date[at..at + n])
  }

  /** A number read from `n` characters fits `n` characters. */
  lemma NumberFits(date: string, at: nat, n: nat)
    requires 1 <= n && at + n <= |date|
    ensures FitsWidth(Number(date, at, n), n)
  {
    AtoiFits(date[at..at + n]);
  }

  /** A number that fits is printed at its width and read back from its own text. */
  lemma FieldReadBack(v: int, w: nat)
    requires w >= 1 && FitsWidth(v, w)
    ensures |Field(v, w)| == w && Atoi(Field(v, w)) == v
  {
    FieldWidth(v, w);
    AtoiOfField(v, w);
  }

  // ---------- YYYYMMDDHHMISS ----------

  function CompactText(t: Stamp): (s: string)
    ensures |s| >= 14
  {
    Field(t.year, 4) + Field(t.month, 2) + Field(t.day, 2)
    + Field(t.hour, 2) + Field(t.minute, 2) + Field(t.second, 2)
  }

  function ParseCompact(date: string): Stamp {
    if |date| < 14 then ZERO
    else Stamp(Number(date, 0, 4), Number(date, 4, 2), Number(date, 6, 2),
               Number(date, 8, 2), Number(date, 10, 2), Number(date, 12, 2))
  }

  // ---------- YYYY-MM-DD HH:MI:SS ----------

  function DashedText(t: Stamp): (s: string)
    ensures |s| >= 19
  {
    Field(t.year, 4) + "-" + Field(t.month, 2) + "-" + Field(t.day, 2) + " "
    + Field(t.hour, 2) + ":" + Field(t.minute, 2) + ":" + Field(t.second, 2)
  }

  /** The guard wants more than the 19 characters that `DashedText` prints. */
  function ParseDashed(date: string): Stamp {
    if |date| <= 19 then ZERO
    else Stamp(Number(date, 0, 4), Number(date, 5, 2), Number(date, 8, 2),
               Number(date, 11, 2), Number(date, 14, 2), Number(date, 17, 2))
  }

  // ---------- YYYYMMDD, YYYY/MM/DD, YYYY-MM-DD ----------

  function CompactDateText(t: Stamp): (s: string)
    ensures |s| >= 8
  {
    Field(t.year, 4) + Field(t.month, 2) + Field(t.day, 2)
  }

  function ParseCompactDate(date: string): Stamp {
    if |date| < 8 then ZERO
    else Stamp(Number(date, 0, 4), Number(date, 4, 2), Number(date, 6, 2), 0, 0, 0)
  }

  function SlashDateText(t: Stamp): (s: string)
    ensures |s| >= 10
  {
    Field(t.year, 4) + "/" + Field(t.month, 2) + "/" + Field(t.day, 2)
  }

  function ParseSlashDate(date: string): Stamp {
    if |date| < 10 then ZERO
    else Stamp(Number(date, 0, 4), Number(date, 5, 2), Number(date, 8, 2), 0, 0, 0)
  }

  function DashDateText(t: Stamp): (s: string)
    ensures |s| >= 10
  {
    Field(t.year, 4) + "-" + Field(t.month, 2) + "-" + Field(t.day, 2)
  }

  function ParseDashDate(date: string): Stamp {
    if |date| < 10 then ZERO
    else Stamp(Number(date, 0, 4), Number(date, 5, 2), Number(date, 8, 2), 0, 0, 0)
  }

  // ---------- CustomFormat1 ----------

  function Custom1Text(t: Stamp): (s: string)
    ensures |s| >= 27
  {
    Field(t.year, 4) + "y " + Field(t.month, 2) + "m " + Field(t.day, 2) + "y - "
    + Field(t.hour, 2) + "h " + Field(t.minute, 2) + "m " + Field(t.second, 2) + "s"
  }

  function ParseCustom1(date: string): Stamp {
    if |date| < 27 then ZERO
    else Stamp(Number(date, 0, 4), Number(date, 6, 2), Number(date, 10, 2),
               Number(date, 16, 2), Number(date, 20, 2), Number(date, 24, 2))
  }

  // ---------- round trips ----------

  lemma ReadDate(t: Stamp)
    requires t.FitsDate()
    ensures |Field(t.year, 4)| == 4 && Atoi(Field(t.year, 4)) == t.year
    ensures |Field(t.month, 2)| == 2 && Atoi(Field(t.month, 2)) == t.month
    ensures |Field(t.day, 2)| == 2 && Atoi(Field(t.day, 2)) == t.day
  {
    FieldReadBack(t.year, 4);
    FieldReadBack(t.month, 2);
    FieldReadBack(t.day, 2);
  }

  /** Three texts in a row, with anything between and around them, are each found again. */
  lemma ThreeFound(whole: string, before: string, at: nat,
                   x: string, a: string, y: string, b: string, z: string, c: string)
    requires before + x + a + y + b + z + c <= whole && at == |before|
    ensures before <= whole
    ensures var i := at + |x| + |a|;
            var j := i + |y| + |b|;
            && j + |z| + |c| <= |whole|
            && whole[at..at + |x|] == x && whole[i..i + |y|] == y && whole[j..j + |z|] == z
  {
    var p1 := before + x + a;
    var p2 := p1 + y + b;
    TextFound(whole, p2, z, c);
    TextFound(whole, p1, y, b);
    TextFound(whole, before, x, a);
  }

  lemma TextFound(whole: string, before: string, x: string, after: string)
    requires before + x + after <= whole
    ensures before <= whole && |before| + |x| + |after| <= |whole|
    ensures whole[|before|..|before| + |x|] == x
  {
    var upTo := before + x + after;
    assert whole[..|upTo|] == upTo;
    assert before == upTo[..|before|] == whole[..|before|];
    assert whole[|before|..|before| + |x|] == upTo[|before|..|before| + |x|];
  }

  /** The fields of a date with separators `a`, `b`, and of a time behind it, are all found again. */
  lemma SixFound(t: Stamp, a: string, b: string, c: string, d: string, e: string, f: string)
    requires t.Fits()
    ensures var s := Field(t.year, 4) + a + Field(t.month, 2) + b + Field(t.day, 2) + c
                     + Field(t.hour, 2) + d + Field(t.minute, 2) + e + Field(t.second, 2) + f;
            var i := 0 + 4 + |a|;
            var j := i + 2 + |b|;
            var k := j + 2 + |c|;
            var l := k + 2 + |d|;
            var m := l + 2 + |e|;
            && |s| == m + 2 + |f|
            && Number(s, 0, 4) == t.year && Number(s, i, 2) == t.month && Number(s, j, 2) == t.day
            && Number(s, k, 2) == t.hour && Number(s, l, 2) == t.minute && Number(s, m, 2) == t.second
  {
    ReadDate(t);
    FieldReadBack(t.hour, 2);
    FieldReadBack(t.minute, 2);
    FieldReadBack(t.second, 2);
    SixTexts(Field(t.year, 4), a, Field(t.month, 2), b, Field(t.day, 2), c,
             Field(t.hour, 2), d, Field(t.minute, 2), e, Field(t.second, 2), f);
  }

  lemma SixTexts(x1: string, a: string, x2: string, b: string, x3: string, c: string,
                 x4: string, d: string, x5: string, e: string, x6: string, f: string)
    requires |x1| == 4 && |x2| == |x3| == |x4| == |x5| == |x6| == 2
    ensures var s := x1 + a + x2 + b + x3 + c + x4 + d + x5 + e + x6 + f;
            var i := 0 + 4 + |a|;
            var j := i + 2 + |b|;
            var k := j + 2 + |c|;
            var l := k + 2 + |d|;
            var m := l + 2 + |e|;
            && |s| == m + 2 + |f|
            && s[0..0 + 4] == x1 && s[i..i + 2] == x2 && s[j..j + 2] == x3
            && s[k..k + 2] == x4 && s[l..l + 2] == x5 && s[m..m + 2] == x6
  {
    var date := x1 + a + x2 + b + x3 + c;
    var s := date + x4 + d + x5 + e + x6 + f;
    ThreeFound(s, date, |date|, x4, d, x5, e, x6, f);
    assert "" + x1 + a + x2 + b + x3 + c == date by {
      assert "" + x1 == x1;
    }
    ThreeFound(s, "", 0, x1, a, x2, b, x3, c);
  }

  // ---------- what the texts look like ----------

  /** What stands between three texts in a row, and behind them. */
  lemma SeparatorsFound(whole: string, before: string, at: nat,
                        x: string, a: string, y: string, b: string, z: string, c: string)
    requires before + x + a + y + b + z + c <= whole && at == |before|
    ensures before <= whole
    ensures var i := at + |x|;
            var j := i + |a| + |y|;
            var k := j + |b| + |z|;
            && k + |c| <= |whole|
            && whole[i..i + |a|] == a && whole[j..j + |b|] == b && whole[k..k + |c|] == c
  {
    assert before + x + a + y + b + z + c == (before + x) + a + y + b + z + c + "";
    ThreeFound(whole, before + x, |before + x|, a, y, b, z, c, "");
    assert before == (before + x)[..at];
  }

  /** A date is printed year first, each number at its place, with these texts between and behind. */
  predicate ShowsDate(s: string, t: Stamp, a: string, b: string, c: string) {
    var i := 4 + |a|;
    var j := i + 2 + |b|;
    && j + 2 + |c| <= |s|
    && s[..4] == Field(t.year, 4) && s[4..i] == a && s[i..i + 2] == Field(t.month, 2)
    && s[i + 2..j] == b && s[j..j + 2] == Field(t.day, 2) && s[j + 2..j + 2 + |c|] == c
  }

  /** A time is printed from position `at` on, hour first, with these texts between and behind. */
  predicate ShowsTime(s: string, at: nat, t: Stamp, d: string, e: string, f: string) {
    var i := at + 2 + |d|;
    var j := i + 2 + |e|;
    && j + 2 + |f| == |s|
    && s[at..at + 2] == Field(t.hour, 2) && s[at + 2..i] == d && s[i..i + 2] == Field(t.minute, 2)
    && s[i + 2..j] == e && s[j..j + 2] == Field(t.second, 2) && s[j + 2..] == f
  }

  /** Three texts in a row, with others between and behind, stand where their lengths say. */
  lemma ThreeShown(s: string, before: string, x: string, a: string, y: string, b: string, z: string, c: string)
    requires before + x + a + y + b + z + c <= s
    ensures before <= s
    ensures var at := |before| + |x|;
            var i := at + |a|;
            var j := i + |y| + |b|;
            && j + |z| + |c| <= |s|
            && s[|before|..at] == x && s[at..i] == a && s[i..i + |y|] == y
            && s[i + |y|..j] == b && s[j..j + |z|] == z && s[j + |z|..j + |z| + |c|] == c
  {
    ThreeFound(s, before, |before|, x, a, y, b, z, c);
    SeparatorsFound(s, before, |before|, x, a, y, b, z, c);
  }

  lemma ThreeShownFirst(s: string, x: string, a: string, y: string, b: string, z: string, c: string)
    requires x + a + y + b + z + c <= s
    ensures var i := |x| + |a|;
            var j := i + |y| + |b|;
            && j + |z| + |c| <= |s|
            && s[..|x|] == x && s[|x|..i] == a && s[i..i + |y|] == y
            && s[i + |y|..j] == b && s[j..j + |z|] == z && s[j + |z|..j + |z| + |c|] == c
  {
    assert "" + x == x;
    ThreeShown(s, "", x, a, y, b, z, c);
  }

  lemma DateShown(s: string, t: Stamp, a: string, b: string, c: string)
    requires t.FitsDate()
    requires Field(t.year, 4) + a + Field(t.month, 2) + b + Field(t.day, 2) + c <= s
    ensures ShowsDate(s, t, a, b, c)
  {
    ReadDate(t);
    ThreeShownFirst(s, Field(t.year, 4), a, Field(t.month, 2), b, Field(t.day, 2), c);
  }

  lemma TimeShown(s: string, date: string, t: Stamp, d: string, e: string, f: string)
    requires FitsWidth(t.hour, 2) && FitsWidth(t.minute, 2) && FitsWidth(t.second, 2)
    requires s == date + Field(t.hour, 2) + d + Field(t.minute, 2) + e + Field(t.second, 2) + f
    ensures date <= s && ShowsTime(s, |date|, t, d, e, f)
  {
    FieldReadBack(t.hour, 2);
    FieldReadBack(t.minute, 2);
    FieldReadBack(t.second, 2);
    ThreeShown(s, date, Field(t.hour, 2), d, Field(t.minute, 2), e, Field(t.second, 2), f);
  }

  lemma BothShown(t: Stamp, date: string, a: string, b: string, c: string, d: string, e: string, f: string)
    requires t.Fits()
    requires date == Field(t.year, 4) + a + Field(t.month, 2) + b + Field(t.day, 2) + c
    ensures var s := date + Field(t.hour, 2) + d + Field(t.minute, 2) + e + Field(t.second, 2) + f;
            ShowsDate(s, t, a, b, c) && |date| == 8 + |a| + |b| + |c| && ShowsTime(s, |date|, t, d, e, f)
  {
    var s := date + Field(t.hour, 2) + d + Field(t.minute, 2) + e + Field(t.second, 2) + f;
    ReadDate(t);
    TimeShown(s, date, t, d, e, f);
    DateShown(s, t, a, b, c);
  }

  /** The text of each date-time format, for numbers that fit: which characters stand where. */
  lemma DateTimeTexts(t: Stamp)
    requires t.Fits()
    ensures ShowsDate(CompactText(t), t, "", "", "") && ShowsTime(CompactText(t), 8, t, "", "", "")
    ensures ShowsDate(DashedText(t), t, "-", "-", " ") && ShowsTime(DashedText(t), 11, t, ":", ":", "")
    ensures ShowsDate(Custom1Text(t), t, "y ", "m ", "y - ") && ShowsTime(Custom1Text(t), 16, t, "h ", "m ", "s")
  {
    NoSeparators(t);
    BothShown(t, Field(t.year, 4) + "" + Field(t.month, 2) + "" + Field(t.day, 2) + "", "", "", "", "", "", "");
    BothShown(t, Field(t.year, 4) + "-" + Field(t.month, 2) + "-" + Field(t.day, 2) + " ", "-", "-", " ", ":", ":", "");
    assert DashedText(t) + "" == DashedText(t);
    BothShown(t, Field(t.year, 4) + "y " + Field(t.month, 2) + "m " + Field(t.day, 2) + "y - ",
              "y ", "m ", "y - ", "h ", "m ", "s");
  }

  /** The same for the formats that print the date only, and nothing behind it. */
  lemma DateTexts(t: Stamp)
    requires t.FitsDate()
    ensures ShowsDate(CompactDateText(t), t, "", "", "") && |CompactDateText(t)| == 8
    ensures ShowsDate(SlashDateText(t), t, "/", "/", "") && |SlashDateText(t)| == 10
    ensures ShowsDate(DashDateText(t), t, "-", "-", "") && |DashDateText(t)| == 10
  {
    ReadDate(t);
    var x, y := Field(t.year, 4), Field(t.month, 2);
    assert x + "" + y + "" + Field(t.day, 2) + "" == CompactDateText(t) by {
      assert x + "" == x && (x + y) + "" == x + y;
    }
    DateShown(CompactDateText(t), t, "", "", "");
    assert SlashDateText(t) + "" == SlashDateText(t) && DashDateText(t) + "" == DashDateText(t);
    DateShown(SlashDateText(t), t, "/", "/", "");
    DateShown(DashDateText(t), t, "-", "-", "");
  }

  // ---------- reading back ----------

  /** Reading back what was printed gives the same six numbers exactly when they fit their widths. */
  lemma CompactRoundTrip(t: Stamp)
    ensures (Sprintf(CompactText(t)).Some? && ParseCompact(CompactText(t)) == t) <==> t.Fits()
  {
    var s := CompactText(t);
    if t.Fits() {
      SixFound(t, "", "", "", "", "", "");
      NoSeparators(t);
    } else {
      NumberFits(s, 0, 4);
      NumberFits(s, 4, 2);
      NumberFits(s, 6, 2);
      NumberFits(s, 8, 2);
      NumberFits(s, 10, 2);
      NumberFits(s, 12, 2);
    }
  }

  lemma NoSeparators(t: Stamp)
    ensures Field(t.year, 4) + "" + Field(t.month, 2) + "" + Field(t.day, 2) + ""
            + Field(t.hour, 2) + "" + Field(t.minute, 2) + "" + Field(t.second, 2) + "" == CompactText(t)
  {
    assert Field(t.year, 4) + "" == Field(t.year, 4);
    var p2 := Field(t.year, 4) + Field(t.month, 2);
    assert p2 + "" == p2;
    var p3 := p2 + Field(t.day, 2);
    assert p3 + "" == p3;
    var p4 := p3 + Field(t.hour, 2);
    assert p4 + "" == p4;
    var p5 := p4 + Field(t.minute, 2);
    assert p5 + "" == p5;
    assert CompactText(t) + "" == CompactText(t);
  }

  lemma Custom1RoundTrip(t: Stamp)
    ensures (Sprintf(Custom1Text(t)).Some? && ParseCustom1(Custom1Text(t)) == t) <==> t.Fits()
  {
    var s := Custom1Text(t);
    if t.Fits() {
      SixFound(t, "y ", "m ", "y - ", "h ", "m ", "s");
    } else {
      NumberFits(s, 0, 4);
      NumberFits(s, 6, 2);
      NumberFits(s, 10, 2);
      NumberFits(s, 16, 2);
      NumberFits(s, 20, 2);
      NumberFits(s, 24, 2);
    }
  }

  /** The dashed date-time format does not read its own output: of all numbers it can print, it gives
      back only the six zeros. */
  lemma DashedOwnOutput(t: Stamp)
    ensures t.Fits() ==> |DashedText(t)| == 19 && ParseDashed(DashedText(t)) == ZERO
    ensures ParseDashed(DashedText(t)) == t <==> t == ZERO
  {
    var s := DashedText(t);
    if t.Fits() {
      SixFound(t, "-", "-", " ", ":", ":", "");
      assert s + "" == s;
    } else if |s| > 19 {
      NumberFits(s, 0, 4);
      NumberFits(s, 5, 2);
      NumberFits(s, 8, 2);
      NumberFits(s, 11, 2);
      NumberFits(s, 14, 2);
      NumberFits(s, 17, 2);
    }
  }

  /** With anything at all behind its output, the round trip holds for exactly the numbers that fit. */
  lemma DashedWithMoreRoundTrip(t: Stamp, more: string)
    requires more != ""
    ensures ParseDashed(DashedText(t) + more) == t <==> t.Fits()
  {
    var s := DashedText(t) + more;
    if t.Fits() {
      SixFound(t, "-", "-", " ", ":", ":", more);
    } else {
      NumberFits(s, 0, 4);
      NumberFits(s, 5, 2);
      NumberFits(s, 8, 2);
      NumberFits(s, 11, 2);
      NumberFits(s, 14, 2);
      NumberFits(s, 17, 2);
    }
  }

  /** The date-only formats give the date back, with the time set to zero, exactly when the date fits. */
  lemma CompactDateRoundTrip(t: Stamp)
    ensures (Sprintf(CompactDateText(t)).Some? && ParseCompactDate(CompactDateText(t)) == t.Date()) <==> t.FitsDate()
  {
    var s := CompactDateText(t);
    if t.FitsDate() {
      var x := Field(t.year, 4);
      assert "" + x + "" + Field(t.month, 2) + "" + Field(t.day, 2) + "" == s by {
        assert "" + x + "" == x;
        assert x + Field(t.month, 2) + "" == x + Field(t.month, 2);
      }
      ReadDate(t);
      ThreeFound(s, "", 0, x, "", Field(t.month, 2), "", Field(t.day, 2), "");
    } else {
      NumberFits(s, 0, 4);
      NumberFits(s, 4, 2);
      NumberFits(s, 6, 2);
    }
  }

  lemma SlashDateRoundTrip(t: Stamp)
    ensures (Sprintf(SlashDateText(t)).Some? && ParseSlashDate(SlashDateText(t)) == t.Date()) <==> t.FitsDate()
  {
    var s := SlashDateText(t);
    if t.FitsDate() {
      assert "" + Field(t.year, 4) == Field(t.year, 4) && s + "" == s;
      ReadDate(t);
      ThreeFound(s, "", 0, Field(t.year, 4), "/", Field(t.month, 2), "/", Field(t.day, 2), "");
    } else {
      NumberFits(s, 0, 4);
      NumberFits(s, 5, 2);
      NumberFits(s, 8, 2);
    }
  }

  lemma DashDateRoundTrip(t: Stamp)
    ensures (Sprintf(DashDateText(t)).Some? && ParseDashDate(DashDateText(t)) == t.Date()) <==> t.FitsDate()
  {
    var s := DashDateText(t);
    if t.FitsDate() {
      assert "" + Field(t.year, 4) == Field(t.year, 4) && s + "" == s;
      ReadDate(t);
      ThreeFound(s, "", 0, Field(t.year, 4), "-", Field(t.month, 2), "-", Field(t.day, 2), "");
    } else {
      NumberFits(s, 0, 4);
      NumberFits(s, 5, 2);
      NumberFits(s, 8, 2);
    }
  }

  // ---------- order ----------

  /** Year first, then month, and so on down to the second. */
  predicate Earlier(t: Stamp, u: Stamp) {
    || t.year < u.year
    || (t.year == u.year && t.month < u.month)
    || (t.year == u.year && t.month == u.month && t.day < u.day)
    || (t.Date() == u.Date() && t.hour < u.hour)
    || (t.Date() == u.Date() && t.hour == u.hour && t.minute < u.minute)
    || (t.Date() == u.Date() && t.hour == u.hour && t.minute == u.minute && t.second < u.second)
  }

  /** Two texts of one length compare as the numbers `x` and `y` behind them do. */
  predicate Compares(a: string, b: string, less: bool, same: bool) {
    |a| == |b| && (Before(a, b) <==> less) && (a == b <==> same)
  }

  /** One more field behind such texts decides between them when they are equal. */
  lemma ThenField(a: string, b: string, less: bool, same: bool, m: nat, n: nat, w: nat)
    requires Compares(a, b, less, same)
    requires w >= 1 && FitsWidth(m, w) && FitsWidth(n, w)
    ensures Compares(a + Field(m, w), b + Field(n, w), less || (same && m < n), same && m == n)
  {
    FieldWidth(m, w);
    FieldWidth(n, w);
    PaddedOrder(m, n, w);
    BeforeInParts(a, Field(m, w), b, Field(n, w));
    var s, t := a + Field(m, w), b + Field(n, w);
    assert s[..|a|] == a && t[..|b|] == b && s[|a|..] == Field(m, w) && t[|b|..] == Field(n, w);
  }

  /** The same separator behind both changes nothing. */
  lemma ThenSeparator(a: string, b: string, less: bool, same: bool, c: string)
    requires Compares(a, b, less, same)
    ensures Compares(a + c, b + c, less, same)
  {
    BeforeInParts(a, c, b, c);
    NotBeforeItself(c);
    assert (a + c)[..|a|] == a && (b + c)[..|b|] == b;
  }

  /** Printing keeps order: for numbers that fit and are not negative, comparing the printed texts as
      strings is comparing the times. */
  lemma CompactKeepsOrder(t: Stamp, u: Stamp)
    requires t.Fits() && t.NonNegative() && u.Fits() && u.NonNegative()
    ensures Before(CompactText(t), CompactText(u)) <==> Earlier(t, u)
  {
    DateOrder(t, u, "", "", "");
    var a, b := Field(t.year, 4) + "" + Field(t.month, 2) + "" + Field(t.day, 2) + "",
                Field(u.year, 4) + "" + Field(u.month, 2) + "" + Field(u.day, 2) + "";
    TimeOrder(t, u, a, b, "", "");
    NoSeparators(t);
    NoSeparators(u);
    var s := a + Field(t.hour, 2) + "" + Field(t.minute, 2) + "" + Field(t.second, 2);
    var r := b + Field(u.hour, 2) + "" + Field(u.minute, 2) + "" + Field(u.second, 2);
    assert s + "" == s && r + "" == r;
  }

  lemma DashedKeepsOrder(t: Stamp, u: Stamp)
    requires t.Fits() && t.NonNegative() && u.Fits() && u.NonNegative()
    ensures Before(DashedText(t), DashedText(u)) <==> Earlier(t, u)
  {
    DateOrder(t, u, "-", "-", " ");
    var a, b := Field(t.year, 4) + "-" + Field(t.month, 2) + "-" + Field(t.day, 2) + " ",
                Field(u.year, 4) + "-" + Field(u.month, 2) + "-" + Field(u.day, 2) + " ";
    TimeOrder(t, u, a, b, ":", ":");
  }

  predicate EarlierDate(t: Stamp, u: Stamp) {
    Earlier(t.Date(), u.Date())
  }

  lemma DateOrder(t: Stamp, u: Stamp, a: string, b: string, c: string)
    requires t.Fits() && t.NonNegative() && u.Fits() && u.NonNegative()
    ensures Compares(Field(t.year, 4) + a + Field(t.month, 2) + b + Field(t.day, 2) + c,
                     Field(u.year, 4) + a + Field(u.month, 2) + b + Field(u.day, 2) + c,
                     EarlierDate(t, u), t.Date() == u.Date())
  {
    var l1, s1 := t.year < u.year, t.year == u.year;
    ThenField("", "", false, true, t.year, u.year, 4);
    var x1, y1 := Field(t.year, 4), Field(u.year, 4);
    assert "" + x1 == x1 && "" + y1 == y1;
    ThenSeparator(x1, y1, l1, s1, a);
    ThenField(x1 + a, y1 + a, l1, s1, t.month, u.month, 2);
    var l2, s2 := l1 || (s1 && t.month < u.month), s1 && t.month == u.month;
    var x2, y2 := x1 + a + Field(t.month, 2), y1 + a + Field(u.month, 2);
    ThenSeparator(x2, y2, l2, s2, b);
    ThenField(x2 + b, y2 + b, l2, s2, t.day, u.day, 2);
    var l3, s3 := l2 || (s2 && t.day < u.day), s2 && t.day == u.day;
    ThenSeparator(x2 + b + Field(t.day, 2), y2 + b + Field(u.day, 2), l3, s3, c);
  }

  lemma TimeOrder(t: Stamp, u: Stamp, x: string, y: string, d: string, e: string)
    requires t.Fits() && t.NonNegative() && u.Fits() && u.NonNegative()
    requires Compares(x, y, EarlierDate(t, u), t.Date() == u.Date())
    ensures Earlier(t, u) <==>
            Before(x + Field(t.hour, 2) + d + Field(t.minute, 2) + e + Field(t.second, 2),
                   y + Field(u.hour, 2) + d + Field(u.minute, 2) + e + Field(u.second, 2))
  {
    var l0, s0 := EarlierDate(t, u), t.Date() == u.Date();
    ThenField(x, y, l0, s0, t.hour, u.hour, 2);
    var l1, s1 := l0 || (s0 && t.hour < u.hour), s0 && t.hour == u.hour;
    var x1, y1 := x + Field(t.hour, 2), y + Field(u.hour, 2);
    ThenSeparator(x1, y1, l1, s1, d);
    ThenField(x1 + d, y1 + d, l1, s1, t.minute, u.minute, 2);
    var l2, s2 := l1 || (s1 && t.minute < u.minute), s1 && t.minute == u.minute;
    var x2, y2 := x1 + d + Field(t.minute, 2), y1 + d + Field(u.minute, 2);
    ThenSeparator(x2, y2, l2, s2, e);
    ThenField(x2 + e, y2 + e, l2, s2, t.second, u.second, 2);
  }
}
