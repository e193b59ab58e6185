/** The photo file name `IMG_<yyyyMMdd_HHmmss>.jpg`, formatted from the local
    wall-clock time with second granularity, and a parser that recovers the
    time from it. */
module PhotoFileName {

  import opened Wrappers

  /** A local calendar time as the date formatter sees it. */
  datatype Timestamp = Timestamp(year: nat, month: nat, day: nat, hour: nat, minute: nat, second: nat)

  /** The ranges the formatter's fields take on a real clock; a year of at
      most four digits keeps the name at its usual width. */
  predicate ValidTimestamp(t: Timestamp)
  {
    && t.year <= 9999
    && 1 <= t.month <= 12
    && 1 <= t.day <= 31
    && t.hour <= 23
    && t.minute <= 59
    && t.second <= 60
  }

  function DigitChar(d: nat): (ch: char)
    requires d < 10
    ensures '0' <= ch <= '9'
  {
    ('0' as int + d) as char
  }

  function DigitValue(ch: char): Option<nat>
  {
    if '0' <= ch <= '9' then Some(ch as int - '0' as int) else None
  }

  /** Decimal digits of `n`, most significant first, left-padded with zeros
      to at least `width` characters, as a numeric date field is printed. */
  function Padded(n: nat, width: nat): (s: string)
    ensures |s| >= width
    decreases n, width
  {
    if n == 0 && width == 0 then ""
    else Padded(n / 10, if width == 0 then 0 else width - 1) + [DigitChar(n % 10)]
  }

  function Pow10(k: nat): (p: nat)
    ensures p >= 1
  {
    if k == 0 then 1 else 10 * Pow10(k - 1)
  }

  /** A field whose value fits in its width is printed at exactly that width. */
  lemma {:induction false} PaddedLength(n: nat, width: nat)
    requires n < Pow10(width)
    ensures |Padded(n, width)| == width
    decreases width
  {
    if width > 0 {
      PaddedLength(n / 10, width - 1);
    }
  }

  /** Reads a run of decimal digits back into a number. */
  function ParseDigits(s: string): Option<nat>
  {
    if |s| == 0 then Some(0)
    else match (ParseDigits(s[..|s| - 1]), DigitValue(s[|s| - 1]))
      case (Some(hi), Some(d)) => Some(10 * hi + d)
      case _ => None
  }

  lemma {:induction false} ParsePadded(n: nat, width: nat)
    ensures ParseDigits(Padded(n, width)) == Some(n)
    decreases n, width
  {
    if n == 0 && width == 0 {
    } else {
      var w' := if width == 0 then 0 else width - 1;
      var rest := Padded(n / 10, w');
      var last := DigitChar(n % 10);
      assert Padded(n, width) == rest + [last];
      ParsePadded(n / 10, w');
      ParseAppendDigit(rest, n / 10, n % 10);
    }
  }

  /** One more digit on the right multiplies the value read so far by ten
      and adds the digit. */
  lemma ParseAppendDigit(rest: string, hi: nat, d: nat)
    requires d < 10 && ParseDigits(rest) == Some(hi)
    ensures ParseDigits(rest + [DigitChar(d)]) == Some(10 * hi + d)
  {
    var s := rest + [DigitChar(d)];
    assert s[..|s| - 1] == rest;
    assert DigitValue(DigitChar(d)) == Some(d);
  }

  /** The name the capture flow gives a photo taken at local time `t`. */
  function Format(t: Timestamp): (name: string)
    ensures |name| >= 23 && name[..4] == "IMG_" && name[|name| - 4..] == ".jpg"
    ensures ValidTimestamp(t) ==> |name| == 23
  {
    var date := Padded(t.year, 4) + Padded(t.month, 2) + Padded(t.day, 2);
    var time := Padded(t.hour, 2) + Padded(t.minute, 2) + Padded(t.second, 2);
    if ValidTimestamp(t) then
      PaddedLength(t.year, 4);
      PaddedLength(t.month, 2);
      PaddedLength(t.day, 2);
      PaddedLength(t.hour, 2);
      PaddedLength(t.minute, 2);
      PaddedLength(t.second, 2);
      Framed(date, time)
    else
      Framed(date, time)
  }

  /** The date and time fields between the fixed prefix, separator and
      extension. */
  function Framed(date: string, time: string): (name: string)
    ensures |name| == |date| + |time| + 9
    ensures name[..4] == "IMG_" && name[|name| - 4..] == ".jpg" && name[4 + |date|] == '_'
  {
    "IMG_" + date + "_" + time + ".jpg"
  }

  /** Recovers the timestamp from a name of the form `Format` produces. */
  function Parse(name: string): Option<Timestamp>
  {
    if |name| != 23 || name[..4] != "IMG_" || name[12] != '_' || name[19..] != ".jpg" then None
    else match (ParseDigits(name[4..8]), ParseDigits(name[8..10]), ParseDigits(name[10..12]),
                ParseDigits(name[13..15]), ParseDigits(name[15..17]), ParseDigits(name[17..19]))
      case (Some(y), Some(mo), Some(d), Some(h), Some(mi), Some(s)) => Some(Timestamp(y, mo, d, h, mi, s))
      case _ => None
  }

  /** Every name is 23 characters with the fixed prefix, separator and
      extension, and parsing it gives back the time it was made from. */
  lemma {:induction false} FormatParseRoundTrip(t: Timestamp)
    requires ValidTimestamp(t)
    ensures |Format(t)| == 23
    ensures Format(t)[..4] == "IMG_" && Format(t)[12] == '_' && Format(t)[19..] == ".jpg"
    ensures Parse(Format(t)) == Some(t)
  {
    assert Pow10(2) == 100 && Pow10(4) == 10000 by {
      assert Pow10(1) == 10;
      assert Pow10(3) == 1000;
    }
    PaddedLength(t.year, 4);
    PaddedLength(t.month, 2);
    PaddedLength(t.day, 2);
    PaddedLength(t.hour, 2);
    PaddedLength(t.minute, 2);
    PaddedLength(t.second, 2);
    var y, mo, d := Padded(t.year, 4), Padded(t.month, 2), Padded(t.day, 2);
    var h, mi, s := Padded(t.hour, 2), Padded(t.minute, 2), Padded(t.second, 2);
    assert |y| == 4 && |mo| == 2 && |d| == 2 && |h| == 2 && |mi| == 2 && |s| == 2;
    var name := Format(t);
    assert name == "IMG_" + (y + mo + d) + "_" + (h + mi + s) + ".jpg";
    SliceFields(name, y, mo, d, h, mi, s);
    ParsePadded(t.year, 4);
    ParsePadded(t.month, 2);
    ParsePadded(t.day, 2);
    ParsePadded(t.hour, 2);
    ParsePadded(t.minute, 2);
    ParsePadded(t.second, 2);
  }

  lemma SliceFields(name: string, y: string, mo: string, d: string, h: string, mi: string, s: string)
    requires |y| == 4 && |mo| == 2 && |d| == 2 && |h| == 2 && |mi| == 2 && |s| == 2
    requires name == "IMG_" + (y + mo + d) + "_" + (h + mi + s) + ".jpg"
    ensures |name| == 23
    ensures name[..4] == "IMG_" && name[12] == '_' && name[19..] == ".jpg"
    ensures name[4..8] == y && name[8..10] == mo && name[10..12] == d
    ensures name[13..15] == h && name[15..17] == mi && name[17..19] == s
  {
  }

  /** Names collide exactly when the two captures read the same local
      wall-clock second: there is no counter to tell them apart. */
  lemma SameNameIffSameSecond(t1: Timestamp, t2: Timestamp)
    requires ValidTimestamp(t1) && ValidTimestamp(t2)
    ensures Format(t1) == Format(t2) <==> t1 == t2
  {
    FormatParseRoundTrip(t1);
    FormatParseRoundTrip(t2);
  }
}
