/** The format-driven date parser: its number scanner, and the round trip of dates and times. */
module Strptime {
  import opened Bytes

  const TM_YEAR_BASE: int := 1900

  /** The fields of a date; `split` says that a part of the year was read by the current call. */
  datatype Tm = Tm(sec: int, min: int, hour: int, mday: int, mon: int, year: int, wday: int, yday: int, split: bool)

  predicate Digit(s: string, i: nat) {
    i < |s| && '0' <= s[i] <= '9'
  }

  function DigitValue(s: string, i: nat): nat
    requires Digit(s, i)
  {
    s[i] as int - '0' as int
  }

  function Value(s: string, n: nat): nat
    requires n <= |s| && forall i :: 0 <= i < n ==> Digit(s, i)
  {
    if n == 0 then 0 else 10 * Value(s, n - 1) + DigitValue(s, n - 1)
  }

  /** How many decimal digits a limit has. */
  function Width(ulim: nat): nat {
    if ulim < 10 then 1 else 1 + Width(ulim / 10)
  }

  /** The rest of the scan, after i digits with value `result`; `rulim` counts the digits left. */
  function Scan(s: string, i: nat, result: nat, rulim: nat, ulim: nat): (r: (nat, nat))
    requires i <= |s|
    ensures i <= r.1 <= |s|
    decreases |s| - i
  {
    if result * 10 <= ulim && rulim != 0 && Digit(s, i)
    then Scan(s, i + 1, 10 * result + DigitValue(s, i), rulim / 10, ulim)
    else (result, i)
  }

  /** The value of the number at the start of the text and the number of characters it took. */
  function Conv(s: string, llim: nat, ulim: nat): Option<(nat, nat)> {
    if !Digit(s, 0) then None
    else
      var (result, i) := Scan(s, 1, DigitValue(s, 0), ulim / 10, ulim);
      if result < llim || result > ulim then None else Some((result, i))
  }

  /** `conv_num`. */
  method ConvNum(s: string, llim: nat, ulim: nat) returns (r: Option<(nat, nat)>)
    ensures r == Conv(s, llim, ulim)
  {
    if !Digit(s, 0) {
      return None;
    }
    var result: nat, i: nat, rulim: nat := DigitValue(s, 0), 1, ulim / 10;
    while result * 10 <= ulim && rulim != 0 && Digit(s, i)
      invariant i <= |s| && Scan(s, i, result, rulim, ulim) == Scan(s, 1, DigitValue(s, 0), ulim / 10, ulim)
      decreases |s| - i
    {
      result, i, rulim := 10 * result + DigitValue(s, i), i + 1, rulim / 10;
    }
    if result < llim || result > ulim {
      return None;
    }
    return Some((result, i));
  }

  lemma {:induction false} ScanMeans(s: string, i: nat, rulim: nat, ulim: nat)
    requires 0 < i <= |s| && forall k :: 0 <= k < i ==> Digit(s, k)
    ensures var r := Scan(s, i, Value(s, i), rulim, ulim);
            && (forall k :: 0 <= k < r.1 ==> Digit(s, k)) && r.0 == Value(s, r.1)
            && r.1 <= i + (if rulim == 0 then 0 else Width(rulim))
    decreases |s| - i
  {
    if Value(s, i) * 10 <= ulim && rulim != 0 && Digit(s, i) {
      ScanMeans(s, i + 1, rulim / 10, ulim);
    }
  }

  /**
   A number that is accepted is within its limits, is what its digits
   say, and has no more digits than the upper limit.
   */
  lemma ConvMeans(s: string, llim: nat, ulim: nat)
    requires Conv(s, llim, ulim).Some?
    ensures var (v, n) := Conv(s, llim, ulim).value;
            && llim <= v <= ulim && 1 <= n <= |s| && n <= Width(ulim)
            && (forall k :: 0 <= k < n ==> Digit(s, k)) && v == Value(s, n)
  {
    assert Value(s, 1) == DigitValue(s, 0);
    ScanMeans(s, 1, ulim / 10, ulim);
  }

  // Formats.

  predicate Space(s: string) {
    s != [] && (s[0] == ' ' || 9 <= s[0] as int <= 13)
  }

  function SkipSpace(s: string): string {
    if Space(s) then SkipSpace(s[1..]) else s
  }

  /** A parse stops with the text that is left and the fields filled so far. */
  type Parsed = Option<(string, Tm)>

  // Division and remainder that truncate towards zero.
  function Quotient(x: int): int { if x >= 0 then x / 100 else -(-x / 100) }
  function Remainder(x: int): int { x - 100 * Quotient(x) }

  /** The limits of a numeric conversion. */
  function Limits(c: char): Option<(nat, nat)> {
    match c
    case 'Y' => Some((0, 9999))
    case 'C' => Some((0, 99))
    case 'y' => Some((0, 99))
    case 'm' => Some((1, 12))
    case 'd' => Some((1, 31))
    case 'e' => Some((1, 31))
    case 'H' => Some((0, 23))
    case 'k' => Some((0, 23))
    case 'I' => Some((1, 12))
    case 'l' => Some((1, 12))
    case 'M' => Some((0, 59))
    case 'S' => Some((0, 61))
    case 'j' => Some((1, 366))
    case 'U' => Some((0, 53))
    case 'W' => Some((0, 53))
    case 'V' => Some((0, 53))
    case 'w' => Some((0, 6))
    case 'u' => Some((1, 7))
    case 'g' => Some((0, 99))
    case _ => None
  }

  /** What a numeric conversion does with its number; week numbers are only checked. */
  function Put(c: char, i: int, tm: Tm): Tm {
    match c
    case 'Y' => tm.(year := i - TM_YEAR_BASE)
    case 'C' => tm.(year := i * 100 - TM_YEAR_BASE + (if tm.split then Remainder(tm.year) else 0), split := true)
    case 'y' =>
      if tm.split then tm.(year := i + Quotient(tm.year) * 100)
      else tm.(year := i + (if i <= 68 then 2000 else 1900) - TM_YEAR_BASE, split := true)
    case 'm' => tm.(mon := i - 1)
    case 'd' => tm.(mday := i)
    case 'e' => tm.(mday := i)
    case 'H' => tm.(hour := i)
    case 'k' => tm.(hour := i)
    case 'I' => tm.(hour := if i == 12 then 0 else i)
    case 'l' => tm.(hour := if i == 12 then 0 else i)
    case 'M' => tm.(min := i)
    case 'S' => tm.(sec := i)
    case 'j' => tm.(yday := i - 1)
    case 'w' => tm.(wday := i)
    case 'u' => tm.(wday := i % 7)
    case _ => tm
  }

  // Names.

  const DAYS := ["sunday", "monday", "tuesday", "wednesday", "thursday", "friday", "saturday"]
  const SHORT_DAYS := ["sun", "mon", "tue", "wed", "thu", "fri", "sat"]
  const MONTHS := ["january", "february", "march", "april", "may", "june", "july", "august",
                   "september", "october", "november", "december"]
  const SHORT_MONTHS := ["jan", "feb", "mar", "apr", "may", "jun", "jul", "aug", "sep", "oct", "nov", "dec"]
  const AM_PM := ["am", "pm"]

  function Lower(c: char): char { if 'A' <= c <= 'Z' then (c as int + 32) as char else c }

  /** The text starts with the name, whatever the case of its letters. */
  predicate StartsWith(s: string, name: string) {
    |name| <= |s| && forall k :: 0 <= k < |name| ==> Lower(s[k]) == Lower(name[k])
  }

  /** The first name of the list, from position i, that the text starts with. */
  function FirstName(s: string, names: seq<string>, i: nat): (r: Option<nat>)
    requires i <= |names|
    ensures r.Some? ==> i <= r.value < |names| && StartsWith(s, names[r.value])
    ensures forall j :: i <= j < (if r.Some? then r.value else |names|) ==> !StartsWith(s, names[j])
    decreases |names| - i
  {
    if i == |names| then None else if StartsWith(s, names[i]) then Some(i) else FirstName(s, names, i + 1)
  }

  /** `find_string`: full names first, then short ones; the index of the name and its length. */
  method FindString(s: string, full: seq<string>, short: seq<string>) returns (r: Option<(nat, nat)>)
    ensures r == NameOf(s, full, short)
  {
    var lists := [full, short];
    var k := 0;
    while k < 2
      invariant 0 <= k <= 2 && (k > 0 ==> FirstName(s, full, 0).None?) && (k > 1 ==> FirstName(s, short, 0).None?)
    {
      var i := 0;
      while i < |lists[k]|
        invariant 0 <= i <= |lists[k]| && FirstName(s, lists[k], 0) == FirstName(s, lists[k], i)
      {
        if StartsWith(s, lists[k][i]) {
          return Some((i, |lists[k][i]|));
        }
        i := i + 1;
      }
      k := k + 1;
    }
    return None;
  }

  function NameOf(s: string, full: seq<string>, short: seq<string>): Option<(nat, nat)> {
    var f, g := FirstName(s, full, 0), FirstName(s, short, 0);
    if f.Some? then Some((f.value, |full[f.value]|)) else if g.Some? then Some((g.value, |short[g.value]|)) else None
  }

  /** A conversion by name: the lists and what is done with the index; an hour above 11 has no half of the day. */
  function Named(c: char, s: string, tm: Tm): Parsed {
    var r := if c == 'A' || c == 'a' then NameOf(s, DAYS, SHORT_DAYS)
             else if c == 'B' || c == 'b' || c == 'h' then NameOf(s, MONTHS, SHORT_MONTHS)
             else if c == 'p' then NameOf(s, AM_PM, [])
             else None;
    if r.None? || r.value.1 > |s| then None
    else
      var (i, n) := r.value;
      match c
      case 'A' => Some((s[n..], tm.(wday := i)))
      case 'a' => Some((s[n..], tm.(wday := i)))
      case 'p' => if tm.hour > 11 then None else Some((s[n..], tm.(hour := tm.hour + i * 12)))
      case _ => Some((s[n..], tm.(mon := i)))
  }

  // Conversions.

  const ALT_E: nat := 1
  const ALT_O: nat := 2

  /** Which modifier a conversion allows; three conversions do not look. */
  predicate Legal(c: char, alt: nat) {
    || alt == 0 || c in "ygV"
    || (alt == ALT_E && c in "CY")
    || (alt == ALT_O && c in "deHIMmSUWwu")
  }

  /** One conversion that is not a composite one. */
  function Element(c: char, alt: nat, s: string, tm: Tm): Parsed {
    if !Legal(c, alt) then None
    else if Limits(c).Some? then
      var r := Conv(s, Limits(c).value.0, Limits(c).value.1);
      if r.None? || r.value.1 > |s| then None else Some((s[r.value.1..], Put(c, r.value.0, tm)))
    else if c == '%' then (if s != [] && s[0] == '%' then Some((s[1..], tm)) else None)
    else if c == 'n' || c == 't' then Some((SkipSpace(s), tm))
    else Named(c, s, tm)
  }

  /** The format that a composite conversion stands for; it holds elementary conversions only. */
  function Composite(c: char): Option<string> {
    match c
    case 'D' => Some("%m/%d/%y")
    case 'F' => Some("%Y-%m-%d")
    case 'R' => Some("%H:%M")
    case 'r' => Some("%I:%M:S %p")
    case 'T' => Some("%H:%M:%S")
    case _ => None
  }

  /** The conversion at the start of a format: its letter, its modifier and how long it is. */
  function Directive(fmt: string): Option<(char, nat, nat)> {
    if |fmt| < 2 then None
    else if fmt[1] == 'E' || fmt[1] == 'O' then
      if |fmt| < 3 || fmt[2] == 'E' || fmt[2] == 'O' then None
      else Some((fmt[2], if fmt[1] == 'E' then ALT_E else ALT_O, 3))
    else Some((fmt[1], 0, 2))
  }

  /** A conversion: composite ones are parsed by a call of their own, which has its own view of the year's parts. */
  function Convert(c: char, alt: nat, s: string, tm: Tm, nest: nat): Parsed
    decreases nest, 0
  {
    if nest > 0 && Composite(c).Some? then
      if alt != 0 then None
      else
        var r := Parse(s, Composite(c).value, tm.(split := false), nest - 1);
        if r.None? then None else Some((r.value.0, r.value.1.(split := tm.split)))
    else Element(c, alt, s, tm)
  }

  /** `strptime`; composite conversions are parsed by recursion, one level deep. */
  function Parse(s: string, fmt: string, tm: Tm, nest: nat): Parsed
    decreases nest, 1 + |fmt|
  {
    if fmt == [] then Some((s, tm))
    else if Space(fmt) then Parse(SkipSpace(s), fmt[1..], tm, nest)
    else if fmt[0] != '%' then (if s != [] && s[0] == fmt[0] then Parse(s[1..], fmt[1..], tm, nest) else None)
    else if Directive(fmt).None? then None
    else
      var (c, alt, n) := Directive(fmt).value;
      var r := Convert(c, alt, s, tm, nest);
      if r.None? then None else Parse(r.value.0, fmt[n..], r.value.1, nest)
  }

  method Strptime(s: string, fmt: string, tm: Tm, nest: nat) returns (r: Parsed)
    ensures r == Parse(s, fmt, tm, nest)
    decreases nest
  {
    hide Element;
    var bp, i, t := s, 0, tm;
    while i < |fmt|
      invariant 0 <= i <= |fmt| && Parse(bp, fmt[i..], t, nest) == Parse(s, fmt, tm, nest)
    {
      assert fmt[i..][1..] == fmt[i + 1..];
      if Space(fmt[i..]) {
        bp, i := SkipSpace(bp), i + 1;
      } else if fmt[i] != '%' {
        if bp == [] || bp[0] != fmt[i] {
          return None;
        }
        bp, i := bp[1..], i + 1;
      } else {
        var d := Directive(fmt[i..]);
        if d.None? {
          return None;
        }
        var (c, alt, n) := d.value;
        assert fmt[i..][n..] == fmt[i + n..];
        var step: Parsed;
        if nest > 0 && Composite(c).Some? {
          if alt != 0 {
            return None;
          }
          step := Strptime(bp, Composite(c).value, t.(split := false), nest - 1);
          if step.Some? {
            step := Some((step.value.0, step.value.1.(split := t.split)));
          }
        } else {
          step := Element(c, alt, bp, t);
        }
        if step.None? {
          return None;
        }
        bp, t, i := step.value.0, step.value.1, i + n;
      }
    }
    return Some((bp, t));
  }

  // The round trip.

  function DigitChar(d: nat): char
    requires d < 10
  {
    (48 + d) as char
  }

  function Two(v: nat): string
    requires v < 100
  {
    [DigitChar(v / 10), DigitChar(v % 10)]
  }

  function Four(v: nat): string
    requires v < 10000
  {
    Two(v / 100) + Two(v % 100)
  }

  lemma ConvTwo(v: nat, rest: string, llim: nat, ulim: nat)
    requires llim <= v <= ulim && 10 <= ulim < 100
    ensures Conv(Two(v) + rest, llim, ulim) == Some((v, 2))
  {
    var s := Two(v) + rest;
    assert Scan(s, 2, v, 0, ulim) == (v, 2);
    assert Scan(s, 1, v / 10, ulim / 10, ulim) == Scan(s, 2, v, ulim / 10 / 10, ulim);
  }

  lemma ScanDigit(s: string, i: nat, result: nat, rulim: nat, ulim: nat, d: nat)
    requires i < |s| && d < 10 && s[i] == DigitChar(d) && result * 10 <= ulim && rulim != 0
    ensures Scan(s, i, result, rulim, ulim) == Scan(s, i + 1, 10 * result + d, rulim / 10, ulim)
  {
  }

  lemma ConvFour(v: nat, rest: string)
    requires v <= 9999
    ensures Conv(Four(v) + rest, 0, 9999) == Some((v, 4))
  {
    hide Conv;
    var p, q := v / 100, v % 100;
    ConvDigits(p / 10, p % 10, q / 10, q % 10, rest);
    assert Four(v) == [DigitChar(p / 10), DigitChar(p % 10), DigitChar(q / 10), DigitChar(q % 10)];
  }

  lemma ConvDigits(a: nat, b: nat, c: nat, d: nat, rest: string)
    requires a < 10 && b < 10 && c < 10 && d < 10
    ensures Conv([DigitChar(a), DigitChar(b), DigitChar(c), DigitChar(d)] + rest, 0, 9999)
         == Some((1000 * a + 100 * b + 10 * c + d, 4))
  {
    hide Scan;
    var s := [DigitChar(a), DigitChar(b), DigitChar(c), DigitChar(d)] + rest;
    ScanDigit(s, 1, a, 999, 9999, b);
    ScanDigit(s, 2, 10 * a + b, 99, 9999, c);
    ScanDigit(s, 3, 100 * a + 10 * b + c, 9, 9999, d);
    ScanEnd(s, 4, 1000 * a + 100 * b + 10 * c + d, 9999);
  }

  lemma ScanEnd(s: string, i: nat, result: nat, ulim: nat)
    requires i <= |s|
    ensures Scan(s, i, result, 0, ulim) == (result, i)
  {
  }

  lemma NumberIsNoModifier(c: char)
    requires Limits(c).Some?
    ensures c != 'E' && c != 'O'
  {
  }

  lemma SimpleTwo(c: char, v: nat, rest: string, fmt: string, tm: Tm)
    requires Limits(c).Some? && Limits(c).value.0 <= v <= Limits(c).value.1 && 10 <= Limits(c).value.1 < 100
    ensures Parse(Two(v) + rest, ['%', c] + fmt, tm, 0) == Parse(rest, fmt, Put(c, v, tm), 0)
  {
    hide Conv, Put, Limits;
    NumberIsNoModifier(c);
    ConvTwo(v, rest, Limits(c).value.0, Limits(c).value.1);
    assert (Two(v) + rest)[2..] == rest && (['%', c] + fmt)[2..] == fmt;
  }

  lemma SimpleFour(v: nat, rest: string, fmt: string, tm: Tm)
    requires v <= 9999
    ensures Parse(Four(v) + rest, ['%', 'Y'] + fmt, tm, 0) == Parse(rest, fmt, Put('Y', v, tm), 0)
  {
    hide Conv, Put;
    ConvFour(v, rest);
    assert (Four(v) + rest)[4..] == rest && (['%', 'Y'] + fmt)[2..] == fmt;
  }

  lemma SimpleLiteral(c: char, rest: string, fmt: string, tm: Tm)
    requires c in "-:/"
    ensures Parse([c] + rest, [c] + fmt, tm, 0) == Parse(rest, fmt, tm, 0)
  {
    hide Element;
    assert ([c] + fmt)[1..] == fmt && ([c] + rest)[1..] == rest;
  }

  lemma SimpleEnd(s: string, tm: Tm)
    ensures Parse(s, "", tm, 0) == Some((s, tm))
  {
  }

  /** A composite format of three numbers, and the text it reads. */
  function Triple(a: char, b: char, c: char, sep: char): string {
    ['%', a] + ([sep] + (['%', b] + ([sep] + (['%', c] + ""))))
  }

  function Joined(x: string, y: string, z: string, sep: char, rest: string): string {
    x + ([sep] + (y + ([sep] + (z + rest))))
  }

  /** Three numbers with separators are read one after the other. */
  lemma TripleTrip(a: char, b: char, c: char, sep: char, x: string, u: nat, v: nat, w: nat, rest: string, tm: Tm)
    requires sep in "-:/"
    requires forall rest, fmt, tm :: Parse(x + rest, ['%', a] + fmt, tm, 0) == Parse(rest, fmt, Put(a, u, tm), 0)
    requires Limits(b).Some? && Limits(b).value.0 <= v <= Limits(b).value.1 && 10 <= Limits(b).value.1 < 100
    requires Limits(c).Some? && Limits(c).value.0 <= w <= Limits(c).value.1 && 10 <= Limits(c).value.1 < 100
    ensures Parse(Joined(x, Two(v), Two(w), sep, rest), Triple(a, b, c, sep), tm, 0)
         == Some((rest, Put(c, w, Put(b, v, Put(a, u, tm)))))
  {
    hide Parse, Two, Put, Limits;
    var t1 := Put(a, u, tm);
    var t2 := Put(b, v, t1);
    var f3 := ['%', c] + "";
    var f2 := ['%', b] + ([sep] + f3);
    var s3 := Two(w) + rest;
    var s2 := Two(v) + ([sep] + s3);
    assert Parse(x + ([sep] + s2), ['%', a] + ([sep] + f2), tm, 0) == Parse([sep] + s2, [sep] + f2, t1, 0);
    SimpleLiteral(sep, s2, f2, t1);
    SimpleTwo(b, v, [sep] + s3, [sep] + f3, t1);
    SimpleLiteral(sep, s3, f3, t2);
    SimpleTwo(c, w, rest, "", t2);
    SimpleEnd(rest, Put(c, w, t2));
  }

  lemma DateTrip(y: nat, mo: nat, d: nat, rest: string, tm: Tm)
    requires y <= 9999 && 1 <= mo <= 12 && 1 <= d <= 31
    ensures Parse(Joined(Four(y), Two(mo), Two(d), '-', rest), "%Y-%m-%d", tm, 0)
         == Some((rest, Put('d', d, Put('m', mo, Put('Y', y, tm)))))
  {
    hide Parse, Four, Two, Put, Joined;
    assert Triple('Y', 'm', 'd', '-') == "%Y-%m-%d";
    hide Triple;
    forall rest, fmt, tm
      ensures Parse(Four(y) + rest, ['%', 'Y'] + fmt, tm, 0) == Parse(rest, fmt, Put('Y', y, tm), 0) {
      SimpleFour(y, rest, fmt, tm);
    }
    TripleTrip('Y', 'm', 'd', '-', Four(y), y, mo, d, rest, tm);
  }

  lemma TimeTrip(h: nat, mi: nat, se: nat, rest: string, tm: Tm)
    requires h <= 23 && mi <= 59 && se <= 61
    ensures Parse(Joined(Two(h), Two(mi), Two(se), ':', rest), "%H:%M:%S", tm, 0)
         == Some((rest, Put('S', se, Put('M', mi, Put('H', h, tm)))))
  {
    hide Parse, Two, Put, Joined;
    assert Triple('H', 'M', 'S', ':') == "%H:%M:%S";
    hide Triple;
    forall rest, fmt, tm ensures Parse(Two(h) + rest, ['%', 'H'] + fmt, tm, 0) == Parse(rest, fmt, Put('H', h, tm), 0) {
      SimpleTwo('H', h, rest, fmt, tm);
    }
    TripleTrip('H', 'M', 'S', ':', Two(h), h, mi, se, rest, tm);
  }

  lemma ParseComposite(c: char, s: string, fmt: string, tm: Tm)
    requires Composite(c).Some? && Parse(s, Composite(c).value, tm.(split := false), 0).Some?
    ensures var r := Parse(s, Composite(c).value, tm.(split := false), 0).value;
            Parse(s, ['%', c] + fmt, tm, 1) == Parse(r.0, fmt, r.1.(split := tm.split), 1)
  {
    hide Element;
    assert (['%', c] + fmt)[2..] == fmt;
  }

  lemma ParseSpace(s: string, fmt: string, tm: Tm, nest: nat)
    requires !Space(s)
    ensures Parse(" " + s, " " + fmt, tm, nest) == Parse(s, fmt, tm, nest)
  {
    assert SkipSpace(" " + s) == SkipSpace(s) == s by {
      assert (" " + s)[1..] == s;
    }
    assert (" " + s)[1..] == s && (" " + fmt)[1..] == fmt;
  }

  lemma ParseEnd(s: string, tm: Tm)
    ensures Parse(s, "", tm, 1) == Some((s, tm))
  {
  }

  function DateText(y: nat, mo: nat, d: nat): string
    requires y <= 9999 && mo < 100 && d < 100
  {
    Four(y) + "-" + Two(mo) + "-" + Two(d)
  }

  function TimeText(h: nat, mi: nat, se: nat): string
    requires h < 100 && mi < 100 && se < 100
  {
    Two(h) + ":" + Two(mi) + ":" + Two(se)
  }

  lemma Regroup(x: string, y: string, z: string, sep: char, rest: string)
    ensures x + [sep] + y + [sep] + z + rest == Joined(x, y, z, sep, rest)
  {
  }

  lemma ParseDate(y: nat, mo: nat, d: nat, rest: string, fmt: string, tm: Tm)
    requires y <= 9999 && 1 <= mo <= 12 && 1 <= d <= 31
    ensures Parse(DateText(y, mo, d) + rest, ['%', 'F'] + fmt, tm, 1)
         == Parse(rest, fmt, tm.(year := y - TM_YEAR_BASE, mon := mo - 1, mday := d), 1)
  {
    hide Parse, Joined, Four, Two;
    Regroup(Four(y), Two(mo), Two(d), '-', rest);
    DateTrip(y, mo, d, rest, tm.(split := false));
    ParseComposite('F', DateText(y, mo, d) + rest, fmt, tm);
  }

  lemma ParseTime(h: nat, mi: nat, se: nat, rest: string, fmt: string, tm: Tm)
    requires h <= 23 && mi <= 59 && se <= 61
    ensures Parse(TimeText(h, mi, se) + rest, ['%', 'T'] + fmt, tm, 1)
         == Parse(rest, fmt, tm.(hour := h, min := mi, sec := se), 1)
  {
    hide Parse, Joined, Two;
    Regroup(Two(h), Two(mi), Two(se), ':', rest);
    TimeTrip(h, mi, se, rest, tm.(split := false));
    ParseComposite('T', TimeText(h, mi, se) + rest, fmt, tm);
  }

  lemma TimeIsNoSpace(h: nat, mi: nat, se: nat)
    requires h < 100 && mi < 100 && se < 100
    ensures !Space(TimeText(h, mi, se))
  {
    assert TimeText(h, mi, se)[0] == DigitChar(h / 10);
  }

  /** Every zero-padded date and time is read back field by field, and nothing of the text is left. */
  lemma RoundTrip(y: nat, mo: nat, d: nat, h: nat, mi: nat, se: nat, tm: Tm)
    requires y <= 9999 && 1 <= mo <= 12 && 1 <= d <= 31 && h <= 23 && mi <= 59 && se <= 61
    ensures Parse(DateText(y, mo, d) + (" " + TimeText(h, mi, se)), "%F %T", tm, 1)
         == Some(("", tm.(year := y - TM_YEAR_BASE, mon := mo - 1, mday := d, hour := h, min := mi, sec := se)))
  {
    hide Parse, DateText, TimeText;
    var time, f2 := TimeText(h, mi, se), ['%', 'T'] + "";
    TimeIsNoSpace(h, mi, se);
    assert time + "" == time;
    assert ['%', 'F'] + (" " + f2) == "%F %T";
    var tm1 := tm.(year := y - TM_YEAR_BASE, mon := mo - 1, mday := d);
    ParseDate(y, mo, d, " " + time, " " + f2, tm);
    ParseSpace(time, f2, tm1, 1);
    ParseTime(h, mi, se, "", "", tm1);
    ParseEnd("", tm1.(hour := h, min := mi, sec := se));
  }

  // Parts of the year, names and halves of the day.

  /** A year given as its century and its year of the century, in either order, is read back. */
  lemma CenturyTrip(y: nat, rest: string, tm: Tm)
    requires y <= 9999 && !tm.split
    ensures Parse(Four(y) + rest, "%C%y", tm, 0) == Some((rest, tm.(year := y - TM_YEAR_BASE, split := true)))
    ensures Parse(Two(y % 100) + Two(y / 100) + rest, "%y%C", tm, 0)
         == Some((rest, tm.(year := y - TM_YEAR_BASE, split := true)))
  {
    hide Parse, Two;
    var a, b := y / 100, y % 100;
    CenturyParts(a, b, tm);
    assert ['%', 'C'] + (['%', 'y'] + "") == "%C%y" && ['%', 'y'] + (['%', 'C'] + "") == "%y%C";
    assert Four(y) + rest == Two(a) + (Two(b) + rest) && Two(b) + Two(a) + rest == Two(b) + (Two(a) + rest);
    SimpleTwo('C', a, Two(b) + rest, ['%', 'y'] + "", tm);
    SimpleTwo('y', b, rest, "", Put('C', a, tm));
    SimpleTwo('y', b, Two(a) + rest, ['%', 'C'] + "", tm);
    SimpleTwo('C', a, rest, "", Put('y', b, tm));
    SimpleEnd(rest, tm.(year := y - TM_YEAR_BASE, split := true));
  }

  lemma CenturyParts(a: nat, b: nat, tm: Tm)
    requires a <= 99 && b <= 99 && !tm.split
    ensures Put('y', b, Put('C', a, tm)) == tm.(year := 100 * a + b - TM_YEAR_BASE, split := true)
    ensures Put('C', a, Put('y', b, tm)) == tm.(year := 100 * a + b - TM_YEAR_BASE, split := true)
  {
    assert Quotient(a * 100 - TM_YEAR_BASE) == a - 19;
    assert Remainder(b) == b && Remainder(b + 100) == b;
  }

  /** Two names that differ at a place that both have. */
  predicate Apart(a: string, b: string) {
    exists k :: 0 <= k < |a| && k < |b| && Lower(a[k]) != Lower(b[k])
  }

  /** A name, in letters of any case, is found at its own place when the names before it differ from it. */
  lemma NameTrip(full: seq<string>, short: seq<string>, i: nat, name: string, rest: string)
    requires i < |full| && |name| == |full[i]| && StartsWith(name, full[i])
    requires forall j :: 0 <= j < i ==> Apart(full[j], full[i])
    ensures NameOf(name + rest, full, short) == Some((i, |name|))
  {
    var s := name + rest;
    assert StartsWith(s, full[i]);
    forall j | 0 <= j < i ensures !StartsWith(s, full[j]) {
      var k :| 0 <= k < |full[j]| && k < |full[i]| && Lower(full[j][k]) != Lower(full[i][k]);
      assert s[k] == name[k] && Lower(name[k]) == Lower(full[i][k]);
    }
    var f := FirstName(s, full, 0);
    assert f.Some? && f.value == i;
  }

  /** The hour and the half of the day as a twelve-hour clock shows them. */
  function ClockHour(h: nat): (r: nat)
    ensures 1 <= r <= 12
  {
    if h % 12 == 0 then 12 else h % 12
  }

  lemma HalfIsRead(h: nat, rest: string, tm: Tm)
    requires h <= 23 && tm.hour == h % 12
    ensures Parse(AM_PM[h / 12] + rest, "%p", tm, 0) == Some((rest, tm.(hour := h)))
  {
    hide Conv, Put, SkipSpace;
    var i := h / 12;
    assert Apart(AM_PM[0], AM_PM[1]) by {
      assert AM_PM[0][0] != AM_PM[1][0];
    }
    NameTrip(AM_PM, [], i, AM_PM[i], rest);
    hide NameOf, Parse;
    assert (AM_PM[i] + rest)[|AM_PM[i]|..] == rest;
    assert Element('p', 0, AM_PM[i] + rest, tm) == Some((rest, tm.(hour := h)));
    LastElement('p', AM_PM[i] + rest, tm);
  }

  lemma LastElement(c: char, s: string, tm: Tm)
    requires c != 'E' && c != 'O'
    ensures Parse(s, ['%', c], tm, 0) == Element(c, 0, s, tm)
  {
    hide Element;
  }

  /** Every time of a twelve-hour clock is read back, midnight and noon included. */
  lemma ClockTrip(h: nat, mi: nat, rest: string, tm: Tm)
    requires h <= 23 && mi <= 59
    ensures Parse(Two(ClockHour(h)) + (":" + (Two(mi) + (" " + (AM_PM[h / 12] + rest)))), "%I:%M %p", tm, 0)
         == Some((rest, tm.(hour := h, min := mi)))
  {
    hide Parse, Two;
    var half := AM_PM[h / 12] + rest;
    var tm1 := tm.(hour := h % 12);
    assert Put('I', ClockHour(h), tm) == tm1;
    assert ['%', 'I'] + (":" + (['%', 'M'] + (" " + "%p"))) == "%I:%M %p";
    SimpleTwo('I', ClockHour(h), ":" + (Two(mi) + (" " + half)), ":" + (['%', 'M'] + (" " + "%p")), tm);
    SimpleLiteral(':', Two(mi) + (" " + half), ['%', 'M'] + (" " + "%p"), tm1);
    SimpleTwo('M', mi, " " + half, " " + "%p", tm1);
    assert half[0] == AM_PM[h / 12][0];
    ParseSpace(half, "%p", tm1.(min := mi), 0);
    HalfIsRead(h, rest, tm1.(min := mi));
  }

  // What is refused.

  /** Exactly what two digits are read as: a first digit that cannot be followed by another one stands alone. */
  lemma ConvTwoDigits(v: nat, rest: string, llim: nat, ulim: nat)
    requires v < 100 && 10 <= ulim < 100
    ensures Conv(Two(v) + rest, llim, ulim)
         == if 10 * (v / 10) > ulim then (if v / 10 >= llim then Some((v / 10, 1)) else None)
            else if llim <= v <= ulim then Some((v, 2)) else None
  {
    hide Scan;
    var s := Two(v) + rest;
    if 10 * (v / 10) <= ulim {
      ScanDigit(s, 1, v / 10, ulim / 10, ulim, v % 10);
      ScanEnd(s, 2, v, ulim);
    } else {
      ScanStops(s, 1, v / 10, ulim / 10, ulim);
    }
  }

  lemma ScanStops(s: string, i: nat, result: nat, rulim: nat, ulim: nat)
    requires i <= |s| && result * 10 > ulim
    ensures Scan(s, i, result, rulim, ulim) == (result, i)
  {
  }

  /** The ranges of the fields. */
  lemma LimitsAre()
    ensures Limits('Y') == Some((0, 9999)) && Limits('j') == Some((1, 366))
    ensures Limits('C') == Limits('y') == Limits('g') == Some((0, 99)) && Limits('S') == Some((0, 61))
    ensures Limits('m') == Limits('I') == Limits('l') == Some((1, 12)) && Limits('d') == Limits('e') == Some((1, 31))
    ensures Limits('H') == Limits('k') == Some((0, 23)) && Limits('M') == Some((0, 59))
    ensures Limits('U') == Limits('W') == Limits('V') == Some((0, 53))
    ensures Limits('w') == Some((0, 6)) && Limits('u') == Some((1, 7))
  {
  }

  /** A field of two digits with a separator behind it is read exactly when it is within its range. */
  lemma FieldIff(c: char, v: nat, sep: char, rest: string, fmt: string, tm: Tm)
    requires v < 100 && Limits(c).Some? && 10 <= Limits(c).value.1 < 100 && (sep == '-' || sep == ':')
    ensures Parse(Two(v) + ([sep] + rest), ['%', c] + ([sep] + fmt), tm, 0)
         == if Limits(c).value.0 <= v <= Limits(c).value.1 then Parse(rest, fmt, Put(c, v, tm), 0) else None
  {
    hide Parse, Put, Limits;
    var (lo, hi) := Limits(c).value;
    if lo <= v <= hi {
      SimpleTwo(c, v, [sep] + rest, [sep] + fmt, tm);
      SimpleLiteral(sep, rest, fmt, Put(c, v, tm));
    } else {
      FieldRefused(c, v, sep, rest, fmt, tm);
    }
  }

  lemma FieldRefused(c: char, v: nat, sep: char, rest: string, fmt: string, tm: Tm)
    requires v < 100 && Limits(c).Some? && 10 <= Limits(c).value.1 < 100 && (sep == '-' || sep == ':')
    requires !(Limits(c).value.0 <= v <= Limits(c).value.1)
    ensures Parse(Two(v) + ([sep] + rest), ['%', c] + ([sep] + fmt), tm, 0) == None
  {
    hide Conv, Put, Limits;
    var (lo, hi) := Limits(c).value;
    var s := Two(v) + ([sep] + rest);
    ConvTwoDigits(v, [sep] + rest, lo, hi);
    NumberIsNoModifier(c);
    assert (['%', c] + ([sep] + fmt))[2..] == [sep] + fmt;
    if 10 * (v / 10) > hi {
      assert s[1..] == [DigitChar(v % 10)] + ([sep] + rest);
    }
  }

  /** A character of the format that stands for itself has to be met. */
  lemma LiteralIff(c: char, s: string, fmt: string, tm: Tm, nest: nat)
    requires c != '%' && !Space([c])
    ensures Parse(s, [c] + fmt, tm, nest) == if s != [] && s[0] == c then Parse(s[1..], fmt, tm, nest) else None
  {
    hide Element, Convert;
    assert ([c] + fmt)[1..] == fmt;
  }

  /** What the numbers mean: days of the year from 0, Sunday as 0 and 7, two-digit years from 1969 to 2068. */
  lemma FieldsMean(i: nat, tm: Tm)
    ensures Put('j', i, tm) == tm.(yday := i - 1) && Put('w', i, tm) == tm.(wday := i)
    ensures 1 <= i <= 6 ==> Put('u', i, tm) == tm.(wday := i)
    ensures Put('u', 7, tm) == tm.(wday := 0)
    ensures i <= 99 && !tm.split ==>
              var year := Put('y', i, tm).year + TM_YEAR_BASE; 1969 <= year <= 2068 && year % 100 == i
    ensures Put('k', i, tm) == Put('H', i, tm) && Put('l', i, tm) == Put('I', i, tm)
         && Put('e', i, tm) == Put('d', i, tm)
    ensures Put('U', i, tm) == Put('W', i, tm) == Put('V', i, tm) == Put('g', i, tm) == tm
  {
  }

  /** Modifiers are refused where they are not defined. */
  lemma ModifierIsChecked(c: char, alt: nat, s: string, tm: Tm)
    requires alt == ALT_E || alt == ALT_O
    ensures Element(c, alt, s, tm).Some? ==> c in (if alt == ALT_E then "CYygV" else "deHIMmSUWwuygV")
  {
  }

  /** A half of the day is refused behind an hour of a twenty-four hour clock. */
  lemma HalfIsRefused(s: string, tm: Tm)
    requires tm.hour > 11
    ensures Element('p', 0, s, tm).None?
  {
  }

  /** Letters that differ in nothing but case. */
  predicate SameLetter(a: char, b: char) {
    || a == b
    || ('a' <= a <= 'z' && b as int == a as int - 32)
    || ('A' <= a <= 'Z' && b as int == a as int + 32)
  }

  lemma StartsWithMeans(s: string, name: string)
    ensures StartsWith(s, name) <==> |name| <= |s| && forall k :: 0 <= k < |name| ==> SameLetter(s[k], name[k])
  {
    forall k | 0 <= k < |name| && k < |s| ensures Lower(s[k]) == Lower(name[k]) <==> SameLetter(s[k], name[k]) {
    }
  }

  // Names of days and months, and the other composites.

  lemma DaysApart(i: nat, j: nat)
    requires j < i < 7
    ensures Apart(DAYS[j], DAYS[i])
  {
    var a, b := DAYS[j], DAYS[i];
    assert a[0] != b[0] || a[1] != b[1];
  }

  lemma MonthsApart(i: nat, j: nat)
    requires j < i < 12
    ensures Apart(MONTHS[j], MONTHS[i])
  {
    var a, b := MONTHS[j], MONTHS[i];
    assert a[0] != b[0] || a[1] != b[1] || a[2] != b[2];
  }

  /** The name of a day, in letters of any case, is read as its number from Sunday. */
  lemma DayTrip(i: nat, name: string, rest: string, tm: Tm)
    requires i < 7 && |name| == |DAYS[i]| && StartsWith(name, DAYS[i])
    ensures Parse(name + rest, "%A", tm, 0) == Parse(name + rest, "%a", tm, 0) == Some((rest, tm.(wday := i)))
  {
    hide FirstName, StartsWith, Put, Conv, Parse;
    forall j | 0 <= j < i ensures Apart(DAYS[j], DAYS[i]) {
      DaysApart(i, j);
    }
    NameTrip(DAYS, SHORT_DAYS, i, name, rest);
    hide NameOf, Apart;
    assert (name + rest)[|name|..] == rest;
    LastElement('A', name + rest, tm);
    LastElement('a', name + rest, tm);
  }

  /** The name of a month, in letters of any case, is read as its number from January. */
  lemma MonthTrip(i: nat, name: string, rest: string, tm: Tm)
    requires i < 12 && |name| == |MONTHS[i]| && StartsWith(name, MONTHS[i])
    ensures Parse(name + rest, "%B", tm, 0) == Parse(name + rest, "%b", tm, 0) == Parse(name + rest, "%h", tm, 0)
         == Some((rest, tm.(mon := i)))
  {
    hide FirstName, StartsWith, Put, Conv, Parse;
    forall j | 0 <= j < i ensures Apart(MONTHS[j], MONTHS[i]) {
      MonthsApart(i, j);
    }
    NameTrip(MONTHS, SHORT_MONTHS, i, name, rest);
    hide NameOf, Apart;
    assert (name + rest)[|name|..] == rest;
    LastElement('B', name + rest, tm);
    LastElement('b', name + rest, tm);
    LastElement('h', name + rest, tm);
  }

  /** `%D` reads month, day and two-digit year with slashes. */
  lemma SlashDateTrip(mo: nat, d: nat, y: nat, rest: string, tm: Tm)
    requires 1 <= mo <= 12 && 1 <= d <= 31 && y <= 99
    ensures Parse(Joined(Two(mo), Two(d), Two(y), '/', rest), ['%', 'D'] + "", tm, 1)
         == Some((rest, tm.(mon := mo - 1, mday := d, year := if y <= 68 then y + 100 else y)))
  {
    hide Parse, Two, Joined;
    var tm0 := tm.(split := false);
    assert Triple('m', 'd', 'y', '/') == "%m/%d/%y";
    forall rest, fmt, tm
      ensures Parse(Two(mo) + rest, ['%', 'm'] + fmt, tm, 0) == Parse(rest, fmt, Put('m', mo, tm), 0) {
      SimpleTwo('m', mo, rest, fmt, tm);
    }
    TripleTrip('m', 'd', 'y', '/', Two(mo), mo, d, y, rest, tm0);
    ParseComposite('D', Joined(Two(mo), Two(d), Two(y), '/', rest), "", tm);
    ParseEnd(rest, tm.(mon := mo - 1, mday := d, year := if y <= 68 then y + 100 else y));
  }

  /** `%R` reads hours and minutes. */
  lemma ShortTimeTrip(h: nat, mi: nat, rest: string, tm: Tm)
    requires h <= 23 && mi <= 59
    ensures Parse(Two(h) + (":" + (Two(mi) + rest)), ['%', 'R'] + "", tm, 1) == Some((rest, tm.(hour := h, min := mi)))
  {
    hide Parse, Two;
    var tm0 := tm.(split := false);
    assert ['%', 'H'] + (":" + (['%', 'M'] + "")) == "%H:%M";
    SimpleTwo('H', h, ":" + (Two(mi) + rest), ":" + (['%', 'M'] + ""), tm0);
    SimpleLiteral(':', Two(mi) + rest, ['%', 'M'] + "", tm0.(hour := h));
    SimpleTwo('M', mi, rest, "", tm0.(hour := h));
    SimpleEnd(rest, tm0.(hour := h, min := mi));
    ParseComposite('R', Two(h) + (":" + (Two(mi) + rest)), "", tm);
    ParseEnd(rest, tm.(hour := h, min := mi));
  }

  /** `%r` has the letter S where the seconds should be: it reads a time with that letter, and leaves the seconds. */
  lemma ClockWithLetterTrip(h: nat, mi: nat, rest: string, tm: Tm)
    requires h <= 23 && mi <= 59
    ensures Parse(Two(ClockHour(h)) + (":" + (Two(mi) + (":S" + (" " + (AM_PM[h / 12] + rest))))), ['%', 'r'] + "",
                  tm, 1)
         == Some((rest, tm.(hour := h, min := mi)))
  {
    hide Parse, Two;
    var half := AM_PM[h / 12] + rest;
    var tm0 := tm.(split := false);
    var tm1 := tm0.(hour := h % 12);
    var tm2 := tm1.(min := mi);
    assert Put('I', ClockHour(h), tm0) == tm1;
    assert ['%', 'I'] + (":" + (['%', 'M'] + (":" + ("S" + (" " + "%p"))))) == "%I:%M:S %p";
    assert ":S" + (" " + half) == ":" + ("S" + (" " + half));
    var s2, f2 := ":" + ("S" + (" " + half)), ":" + ("S" + (" " + "%p"));
    SimpleTwo('I', ClockHour(h), ":" + (Two(mi) + s2), ":" + (['%', 'M'] + f2), tm0);
    SimpleLiteral(':', Two(mi) + s2, ['%', 'M'] + f2, tm1);
    SimpleTwo('M', mi, s2, f2, tm1);
    SimpleLiteral(':', "S" + (" " + half), "S" + (" " + "%p"), tm2);
    LiteralIff('S', "S" + (" " + half), " " + "%p", tm2, 0);
    assert ("S" + (" " + half))[1..] == " " + half;
    assert half[0] == AM_PM[h / 12][0];
    ParseSpace(half, "%p", tm2, 0);
    HalfIsRead(h, rest, tm2);
    ParseComposite('r', Two(ClockHour(h)) + (":" + (Two(mi) + (":S" + (" " + half)))), "", tm);
    ParseEnd(rest, tm.(hour := h, min := mi));
  }

  /** A percent sign stands for itself when doubled, and white space may be asked for by letter. */
  lemma SignsMean(s: string, tm: Tm)
    ensures Element('%', 0, s, tm) == if s != [] && s[0] == '%' then Some((s[1..], tm)) else None
    ensures Element('n', 0, s, tm) == Element('t', 0, s, tm) == Some((SkipSpace(s), tm))
    ensures !Space(SkipSpace(s))
  {
    hide SkipSpace;
    SkipsAll(s);
  }

  lemma {:induction false} SkipsAll(s: string)
    ensures !Space(SkipSpace(s))
  {
    if Space(s) {
      SkipsAll(s[1..]);
    }
  }
}
