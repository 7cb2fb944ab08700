/** Escaping of JSON strings: the run-batched writer and the reader of section 7 of RFC 8259. */
module JsonEscape {
  import opened Bytes

  const QUOTE: byte := 34
  const BACKSLASH: byte := 92
  const SLASH: byte := 47
  const LOWER_U: byte := 117
  const ZERO: byte := 48

  function HexChar(d: nat): byte
    requires d < 16
  {
    if d < 10 then 48 + d else 87 + d
  }

  /** The letter after the backslash of a two-character escape. */
  function Letter(c: byte): Option<byte> {
    if c == 8 then Some(98) else if c == 10 then Some(110) else if c == 13 then Some(114) else if c == 9 then Some(116)
    else if c == 12 then Some(102) else if c == QUOTE || c == BACKSLASH || c == SLASH then Some(c) else None
  }

  /** One character, escaped on its own. */
  function EscapeChar(c: byte, noSlash: bool): bytes {
    if noSlash && c == SLASH then [c]
    else if Letter(c).Some? then [BACKSLASH, Letter(c).value]
    else if c < 32 then [BACKSLASH, LOWER_U, ZERO, ZERO, HexChar(c / 16), HexChar(c % 16)]
    else [c]
  }

  /**
   The text of a character: the short escapes of section 7 of RFC 8259, \u with four lower-case digits for
   the other control characters, a slash by the flag, and everything else as it is.
   */
  lemma EscapeCharMeans(c: byte, noSlash: bool)
    ensures EscapeChar(c, noSlash)
         == match c
            case 8 => [92, 98]
            case 9 => [92, 116]
            case 10 => [92, 110]
            case 12 => [92, 102]
            case 13 => [92, 114]
            case 34 => [92, 34]
            case 47 => if noSlash then [47] else [92, 47]
            case 92 => [92, 92]
            case _ =>
              if c >= 32 then [c]
              else [92, 117, 48, 48, 48 + c / 16, if c % 16 < 10 then 48 + c % 16 else 97 + c % 16 - 10]
  {
  }

  function Escape(s: bytes, noSlash: bool): bytes {
    if s == [] then [] else EscapeChar(s[0], noSlash) + Escape(s[1..], noSlash)
  }

  lemma {:induction false} EscapeSplit(s: bytes, k: nat, noSlash: bool)
    requires k <= |s|
    ensures Escape(s, noSlash) == Escape(s[..k], noSlash) + Escape(s[k..], noSlash)
  {
    hide EscapeChar;
    if k > 0 {
      EscapeSplit(s[1..], k - 1, noSlash);
      assert s[1..][..k - 1] == s[..k][1..] && s[1..][k - 1..] == s[k..];
    } else {
      assert s[k..] == s && s[..k] == [];
    }
  }

  lemma EscapeNext(s: bytes, pos: nat, noSlash: bool)
    requires pos < |s|
    ensures Escape(s[..pos + 1], noSlash) == Escape(s[..pos], noSlash) + EscapeChar(s[pos], noSlash)
  {
    hide EscapeChar;
    EscapeSplit(s[..pos + 1], pos, noSlash);
    assert s[..pos + 1][..pos] == s[..pos] && s[..pos + 1][pos..] == [s[pos]];
    assert Escape([s[pos]], noSlash) == EscapeChar(s[pos], noSlash) + [];
  }

  /** `json_escape_str`: characters that stay as they are get copied in runs. */
  method EscapeStr(s: bytes, noSlash: bool) returns (pb: bytes)
    ensures pb == Escape(s, noSlash)
  {
    hide EscapeChar, Escape;
    pb := [];
    var pos, start := 0, 0;
    assert Escape(s[..0], noSlash) == [] by {
      EscapeSplit([], 0, noSlash);
    }
    while pos < |s|
      invariant 0 <= start <= pos <= |s|
      invariant pb + s[start..pos] == Escape(s[..pos], noSlash)
    {
      var c := s[pos];
      EscapeNext(s, pos, noSlash);
      var text := EscapeChar(c, noSlash);
      if text != [c] {
        if pos > start {
          pb := pb + s[start..pos];
        }
        pb := pb + text;
        pos := pos + 1;
        start := pos;
      } else {
        assert s[start..pos + 1] == s[start..pos] + [c];
        pos := pos + 1;
      }
    }
    assert s[..pos] == s;
    if pos > start {
      pb := pb + s[start..pos];
    }
  }

  function HexValue(c: byte): Option<nat> {
    if 48 <= c <= 57 then Some(c - 48)
    else if 97 <= c <= 102 then Some(c - 87)
    else if 65 <= c <= 70 then Some(c - 55)
    else None
  }

  function Unletter(c: byte): Option<byte> {
    if c == 98 then Some(8) else if c == 110 then Some(10) else if c == 114 then Some(13) else if c == 116 then Some(9)
    else if c == 102 then Some(12) else if c == QUOTE || c == BACKSLASH || c == SLASH then Some(c) else None
  }

  /**
   One character of a JSON string and how many bytes it took; code
   points above 127 are not produced by the writer.
   */
  function ReadChar(s: bytes): Option<(byte, nat)>
    requires s != []
  {
    if s[0] < 32 || s[0] == QUOTE then None
    else if s[0] != BACKSLASH then Some((s[0], 1))
    else if |s| < 2 then None
    else if s[1] != LOWER_U then (if Unletter(s[1]).Some? then Some((Unletter(s[1]).value, 2)) else None)
    else if |s| < 6 || s[2] != ZERO || s[3] != ZERO then None
    else
      var h, l := HexValue(s[4]), HexValue(s[5]);
      if h.Some? && l.Some? && h.value < 8 then Some((16 * h.value + l.value, 6)) else None
  }

  /** The reader: None for raw control characters, bare quotes and broken escapes. */
  function Unescape(s: bytes): Option<bytes> {
    if s == [] then Some([])
    else
      var c := ReadChar(s);
      if c.None? || c.value.1 > |s| then None
      else
        var rest := Unescape(s[c.value.1..]);
        if rest.Some? then Some([c.value.0] + rest.value) else None
  }

  lemma ReadEscapedChar(c: byte, noSlash: bool, rest: bytes)
    ensures var text := EscapeChar(c, noSlash); |text| >= 1 && ReadChar(text + rest) == Some((c, |text|))
  {
  }

  lemma UnescapeStep(c: byte, text: bytes, rest: bytes)
    requires |text| >= 1 && ReadChar(text + rest) == Some((c, |text|))
    ensures Unescape(text + rest) == if Unescape(rest).Some? then Some([c] + Unescape(rest).value) else None
  {
    hide ReadChar;
    assert (text + rest)[|text|..] == rest;
  }

  /**
   The reader recovers every string, under both slash flags; so the text
   holds no raw control character or bare quote.
   */
  lemma {:induction false} EscapeRoundTrip(s: bytes, noSlash: bool)
    ensures Unescape(Escape(s, noSlash)) == Some(s)
  {
    hide EscapeChar, ReadChar;
    if s != [] {
      var text, rest := EscapeChar(s[0], noSlash), Escape(s[1..], noSlash);
      ReadEscapedChar(s[0], noSlash, rest);
      EscapeRoundTrip(s[1..], noSlash);
      UnescapeStep(s[0], text, rest);
      assert [s[0]] + s[1..] == s;
    }
  }

  /** How many backslashes stand right before position i. */
  function Backslashes(s: bytes, i: nat): (n: nat)
    requires i <= |s|
    ensures n <= i
  {
    if i == 0 || s[i - 1] != BACKSLASH then 0 else 1 + Backslashes(s, i - 1)
  }

  /**
   No byte of the text is a control character, and every quote is
   escaped: an odd number of backslashes precedes it.
   */
  ghost predicate Clean(s: bytes) {
    forall i :: 0 <= i < |s| ==> CleanAt(s, i)
  }

  ghost predicate CleanAt(s: bytes, i: nat)
    requires i < |s|
  {
    s[i] >= 32 && (s[i] == QUOTE ==> Backslashes(s, i) % 2 == 1)
  }

  /** Clean, and ending with a complete escape. */
  ghost predicate Whole(s: bytes) { Clean(s) && Backslashes(s, |s|) % 2 == 0 }

  lemma {:induction false} BackslashesBefore(a: bytes, b: bytes, i: nat)
    requires i <= |a|
    ensures Backslashes(a + b, i) == Backslashes(a, i)
  {
    if i > 0 {
      BackslashesBefore(a, b, i - 1);
    }
  }

  lemma {:induction false} BackslashesAfter(a: bytes, b: bytes, j: nat)
    requires j <= |b|
    ensures Backslashes(a + b, |a| + j) == if Backslashes(b, j) == j then j + Backslashes(a, |a|) else Backslashes(b, j)
  {
    if j == 0 {
      BackslashesBefore(a, b, |a|);
    } else {
      BackslashesAfter(a, b, j - 1);
      assert (a + b)[|a| + j - 1] == b[j - 1];
    }
  }

  lemma WholeTogether(a: bytes, b: bytes)
    requires Whole(a) && Whole(b)
    ensures Whole(a + b)
  {
    hide Backslashes;
    var s := a + b;
    forall i | 0 <= i < |s| ensures CleanAt(s, i) {
      if i < |a| {
        assert CleanAt(a, i) && s[i] == a[i];
        BackslashesBefore(a, b, i);
      } else {
        assert CleanAt(b, i - |a|) && s[i] == b[i - |a|];
        BackslashesAfter(a, b, i - |a|);
      }
    }
    BackslashesAfter(a, b, |b|);
  }

  lemma CharIsWhole(c: byte, noSlash: bool)
    ensures Whole(EscapeChar(c, noSlash))
  {
    var s := EscapeChar(c, noSlash);
    if |s| == 2 {
      assert Backslashes(s, 1) == 1 + Backslashes(s, 0);
      assert Backslashes(s, 2) == if s[1] == BACKSLASH then 2 else 0;
    } else if |s| == 6 {
      assert s[5] != BACKSLASH && Backslashes(s, 6) == 0;
    } else {
      assert s[0] != BACKSLASH && Backslashes(s, 1) == 0;
    }
  }

  /** The text written for any string is whole: no control character, and no quote that ends the string early. */
  lemma {:induction false} EscapeIsWhole(s: bytes, noSlash: bool)
    ensures Whole(Escape(s, noSlash))
  {
    hide EscapeChar, Whole;
    if s != [] {
      EscapeIsWhole(s[1..], noSlash);
      CharIsWhole(s[0], noSlash);
      WholeTogether(EscapeChar(s[0], noSlash), Escape(s[1..], noSlash));
    } else {
      NothingIsWhole();
    }
  }

  lemma NothingIsWhole()
    ensures Whole([])
  {
  }
}
