/** The string primitives the engine relies on from .NET: `char.IsWhiteSpace`,
    `string.IsNullOrWhiteSpace`, `string.Trim`, ordinal case-insensitive
    comparison (ASCII letters only), and the UTF-16 little-endian encoding
    behind `Encoding.Unicode`. */
module Text {
  import opened Models

  /** The characters `char.IsWhiteSpace` accepts (Unicode space separators,
      line and paragraph separators, and the control characters U+0009 to
      U+000D and U+0085). */
  predicate IsWhiteSpace(c: char) {
    var v := c as int;
    || (0x09 <= v <= 0x0D) || v == 0x20 || v == 0x85 || v == 0xA0 || v == 0x1680
    || (0x2000 <= v <= 0x200A)
    || v == 0x2028 || v == 0x2029 || v == 0x202F || v == 0x205F || v == 0x3000
  }

  predicate AllWhiteSpace(s: string) {
    forall i :: 0 <= i < |s| ==> IsWhiteSpace(s[i])
  }

  /** `string.IsNullOrWhiteSpace`: null, empty, or whitespace only. */
  predicate IsNullOrWhiteSpace(s: Option<string>) {
    s.None? || AllWhiteSpace(s.value)
  }

  /** Drops the leading whitespace. */
  function TrimStart(s: string): (r: string)
    ensures |r| <= |s| && r == s[|s| - |r|..]
    ensures AllWhiteSpace(s[..|s| - |r|])
    ensures r != [] ==> !IsWhiteSpace(r[0])
  {
    if s != [] && IsWhiteSpace(s[0]) then
      var r := TrimStart(s[1..]);
      assert s[..|s| - |r|] == [s[0]] + s[1..][..|s[1..]| - |r|];
      r
    else s
  }

  /** Drops the trailing whitespace. */
  function TrimEnd(s: string): (r: string)
    ensures |r| <= |s| && r == s[..|r|]
    ensures AllWhiteSpace(s[|r|..])
    ensures r != [] ==> !IsWhiteSpace(r[|r| - 1])
  {
    if s != [] && IsWhiteSpace(s[|s| - 1]) then
      var r := TrimEnd(s[..|s| - 1]);
      assert s[|r|..] == s[..|s| - 1][|r|..] + [s[|s| - 1]];
      r
    else s
  }

  /** `string.Trim()`: the input with its surrounding whitespace removed. */
  function Trim(s: string): (r: string)
  {
    TrimEnd(TrimStart(s))
  }

  /** Trimming keeps exactly the middle of the input: whitespace on both
      sides is removed and nothing else, and the result neither starts nor
      ends with whitespace. */
  lemma TrimSlice(s: string)
    ensures exists a, b :: 0 <= a <= b <= |s| && Trim(s) == s[a..b]
              && AllWhiteSpace(s[..a]) && AllWhiteSpace(s[b..])
    ensures Trim(s) != [] ==> !IsWhiteSpace(Trim(s)[0]) && !IsWhiteSpace(Trim(s)[|Trim(s)| - 1])
  {
    var t := TrimStart(s);
    var a := |s| - |t|;
    var r := TrimEnd(t);
    var b := a + |r|;
    assert s[a..b] == t[..|r|];
    assert s[b..] == t[|r|..];
    assert Trim(s) == s[a..b];
  }

  /** The trimmed name is empty exactly when the input was all whitespace. */
  lemma TrimEmptyIffWhiteSpace(s: string)
    ensures Trim(s) == [] <==> AllWhiteSpace(s)
  {
    var t := TrimStart(s);
    var a := |s| - |t|;
    assert t != [] ==> t[0] == s[a];
    assert t == [] ==> s[..a] == s;
    var r := TrimEnd(t);
    assert r == [] ==> t[|r|..] == t;
    assert forall i :: 0 <= i < |t| ==> t[i] == s[a + i];
  }

  /** Trimming twice is trimming once. */
  lemma TrimIdempotent(s: string)
    ensures Trim(Trim(s)) == Trim(s)
  {
    var r := Trim(s);
    TrimSlice(s);
    if r != [] {
      assert TrimStart(r) == r;
      assert TrimEnd(r) == r;
    }
  }

  function ToUpperAscii(c: char): char {
    if 'a' <= c <= 'z' then (c as int - 32) as char else c
  }

  /** Case-insensitive equality, folding the ASCII letters. */
  predicate EqualsIgnoreCase(a: string, b: string) {
    |a| == |b| && forall i :: 0 <= i < |a| ==> ToUpperAscii(a[i]) == ToUpperAscii(b[i])
  }

  // UTF-16 little endian (`Encoding.Unicode.GetBytes`), without byte order mark.

  function CodeUnitBytes(u: int): (b: seq<byte>)
    requires 0 <= u < 0x10000
    ensures |b| == 2 && b[0] as int + 256 * b[1] as int == u
  {
    [(u % 256) as byte, (u / 256) as byte]
  }

  /** One character as one code unit, or as a surrogate pair above U+FFFF. */
  function EncodeChar(c: char): (b: seq<byte>)
    ensures |b| == 2 || |b| == 4
  {
    var v := c as int;
    if v < 0x10000 then CodeUnitBytes(v)
    else
      var u := v - 0x10000;
      CodeUnitBytes(0xD800 + u / 0x400) + CodeUnitBytes(0xDC00 + u % 0x400)
  }

  function Utf16Le(s: string): (b: seq<byte>)
  {
    if s == [] then [] else EncodeChar(s[0]) + Utf16Le(s[1..])
  }

  /** The code unit stored little-endian in the first two bytes. */
  function UnitAt(b: seq<byte>, i: nat): (u: int)
    requires i + 1 < |b|
    ensures 0 <= u < 0x10000
  {
    b[i] as int + 256 * b[i + 1] as int
  }

  /** Decodes UTF-16LE; `None` on an odd length or an unpaired surrogate. */
  function DecodeUtf16Le(b: seq<byte>): (r: Option<string>)
    decreases |b|
  {
    if |b| == 0 then Some([])
    else if |b| < 2 then None
    else
      var u := UnitAt(b, 0);
      if 0xD800 <= u < 0xDC00 then
        if |b| < 4 then None
        else
          var l := UnitAt(b, 2);
          if 0xDC00 <= l < 0xE000 then
            var c := 0x10000 + (u - 0xD800) * 0x400 + (l - 0xDC00);
            match DecodeUtf16Le(b[4..])
            case Some(rest) => Some([c as char] + rest)
            case None => None
          else None
      else if 0xDC00 <= u < 0xE000 then None
      else
        match DecodeUtf16Le(b[2..])
        case Some(rest) => Some([u as char] + rest)
        case None => None
  }

  lemma DecodeEncodedChar(c: char, rest: seq<byte>)
    ensures DecodeUtf16Le(EncodeChar(c) + rest) ==
              match DecodeUtf16Le(rest)
              case Some(t) => Some([c] + t)
              case None => None
  {
    var b := EncodeChar(c) + rest;
    var v := c as int;
    if v < 0x10000 {
      assert b[2..] == rest;
      assert UnitAt(b, 0) == v;
    } else {
      var u := v - 0x10000;
      assert b[4..] == rest;
      assert UnitAt(b, 0) == 0xD800 + u / 0x400;
      assert UnitAt(b, 2) == 0xDC00 + u % 0x400;
    }
  }

  /** The metadata bytes written into an archive decode back to the text. */
  lemma {:induction false} Utf16LeRoundTrip(s: string)
    ensures DecodeUtf16Le(Utf16Le(s)) == Some(s)
  {
    if s != [] {
      Utf16LeRoundTrip(s[1..]);
      DecodeEncodedChar(s[0], Utf16Le(s[1..]));
      assert [s[0]] + s[1..] == s;
    }
  }

  /** Two code units per character of the Basic Multilingual Plane. */
  lemma {:induction false} Utf16LeLength(s: string)
    requires forall i :: 0 <= i < |s| ==> s[i] as int < 0x10000
    ensures |Utf16Le(s)| == 2 * |s|
  {
    if s != [] {
      Utf16LeLength(s[1..]);
    }
  }
}
