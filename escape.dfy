/** Percent-encoding of a URL path segment as Go's `url.PathEscape` does it
    (section 2.1 of RFC 3986): every byte of the UTF-8 form of the string that
    is not allowed in a path segment becomes '%' and two upper-case hex
    digits. Allowed are the unreserved characters (letters, digits, "-._~")
    and the sub-delimiters Go keeps in a segment ("$&+:=@"); '/', ';', ',' and
    '?' are escaped. */
module Escape {
  import opened Strs

  predicate IsAlnum(c: char) {
    ('a' <= c <= 'z') || ('A' <= c <= 'Z') || ('0' <= c <= '9')
  }

  /** Characters url.PathEscape leaves as they are. */
  predicate KeptInSegment(c: char) {
    IsAlnum(c) || c == '-' || c == '_' || c == '.' || c == '~'
    || c == '$' || c == '&' || c == '+' || c == ':' || c == '=' || c == '@'
  }

  predicate IsByte(b: int) {
    0 <= b < 256
  }

  /** UTF-8 encoding of one character. */
  function Utf8(c: char): (bs: seq<int>)
    ensures 1 <= |bs| <= 4
    ensures forall i :: 0 <= i < |bs| ==> IsByte(bs[i])
    ensures (c as int < 0x80) <==> bs == [c as int]
    ensures c as int >= 0x80 ==> forall i :: 0 <= i < |bs| ==> bs[i] >= 0x80
  {
    var n := c as int;
    if n < 0x80 then [n]
    else if n < 0x800 then [0xC0 + n / 0x40, 0x80 + n % 0x40]
    else if n < 0x10000 then [0xE0 + n / 0x1000, 0x80 + (n / 0x40) % 0x40, 0x80 + n % 0x40]
    else [0xF0 + n / 0x40000, 0x80 + (n / 0x1000) % 0x40, 0x80 + (n / 0x40) % 0x40, 0x80 + n % 0x40]
  }

  /** UTF-8 encoding of a string: the bytes Go holds for it. */
  function Utf8Encode(s: string): seq<int>
    decreases |s|
  {
    if s == [] then [] else Utf8(s[0]) + Utf8Encode(s[1..])
  }

  const UpperHexDigits: string := "0123456789ABCDEF"

  /** The value of a hexadecimal digit of either case, as Go's unhex reads it. */
  function HexValue(c: char): int {
    if '0' <= c <= '9' then c as int - '0' as int
    else if 'a' <= c <= 'f' then c as int - 'a' as int + 10
    else if 'A' <= c <= 'F' then c as int - 'A' as int + 10
    else -1
  }

  predicate IsHex(c: char) {
    HexValue(c) >= 0
  }

  lemma UpperHexDigitValue(n: int)
    requires 0 <= n < 16
    ensures IsHex(UpperHexDigits[n]) && HexValue(UpperHexDigits[n]) == n
  {
  }

  /** "%XY" for one byte. */
  function PercentByte(b: int): (r: string)
    requires IsByte(b)
    ensures |r| == 3 && r[0] == '%'
  {
    ['%', UpperHexDigits[b / 16], UpperHexDigits[b % 16]]
  }

  function PercentBytes(bs: seq<int>): string
    requires forall i :: 0 <= i < |bs| ==> IsByte(bs[i])
    decreases |bs|
  {
    if bs == [] then [] else PercentByte(bs[0]) + PercentBytes(bs[1..])
  }

  /** What one character of the input becomes. */
  function EscapeChar(c: char): string {
    if KeptInSegment(c) then [c] else PercentBytes(Utf8(c))
  }

  /** url.PathEscape */
  function PathEscape(s: string): string
    decreases |s|
  {
    if s == [] then [] else EscapeChar(s[0]) + PathEscape(s[1..])
  }

  /** Percent-decoding, the inverse direction: "%XY" with two hex digits
      stands for one byte, every other character for itself. */
  function Unescape(s: string): seq<int>
    decreases |s|
  {
    if |s| >= 3 && s[0] == '%' && IsHex(s[1]) && IsHex(s[2]) then
      [16 * HexValue(s[1]) + HexValue(s[2])] + Unescape(s[3..])
    else if s == [] then []
    else [s[0] as int] + Unescape(s[1..])
  }

  lemma {:induction false} UnescapePercentBytes(bs: seq<int>, rest: string)
    requires forall i :: 0 <= i < |bs| ==> IsByte(bs[i])
    ensures Unescape(PercentBytes(bs) + rest) == bs + Unescape(rest)
    decreases |bs|
  {
    if bs != [] {
      var more := PercentBytes(bs[1..]);
      UnescapePercentByte(bs[0], more + rest);
      UnescapePercentBytes(bs[1..], rest);
      UnescapeJoin(PercentByte(bs[0]), more, rest, bs[0], bs[1..]);
      assert bs == [bs[0]] + bs[1..];
    } else {
      assert PercentBytes(bs) + rest == rest;
    }
  }

  /** Chains the decoding of a head and of what follows it. */
  lemma UnescapeJoin(tok: string, more: string, rest: string, b: int, bs: seq<int>)
    requires Unescape(tok + (more + rest)) == [b] + Unescape(more + rest)
    requires Unescape(more + rest) == bs + Unescape(rest)
    ensures Unescape((tok + more) + rest) == ([b] + bs) + Unescape(rest)
  {
    assert (tok + more) + rest == tok + (more + rest);
  }

  /** One escaped byte decodes to that byte. */
  lemma UnescapePercentByte(b: int, tail: string)
    requires IsByte(b)
    ensures Unescape(PercentByte(b) + tail) == [b] + Unescape(tail)
  {
    UpperHexDigitValue(b / 16);
    UpperHexDigitValue(b % 16);
    var s := PercentByte(b) + tail;
    assert s[3..] == tail;
  }

  lemma UnescapeEscapeChar(c: char, rest: string)
    ensures Unescape(EscapeChar(c) + rest) == Utf8(c) + Unescape(rest)
  {
    if KeptInSegment(c) {
      var s := [c] + rest;
      assert s[1..] == rest;
    } else {
      UnescapePercentBytes(Utf8(c), rest);
    }
  }

  /** Decoding what PathEscape produced gives back the UTF-8 bytes of the input. */
  lemma {:induction false} UnescapePathEscape(s: string)
    ensures Unescape(PathEscape(s)) == Utf8Encode(s)
    decreases |s|
  {
    if s != [] {
      UnescapePathEscape(s[1..]);
      UnescapeEscapeChar(s[0], PathEscape(s[1..]));
    }
  }

  /** A string made only of characters PathEscape keeps is left unchanged. */
  lemma {:induction false} PathEscapeKeeps(s: string)
    requires forall i :: 0 <= i < |s| ==> KeptInSegment(s[i])
    ensures PathEscape(s) == s
    decreases |s|
  {
    if s != [] {
      PathEscapeKeeps(s[1..]);
      assert s == [s[0]] + s[1..];
    }
  }

  /** The output is plain ASCII from a small alphabet: kept characters, '%'
      and upper-case hex digits. */
  predicate IsEscapedChar(c: char) {
    KeptInSegment(c) || c == '%' || c in UpperHexDigits
  }

  lemma {:induction false} PercentBytesAlphabet(bs: seq<int>)
    requires forall i :: 0 <= i < |bs| ==> IsByte(bs[i])
    ensures forall i :: 0 <= i < |PercentBytes(bs)| ==> IsEscapedChar(PercentBytes(bs)[i])
    decreases |bs|
  {
    if bs != [] {
      PercentBytesAlphabet(bs[1..]);
    }
  }

  lemma {:induction false} PathEscapeAlphabet(s: string)
    ensures forall i :: 0 <= i < |PathEscape(s)| ==> IsEscapedChar(PathEscape(s)[i])
    decreases |s|
  {
    if s != [] {
      PathEscapeAlphabet(s[1..]);
      if !KeptInSegment(s[0]) {
        PercentBytesAlphabet(Utf8(s[0]));
      }
    }
  }

  /** Each piece escaped on its own. */
  function EscapeEach(parts: seq<string>): (r: seq<string>)
    ensures |r| == |parts|
    ensures forall i :: 0 <= i < |parts| ==> r[i] == PathEscape(parts[i])
    decreases |parts|
  {
    if parts == [] then [] else [PathEscape(parts[0])] + EscapeEach(parts[1..])
  }

  /** "%XY" for a byte other than '/' (0x2F) is not "%2F". */
  lemma PercentByteNotSlash(b: int)
    requires IsByte(b) && b != 0x2F
    ensures PercentByte(b) != "%2F"
  {
    UpperHexDigitValue(b / 16);
    UpperHexDigitValue(b % 16);
    assert HexValue('2') == 2 && HexValue('F') == 15;
  }

  /** A character other than '%' cannot start "%2F". */
  lemma ReplaceSkipsChar(c: char, t: string)
    requires c != '%'
    ensures ReplaceAll([c] + t, "%2F", "/") == [c] + ReplaceAll(t, "%2F", "/")
  {
    assert ([c] + t)[1..] == t;
  }

  /** An escaped byte other than '/' passes through the replacement unchanged. */
  lemma ReplaceSkipsPercentByte(b: int, t: string)
    requires IsByte(b) && b != 0x2F
    ensures ReplaceAll(PercentByte(b) + t, "%2F", "/") == PercentByte(b) + ReplaceAll(t, "%2F", "/")
  {
    var tok := PercentByte(b);
    PercentByteNotSlash(b);
    var s := tok + t;
    var t2 := [tok[2]] + t;
    var t1 := [tok[1]] + t2;
    assert s[..3] == tok;
    assert s[1..] == t1;
    assert tok[1] != '%' && tok[2] != '%';
    ReplaceSkipsChar(tok[2], t);
    ReplaceSkipsChar(tok[1], t2);
    assert tok == [tok[0]] + [tok[1]] + [tok[2]];
  }

  /** Chains two pass-throughs: one for a head, one for what follows it. */
  lemma ReplaceSkipsJoin(tok: string, more: string, rest: string)
    requires ReplaceAll(tok + (more + rest), "%2F", "/") == tok + ReplaceAll(more + rest, "%2F", "/")
    requires ReplaceAll(more + rest, "%2F", "/") == more + ReplaceAll(rest, "%2F", "/")
    ensures ReplaceAll((tok + more) + rest, "%2F", "/") == (tok + more) + ReplaceAll(rest, "%2F", "/")
  {
    assert (tok + more) + rest == tok + (more + rest);
  }

  lemma {:induction false} ReplaceSkipsPercentBytes(bs: seq<int>, rest: string)
    requires forall i :: 0 <= i < |bs| ==> IsByte(bs[i]) && bs[i] != 0x2F
    ensures ReplaceAll(PercentBytes(bs) + rest, "%2F", "/") == PercentBytes(bs) + ReplaceAll(rest, "%2F", "/")
    decreases |bs|
  {
    if bs == [] {
      assert PercentBytes(bs) + rest == rest;
    } else {
      var more := PercentBytes(bs[1..]);
      ReplaceSkipsPercentByte(bs[0], more + rest);
      ReplaceSkipsPercentBytes(bs[1..], rest);
      ReplaceSkipsJoin(PercentByte(bs[0]), more, rest);
    }
  }

  /** After escaping, replacing "%2F" by "/" undoes exactly the escaping of '/'. */
  lemma ReplaceAfterEscapeChar(c: char, rest: string)
    ensures ReplaceAll(EscapeChar(c) + rest, "%2F", "/")
      == (if c == '/' then "/" else EscapeChar(c)) + ReplaceAll(rest, "%2F", "/")
  {
    if c == '/' {
      assert EscapeChar(c) == PercentByte(0x2F) + PercentBytes([]);
      assert EscapeChar(c) == "%2F";
      assert (EscapeChar(c) + rest)[3..] == rest;
    } else if KeptInSegment(c) {
      assert ([c] + rest)[1..] == rest;
    } else {
      ReplaceSkipsPercentBytes(Utf8(c), rest);
    }
  }

  /** Escaping piece by piece commutes with an empty leading piece. */
  lemma EscapeEachEmptyHead(parts: seq<string>)
    ensures EscapeEach([[]] + parts) == [[]] + EscapeEach(parts)
  {
    assert ([[]] + parts)[1..] == parts;
  }

  lemma PathEscapeCons(c: char, t: string)
    ensures PathEscape([c] + t) == EscapeChar(c) + PathEscape(t)
  {
    assert ([c] + t)[1..] == t;
  }

  /** Escaping piece by piece commutes with a character put in front of the first piece. */
  lemma EscapeEachConsHead(c: char, parts: seq<string>)
    requires |parts| >= 1
    ensures var e := EscapeEach(parts);
      EscapeEach([[c] + parts[0]] + parts[1..]) == [EscapeChar(c) + e[0]] + e[1..]
  {
    var q := [[c] + parts[0]] + parts[1..];
    assert q[1..] == parts[1..];
    PathEscapeCons(c, parts[0]);
  }

  lemma EscapeEachSlashHead(s: string)
    requires s != [] && s[0] == '/'
    ensures Join(EscapeEach(Split(s, '/')), '/') == "/" + Join(EscapeEach(Split(s[1..], '/')), '/')
  {
    var rest := Split(s[1..], '/');
    assert Split(s, '/') == [[]] + rest;
    EscapeEachEmptyHead(rest);
    JoinEmptyHead(EscapeEach(rest), '/');
  }

  lemma EscapeEachNameHead(s: string)
    requires s != [] && s[0] != '/'
    ensures Join(EscapeEach(Split(s, '/')), '/') == EscapeChar(s[0]) + Join(EscapeEach(Split(s[1..], '/')), '/')
  {
    var rest := Split(s[1..], '/');
    assert Split(s, '/') == [[s[0]] + rest[0]] + rest[1..];
    EscapeEachConsHead(s[0], rest);
    JoinPrependHead(EscapeChar(s[0]), EscapeEach(rest), '/');
  }

  /** Escaping a whole path and then turning "%2F" back into "/" is the same as
      escaping each '/'-separated segment on its own and joining them with '/'. */
  lemma {:induction false} EscapeBySegments(s: string)
    ensures ReplaceAll(PathEscape(s), "%2F", "/") == Join(EscapeEach(Split(s, '/')), '/')
    decreases |s|
  {
    if s == [] {
      assert EscapeEach(Split(s, '/')) == [[]];
    } else {
      EscapeBySegments(s[1..]);
      ReplaceAfterEscapeChar(s[0], PathEscape(s[1..]));
      if s[0] == '/' {
        EscapeEachSlashHead(s);
      } else {
        EscapeEachNameHead(s);
      }
    }
  }

  /** Escaping that leaves '/' as it is: what remains of url.PathEscape once
      every "%2F" it produced is turned back into '/'. */
  function EscapeKeepSlash(s: string): string
    decreases |s|
  {
    if s == [] then []
    else (if s[0] == '/' then "/" else EscapeChar(s[0])) + EscapeKeepSlash(s[1..])
  }

  lemma {:induction false} ReplaceIsKeepSlash(s: string)
    ensures ReplaceAll(PathEscape(s), "%2F", "/") == EscapeKeepSlash(s)
    decreases |s|
  {
    if s != [] {
      ReplaceIsKeepSlash(s[1..]);
      ReplaceAfterEscapeChar(s[0], PathEscape(s[1..]));
    }
  }

  lemma {:induction false} KeepSlashAppend(a: string, b: string)
    ensures EscapeKeepSlash(a + b) == EscapeKeepSlash(a) + EscapeKeepSlash(b)
    decreases |a|
  {
    if a == [] {
      assert a + b == b;
    } else {
      assert (a + b)[1..] == a[1..] + b;
      KeepSlashAppend(a[1..], b);
    }
  }

  /** A string made only of characters that need no escaping is left as it is. */
  lemma {:induction false} KeepSlashSafe(s: string)
    requires forall i :: 0 <= i < |s| ==> KeptInSegment(s[i]) || s[i] == '/'
    ensures EscapeKeepSlash(s) == s
    decreases |s|
  {
    if s != [] {
      KeepSlashSafe(s[1..]);
      assert s == [s[0]] + s[1..];
    }
  }

  /** Percent-decoding gives back the UTF-8 bytes of the original string. */
  lemma {:induction false} KeepSlashDecodes(s: string)
    ensures Unescape(EscapeKeepSlash(s)) == Utf8Encode(s)
    decreases |s|
  {
    if s != [] {
      KeepSlashDecodes(s[1..]);
      var rest := EscapeKeepSlash(s[1..]);
      if s[0] == '/' {
        assert ("/" + rest)[1..] == rest;
      } else {
        UnescapeEscapeChar(s[0], rest);
      }
    }
  }

  lemma {:induction false} PercentBytesShape(bs: seq<int>)
    requires forall i :: 0 <= i < |bs| ==> IsByte(bs[i])
    ensures |PercentBytes(bs)| == 3 * |bs|
    decreases |bs|
  {
    if bs != [] {
      PercentBytesShape(bs[1..]);
    }
  }

  /** The escape of a character is never empty and never ends in '/'. */
  lemma EscapeCharLast(c: char)
    ensures var e := EscapeChar(c); e != [] && e[|e| - 1] != '/'
  {
    var e := EscapeChar(c);
    if !KeptInSegment(c) {
      PercentBytesShape(Utf8(c));
      PercentBytesAlphabet(Utf8(c));
      assert IsEscapedChar(e[|e| - 1]);
    }
  }

  /** The escaped string ends in '/' exactly when the original does. */
  lemma {:induction false} KeepSlashLast(s: string)
    requires s != []
    ensures var e := EscapeKeepSlash(s); e != [] && (e[|e| - 1] == '/' <==> s[|s| - 1] == '/')
    decreases |s|
  {
    var last := s[|s| - 1];
    var init := s[..|s| - 1];
    assert s == init + [last];
    KeepSlashAppend(init, [last]);
    assert [last][1..] == [];
    if last != '/' {
      EscapeCharLast(last);
    }
  }
}
