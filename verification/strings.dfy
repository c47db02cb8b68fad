/** String helpers shared by the merge engine, the key-pair format and the
    login codes: `split`/`join` on one separator element, decimal digits,
    whitespace trimming, and the UTF-16 encoding JavaScript strings use. */
module Strings {
  import opened Common

  /** `s.split(sep)` for a one-element separator: always at least one part,
      and no part contains the separator. Generic so that it serves both
      texts and their UTF-16 encodings. */
  function Split<T(==)>(s: seq<T>, sep: T): (r: seq<seq<T>>)
    ensures |r| >= 1
    ensures forall i :: 0 <= i < |r| ==> sep !in r[i]
  {
    if |s| == 0 then [[]]
    else
      var rest := Split(s[1..], sep);
      if s[0] == sep then [[]] + rest
      else [[s[0]] + rest[0]] + rest[1..]
  }

  /** `parts.join(sep)`; the empty array joins to the empty sequence. */
  function Join<T>(parts: seq<seq<T>>, sep: T): seq<T> {
    if |parts| == 0 then []
    else if |parts| == 1 then parts[0]
    else parts[0] + [sep] + Join(parts[1..], sep)
  }

  lemma JoinCons<T>(p: seq<T>, rest: seq<seq<T>>, sep: T)
    requires |rest| >= 1
    ensures Join([p] + rest, sep) == p + [sep] + Join(rest, sep)
  {
    assert ([p] + rest)[1..] == rest;
  }

  /** Joining the parts of a split gives back the original string. */
  lemma {:induction false} JoinSplit<T>(s: seq<T>, sep: T)
    ensures Join(Split(s, sep), sep) == s
  {
    if |s| > 0 {
      var rest := Split(s[1..], sep);
      JoinSplit(s[1..], sep);
      if s[0] == sep {
        JoinCons([], rest, sep);
        assert s == [sep] + s[1..];
      } else {
        if |rest| == 1 {
          assert Split(s, sep) == [[s[0]] + rest[0]];
        } else {
          assert rest == [rest[0]] + rest[1..];
          JoinCons(rest[0], rest[1..], sep);
          JoinCons([s[0]] + rest[0], rest[1..], sep);
        }
        assert s == [s[0]] + s[1..];
      }
    }
  }

  /** Splitting a join of separator-free parts gives back the parts. */
  lemma {:induction false} SplitJoin<T>(parts: seq<seq<T>>, sep: T)
    requires |parts| >= 1
    requires forall i :: 0 <= i < |parts| ==> sep !in parts[i]
    ensures Split(Join(parts, sep), sep) == parts
  {
    if |parts| == 1 {
      SplitNoSep(parts[0], sep);
    } else {
      SplitJoin(parts[1..], sep);
      SplitPrefix(parts[0], Join(parts[1..], sep), sep);
    }
  }

  lemma {:induction false} SplitNoSep<T>(s: seq<T>, sep: T)
    requires sep !in s
    ensures Split(s, sep) == [s]
  {
    if |s| > 0 {
      SplitNoSep(s[1..], sep);
      assert s == [s[0]] + s[1..];
    }
  }

  /** Splitting `p + sep + t` for a separator-free `p`. */
  lemma {:induction false} SplitPrefix<T>(p: seq<T>, t: seq<T>, sep: T)
    requires sep !in p
    ensures Split(p + [sep] + t, sep) == [p] + Split(t, sep)
  {
    if |p| == 0 {
      assert p + [sep] + t == [sep] + t;
      assert ([sep] + t)[1..] == t;
    } else {
      var s := p + [sep] + t;
      assert s[0] == p[0];
      assert s[1..] == p[1..] + [sep] + t;
      SplitPrefix(p[1..], t, sep);
      assert p == [p[0]] + p[1..];
    }
  }

  predicate IsDigit(c: char) {
    '0' <= c <= '9'
  }

  function DigitValue(c: char): nat
    requires IsDigit(c)
  {
    (c as int) - ('0' as int)
  }

  function DigitChar(d: nat): (c: char)
    requires d < 10
    ensures IsDigit(c) && DigitValue(c) == d
  {
    (('0' as int) + d) as char
  }

  predicate AllDigits(s: string) {
    forall i :: 0 <= i < |s| ==> IsDigit(s[i])
  }

  /** Numeric value of a string of decimal digits (leading zeros allowed). */
  function DecimalValue(s: string): nat
    requires AllDigits(s)
  {
    if |s| == 0 then 0 else 10 * DecimalValue(s[..|s| - 1]) + DigitValue(s[|s| - 1])
  }

  /** `n.toString()` for a natural number: decimal digits, no leading zeros. */
  function NatToString(n: nat): (s: string)
    ensures |s| >= 1 && AllDigits(s)
    ensures DecimalValue(s) == n
    ensures |s| > 1 ==> s[0] != '0'
  {
    if n < 10 then [DigitChar(n)]
    else
      var p := NatToString(n / 10);
      var s := p + [DigitChar(n % 10)];
      assert s[..|s| - 1] == p;
      s
  }

  /** `Number(s)` on the strings the model supports: a non-empty run of
      decimal digits parses to its value; everything else is NaN (`None`). */
  function ParseDecimal(s: string): (r: Option<nat>)
    ensures r.Some? <==> |s| > 0 && AllDigits(s)
    ensures r.Some? ==> r.value == DecimalValue(s)
  {
    if |s| > 0 && AllDigits(s) then Some(DecimalValue(s)) else None
  }

  /** `str.padStart(width, '0')`. */
  function PadStartZero(s: string, width: nat): (r: string)
    ensures |s| >= width ==> r == s
    ensures |s| < width ==> |r| == width && r[width - |s|..] == s
    ensures |s| < width ==> forall i :: 0 <= i < width - |s| ==> r[i] == '0'
  {
    if |s| >= width then s else seq(width - |s|, _ => '0') + s
  }

  /** Leading zeros do not change the decimal value. */
  lemma {:induction false} ZerosValue(k: nat, s: string)
    requires AllDigits(s)
    ensures AllDigits(seq(k, _ => '0') + s)
    ensures DecimalValue(seq(k, _ => '0') + s) == DecimalValue(s)
    decreases |s|, k
  {
    var z := seq(k, _ => '0');
    var t := z + s;
    assert forall i :: 0 <= i < |t| ==> IsDigit(t[i]) by {
      forall i | 0 <= i < |t| ensures IsDigit(t[i]) {
        if i < k { assert t[i] == '0'; } else { assert t[i] == s[i - k]; }
      }
    }
    if |s| == 0 {
      assert t == z;
      if k > 0 {
        assert t[..|t| - 1] == seq(k - 1, _ => '0') + s;
        ZerosValue(k - 1, s);
      }
    } else {
      assert t[..|t| - 1] == z + s[..|s| - 1];
      ZerosValue(k, s[..|s| - 1]);
    }
  }

  /** Characters JavaScript's `String.prototype.trim` removes: the
      WhiteSpace and LineTerminator code points of section 12.2 and 12.3 of
      ECMA-262 (tab, vertical tab, form feed, the byte-order mark, every space
      separator of Unicode category Zs, and the four line terminators). */
  predicate IsTrimSpace(c: char) {
    c == '\t' || c == '\U{000B}' || c == '\U{000C}' || c == '\U{FEFF}'
    || c == '\n' || c == '\r' || c == '\U{2028}' || c == '\U{2029}'
    || c == ' ' || c == '\U{00A0}' || c == '\U{1680}'
    || ('\U{2000}' <= c <= '\U{200A}')
    || c == '\U{202F}' || c == '\U{205F}' || c == '\U{3000}'
  }

  function TrimStart(s: string): (r: string)
    ensures |r| <= |s| && r == s[|s| - |r|..]
    ensures |r| > 0 ==> !IsTrimSpace(r[0])
    ensures forall k :: 0 <= k < |s| - |r| ==> IsTrimSpace(s[k])
  {
    if |s| > 0 && IsTrimSpace(s[0]) then TrimStart(s[1..]) else s
  }

  function TrimEnd(s: string): (r: string)
    ensures |r| <= |s| && r == s[..|r|]
    ensures |r| > 0 ==> !IsTrimSpace(r[|r| - 1])
    ensures forall k :: |r| <= k < |s| ==> IsTrimSpace(s[k])
  {
    if |s| > 0 && IsTrimSpace(s[|s| - 1]) then TrimEnd(s[..|s| - 1]) else s
  }

  /** `String.prototype.trim`: the result is the slice of the input after
      its leading whitespace that neither starts nor ends with whitespace,
      and everything cut off after it is whitespace. */
  function Trim(s: string): (r: string)
    ensures |r| <= |s|
    ensures |r| > 0 ==> !IsTrimSpace(r[0]) && !IsTrimSpace(r[|r| - 1])
    ensures LeadingSpace(s) + |r| <= |s|
    ensures r == s[LeadingSpace(s)..LeadingSpace(s) + |r|]
    ensures forall k :: LeadingSpace(s) + |r| <= k < |s| ==> IsTrimSpace(s[k])
  {
    LeadingSpaceTrimmed(s);
    SliceAfter(s, TrimStart(s), TrimEnd(TrimStart(s)), LeadingSpace(s));
    TrimEnd(TrimStart(s))
  }

  /** A prefix `r` of `t == s[a..]` whose remainder is whitespace is the
      slice `s[a..a + |r|]`, and everything after it is whitespace. */
  lemma SliceAfter(s: string, t: string, r: string, a: nat)
    requires a <= |s| && t == s[a..] && |r| <= |t| && r == t[..|r|]
    requires forall j :: |r| <= j < |t| ==> IsTrimSpace(t[j])
    ensures a + |r| <= |s| && r == s[a..a + |r|]
    ensures forall k :: a + |r| <= k < |s| ==> IsTrimSpace(s[k])
  {
    forall k | a + |r| <= k < |s| ensures IsTrimSpace(s[k]) {
      assert s[k] == t[k - a];
    }
  }

  /** The number of whitespace characters a string starts with. */
  function LeadingSpace(s: string): (n: nat)
    ensures n <= |s|
    ensures forall k :: 0 <= k < n ==> IsTrimSpace(s[k])
    ensures n < |s| ==> !IsTrimSpace(s[n])
  {
    if |s| > 0 && IsTrimSpace(s[0]) then 1 + LeadingSpace(s[1..]) else 0
  }

  lemma {:induction false} LeadingSpaceTrimmed(s: string)
    ensures |s| - |TrimStart(s)| == LeadingSpace(s)
  {
    if |s| > 0 && IsTrimSpace(s[0]) {
      LeadingSpaceTrimmed(s[1..]);
    }
  }

  /** A string with no surrounding whitespace is its own trim. */
  lemma TrimIdentity(s: string)
    requires |s| > 0 ==> !IsTrimSpace(s[0]) && !IsTrimSpace(s[|s| - 1])
    ensures Trim(s) == s
  {
  }

  /** A UTF-16 code unit. A JavaScript string is a sequence of these:
      `length`, `slice`, `charCodeAt` and a textarea's selection offsets all
      count code units, while a Dafny `char` is a whole Unicode scalar value. */
  newtype CodeUnit = x: int | 0 <= x < 0x1_0000

  const Newline: CodeUnit := 0x0A

  /** The UTF-16 encoding of one scalar value: itself below U+10000, a
      high/low surrogate pair above. */
  function Utf16Char(c: char): (r: seq<CodeUnit>)
    ensures |r| == 1 <==> (c as int) < 0x1_0000
    ensures |r| == 1 || |r| == 2
    ensures |r| == 1 ==> r[0] as int == c as int
  {
    var v := c as int;
    if v < 0x1_0000 then [v as CodeUnit]
    else
      var w := v - 0x1_0000;
      [(0xD800 + w / 0x400) as CodeUnit, (0xDC00 + w % 0x400) as CodeUnit]
  }

  /** The string as JavaScript holds it. */
  function Utf16(s: string): (r: seq<CodeUnit>)
    ensures |r| >= |s|
  {
    if |s| == 0 then [] else Utf16Char(s[0]) + Utf16(s[1..])
  }

  predicate IsHighSurrogate(u: CodeUnit) {
    0xD800 <= u < 0xDC00
  }

  predicate IsLowSurrogate(u: CodeUnit) {
    0xDC00 <= u < 0xE000
  }

  /** Decoding well-formed UTF-16; `None` on a lone surrogate. */
  function Utf16Decode(u: seq<CodeUnit>): (r: Option<string>)
    decreases |u|
  {
    if |u| == 0 then Some("")
    else if !IsHighSurrogate(u[0]) && !IsLowSurrogate(u[0]) then
      match Utf16Decode(u[1..])
      case None => None
      case Some(rest) => Some([(u[0] as int) as char] + rest)
    else if IsHighSurrogate(u[0]) && |u| >= 2 && IsLowSurrogate(u[1]) then
      var v := 0x1_0000 + (u[0] as int - 0xD800) * 0x400 + (u[1] as int - 0xDC00);
      match Utf16Decode(u[2..])
      case None => None
      case Some(rest) => Some([v as char] + rest)
    else None
  }

  /** Encoding one scalar value and decoding it back, in front of any tail. */
  lemma DecodeChar(c: char, tail: seq<CodeUnit>)
    ensures var e := Utf16Char(c) + tail;
      Utf16Decode(e) == (match Utf16Decode(tail) case None => None case Some(rest) => Some([c] + rest))
  {
    var e := Utf16Char(c) + tail;
    var v := c as int;
    if v < 0x1_0000 {
      assert e[1..] == tail;
    } else {
      var w := v - 0x1_0000;
      assert w == (w / 0x400) * 0x400 + w % 0x400;
      assert e[2..] == tail;
    }
  }

  /** Decoding inverts encoding, so the encoding loses nothing. */
  lemma {:induction false} Utf16RoundTrip(s: string)
    ensures Utf16Decode(Utf16(s)) == Some(s)
  {
    if |s| > 0 {
      Utf16RoundTrip(s[1..]);
      DecodeChar(s[0], Utf16(s[1..]));
      assert [s[0]] + s[1..] == s;
    }
  }

  /** The number of characters above the Basic Multilingual Plane. */
  function AstralCount(s: string): nat {
    if |s| == 0 then 0 else (if (s[0] as int) >= 0x1_0000 then 1 else 0) + AstralCount(s[1..])
  }

  /** Every character above the Basic Multilingual Plane takes two code
      units; on text inside it code units and characters coincide. */
  lemma {:induction false} Utf16Length(s: string)
    ensures |Utf16(s)| == |s| + AstralCount(s)
    ensures AstralCount(s) == 0 ==> forall i :: 0 <= i < |s| ==> Utf16(s)[i] as int == s[i] as int
  {
    if |s| > 0 {
      Utf16Length(s[1..]);
      if AstralCount(s) == 0 {
        forall i | 0 <= i < |s| ensures Utf16(s)[i] as int == s[i] as int {
          if i > 0 {
            assert Utf16(s)[i] == Utf16(s[1..])[i - 1];
          }
        }
      }
    }
  }
}
