/** The string operations the console prompts rely on, written out as Python
    defines them: `str.strip()`, `str.split(',')`, the `lower() == 'yes'`
    test and `int(str)` for the count prompt. */
module Text {
  import opened Wrappers

  /** Python's `str.isspace` for a single character. */
  predicate IsSpace(c: char) {
    || c == ' ' || ('\t' <= c <= '\r') || ('\U{1C}' <= c <= '\U{1F}')
    || c == '\U{85}' || c == '\U{A0}' || c == '\U{1680}'
    || ('\U{2000}' <= c <= '\U{200A}') || c == '\U{2028}' || c == '\U{2029}'
    || c == '\U{202F}' || c == '\U{205F}' || c == '\U{3000}'
  }

  /** The whitespace `int()` skips around its digits. CPython first turns
      every non-ASCII `isspace` character into a space, then skips only the
      ASCII whitespace `\t\n\v\f\r` and space, so U+001C-U+001F, which
      `isspace` accepts, are not skipped. */
  predicate IntSpace(c: char) {
    c == ' ' || ('\t' <= c <= '\r') || (c as int >= 128 && IsSpace(c))
  }

  /** `s` without its leading characters in `ws`. */
  function TrimLeft(s: string, ws: char -> bool): (r: string)
    ensures |r| <= |s|
  {
    if |s| > 0 && ws(s[0]) then TrimLeft(s[1..], ws) else s
  }

  /** `TrimLeft` drops only characters in `ws`, and all of them. */
  lemma {:induction false} TrimLeftSpaces(s: string, ws: char -> bool)
    ensures TrimLeft(s, ws) == s[|s| - |TrimLeft(s, ws)|..]
    ensures forall k :: 0 <= k < |s| - |TrimLeft(s, ws)| ==> ws(s[k])
    ensures |TrimLeft(s, ws)| > 0 ==> !ws(TrimLeft(s, ws)[0])
  {
    if |s| > 0 && ws(s[0]) {
      TrimLeftSpaces(s[1..], ws);
    }
  }

  /** `s` without its trailing characters in `ws`. */
  function TrimRight(s: string, ws: char -> bool): (r: string)
    ensures |r| <= |s|
  {
    if |s| > 0 && ws(s[|s| - 1]) then TrimRight(s[..|s| - 1], ws) else s
  }

  /** `TrimRight` drops only characters in `ws`, and all of them. */
  lemma {:induction false} TrimRightSpaces(s: string, ws: char -> bool)
    ensures TrimRight(s, ws) == s[..|TrimRight(s, ws)|]
    ensures forall k :: |TrimRight(s, ws)| <= k < |s| ==> ws(s[k])
    ensures |TrimRight(s, ws)| > 0 ==> !ws(TrimRight(s, ws)[|TrimRight(s, ws)| - 1])
  {
    if |s| > 0 && ws(s[|s| - 1]) {
      TrimRightSpaces(s[..|s| - 1], ws);
    }
  }

  /** True when `s` neither starts nor ends with a character in `ws`. */
  predicate Trimmed(s: string, ws: char -> bool) {
    |s| > 0 ==> !ws(s[0]) && !ws(s[|s| - 1])
  }

  /** `s` without the characters in `ws` at either end. */
  function StripWith(s: string, ws: char -> bool): (r: string)
    ensures |r| <= |s|
  {
    TrimRight(TrimLeft(s, ws), ws)
  }

  /** Python's `s.strip()`. */
  function Strip(s: string): (r: string)
    ensures |r| <= |s|
  {
    StripWith(s, IsSpace)
  }

  /** The surrounding whitespace `int()` ignores removed. */
  function IntStrip(s: string): (r: string)
    ensures |r| <= |s|
  {
    StripWith(s, IntSpace)
  }

  /** `Strip` keeps the longest slice of `s` that neither starts nor ends with
      whitespace: it only ever drops whitespace, from both ends. */
  lemma StripSlice(s: string)
    ensures Trimmed(Strip(s), IsSpace)
    ensures exists i, j :: (0 <= i <= j <= |s| && Strip(s) == s[i..j]
      && (forall k :: 0 <= k < i ==> IsSpace(s[k]))
      && (forall k :: j <= k < |s| ==> IsSpace(s[k])))
  {
    StripEnds(s, IsSpace);
    var l := TrimLeft(s, IsSpace);
    var r := TrimRight(l, IsSpace);
    TrimLeftSpaces(s, IsSpace);
    TrimRightSpaces(l, IsSpace);
    var i, j := |s| - |l|, |s| - |l| + |r|;
    forall k | j <= k < |s|
      ensures IsSpace(s[k])
    {
      assert s[k] == l[k - i];
    }
    assert r == s[i..j];
  }

  /** The stripped string neither starts nor ends with a character in `ws`. */
  lemma StripEnds(s: string, ws: char -> bool)
    ensures Trimmed(StripWith(s, ws), ws)
  {
    var l := TrimLeft(s, ws);
    var r := TrimRight(l, ws);
    TrimLeftSpaces(s, ws);
    TrimRightSpaces(l, ws);
    if |r| > 0 {
      assert r[0] == l[0];
    }
  }

  /** Stripping a string that is already trimmed changes nothing. */
  lemma StripTrimmed(s: string, ws: char -> bool)
    requires Trimmed(s, ws)
    ensures StripWith(s, ws) == s
  {
  }

  /** Stripping is idempotent. */
  lemma StripIdempotent(s: string)
    ensures Strip(Strip(s)) == Strip(s)
  {
    StripSlice(s);
    StripTrimmed(Strip(s), IsSpace);
  }

  /** Python's `s.split(sep)` with an explicit separator: always at least one
      piece, and no piece holds the separator. */
  function Split(s: string, sep: char): (r: seq<string>)
    ensures |r| >= 1
    ensures forall k :: 0 <= k < |r| ==> sep !in r[k]
  {
    if |s| == 0 then [""]
    else
      var rest := Split(s[1..], sep);
      if s[0] == sep then [""] + rest
      else [[s[0]] + rest[0]] + rest[1..]
  }

  /** `sep.join(parts)`, the inverse of `Split`. */
  function Join(parts: seq<string>, sep: char): string
    requires |parts| >= 1
  {
    if |parts| == 1 then parts[0] else parts[0] + [sep] + Join(parts[1..], sep)
  }

  /** Splitting and re-joining gives back the input: the pieces cover every
      character of the line, in order. */
  lemma {:induction false} JoinSplit(s: string, sep: char)
    ensures Join(Split(s, sep), sep) == s
  {
    if |s| > 0 {
      var rest := Split(s[1..], sep);
      JoinSplit(s[1..], sep);
      if s[0] == sep {
        assert Split(s, sep) == [""] + rest;
        assert ([""] + rest)[1..] == rest;
      } else {
        var r := Split(s, sep);
        assert r == [[s[0]] + rest[0]] + rest[1..];
        if |rest| > 1 {
          assert r[1..] == rest[1..];
          assert Join(rest, sep) == rest[0] + [sep] + Join(rest[1..], sep);
        }
        assert s == [s[0]] + s[1..];
      }
    }
  }

  /** A separator-free piece followed by the separator splits off as one
      piece. */
  lemma {:induction false} SplitCons(p: string, sep: char, rest: string)
    requires sep !in p
    ensures Split(p + [sep] + rest, sep) == [p] + Split(rest, sep)
  {
    if |p| == 0 {
      assert p + [sep] + rest == [sep] + rest;
      assert ([sep] + rest)[1..] == rest;
    } else {
      var s := p + [sep] + rest;
      assert s[1..] == p[1..] + [sep] + rest;
      SplitCons(p[1..], sep, rest);
      assert [p[0]] + p[1..] == p;
    }
  }

  /** A separator-free string is a single piece. */
  lemma {:induction false} SplitSingle(p: string, sep: char)
    requires sep !in p
    ensures Split(p, sep) == [p]
  {
    if |p| > 0 {
      SplitSingle(p[1..], sep);
      assert [p[0]] + p[1..] == p;
    }
  }

  /** Joining separator-free pieces and splitting again gives the pieces
      back. */
  lemma {:induction false} SplitJoin(parts: seq<string>, sep: char)
    requires |parts| >= 1
    requires forall k :: 0 <= k < |parts| ==> sep !in parts[k]
    ensures Split(Join(parts, sep), sep) == parts
  {
    if |parts| == 1 {
      SplitSingle(parts[0], sep);
    } else {
      SplitJoin(parts[1..], sep);
      SplitCons(parts[0], sep, Join(parts[1..], sep));
      assert [parts[0]] + parts[1..] == parts;
    }
  }

  /** ASCII lower-casing of one character. */
  function LowerChar(c: char): char {
    if 'A' <= c <= 'Z' then (c as int + 32) as char else c
  }

  /** The answer to "handle null values?" counts as yes when it lower-cases to
      "yes". No character outside ASCII lower-cases to 'y', 'e' or 's', so
      ASCII lower-casing decides the comparison exactly. */
  predicate IsYes(answer: string) {
    |answer| == 3 && LowerChar(answer[0]) == 'y' && LowerChar(answer[1]) == 'e' && LowerChar(answer[2]) == 's'
  }

  /** The yes-test accepts exactly the eight capitalisations of "yes". */
  lemma IsYesCases(answer: string)
    ensures IsYes(answer) <==>
      |answer| == 3 && answer[0] in "yY" && answer[1] in "eE" && answer[2] in "sS"
  {
  }

  predicate IsDigit(c: char) {
    '0' <= c <= '9'
  }

  /** Value of a string of decimal digits. */
  function DigitsValue(s: string): (r: nat)
    requires forall k :: 0 <= k < |s| ==> IsDigit(s[k])
  {
    if |s| == 0 then 0
    else
      var d := s[|s| - 1] as int - '0' as int;
      assert IsDigit(s[|s| - 1]);
      10 * DigitsValue(s[..|s| - 1]) + d
  }

  /** The digit body Python's `int()` accepts: digits, with single
      underscores allowed between two digits. */
  predicate ValidDigits(b: string) {
    && |b| > 0
    && IsDigit(b[0]) && IsDigit(b[|b| - 1])
    && (forall k :: 0 <= k < |b| ==> IsDigit(b[k]) || b[k] == '_')
    && NoDoubleUnderscore(b)
  }

  /** No two underscores stand next to each other. */
  predicate NoDoubleUnderscore(b: string) {
    |b| < 2 || (!(b[0] == '_' && b[1] == '_') && NoDoubleUnderscore(b[1..]))
  }

  /** A non-empty run of digits is a valid digit body. */
  lemma {:induction false} DigitsValid(b: string)
    requires |b| > 0 && forall k :: 0 <= k < |b| ==> IsDigit(b[k])
    ensures ValidDigits(b)
  {
    if |b| >= 2 {
      DigitsValid(b[1..]);
    }
  }

  /** `b` with its underscores removed. */
  function DropUnderscores(b: string): (r: string)
    requires forall k :: 0 <= k < |b| ==> IsDigit(b[k]) || b[k] == '_'
    ensures forall k :: 0 <= k < |r| ==> IsDigit(r[k])
  {
    if |b| == 0 then []
    else if b[0] == '_' then DropUnderscores(b[1..])
    else [b[0]] + DropUnderscores(b[1..])
  }

  /** A body without underscores is kept as it is. */
  lemma {:induction false} DropUnderscoresDigits(b: string)
    requires forall k :: 0 <= k < |b| ==> IsDigit(b[k])
    ensures DropUnderscores(b) == b
  {
    if |b| > 0 {
      DropUnderscoresDigits(b[1..]);
      assert b == [b[0]] + b[1..];
    }
  }

  /** Python's `int(s)` in base 10: surrounding whitespace is ignored, one
      optional sign, then a digit body; anything else is a ValueError
      (`None`). */
  function ParseInt(s: string): (r: Option<int>)
    ensures r.Some? ==> |IntStrip(s)| > 0
  {
    ParseSigned(IntStrip(s))
  }

  /** `int()` once the surrounding whitespace is gone: one optional sign,
      then a digit body. */
  function ParseSigned(t: string): (r: Option<int>)
    ensures r.Some? ==> |t| > 0
  {
    if |t| == 0 then None
    else if t[0] == '-' then
      match ParseBody(t[1..])
      case Some(v) => Some(-(v as int))
      case None => None
    else if t[0] == '+' then
      match ParseBody(t[1..])
      case Some(v) => Some(v as int)
      case None => None
    else
      match ParseBody(t)
      case Some(v) => Some(v as int)
      case None => None
  }

  /** The unsigned digit body, underscores dropped. */
  function ParseBody(b: string): Option<nat> {
    if ValidDigits(b) && |DropUnderscores(b)| <= MaxStrDigits then Some(DigitsValue(DropUnderscores(b)))
    else None
  }

  /** Python's default limit on the digits `int()` converts from a decimal
      string; a longer one is a ValueError (Python 3.11 and the 3.7-3.10
      security releases). Underscores do not count. */
  const MaxStrDigits: nat := 4300

  /** The decimal rendering of `n` has no more digits than `int()` accepts. */
  predicate WithinDigitLimit(n: int) {
    |ShowNat(if n < 0 then -n else n)| <= MaxStrDigits
  }

  function DigitChar(d: nat): (c: char)
    requires d < 10
    ensures IsDigit(c) && c as int - '0' as int == d
  {
    ('0' as int + d) as char
  }

  /** Decimal rendering of a natural number, without leading zeros. */
  function ShowNat(n: nat): (r: string)
    ensures |r| > 0
    ensures forall k :: 0 <= k < |r| ==> IsDigit(r[k])
  {
    if n < 10 then [DigitChar(n)] else ShowNat(n / 10) + [DigitChar(n % 10)]
  }

  /** Decimal rendering of an integer, as `str(n)` prints it. */
  function Show(n: int): string {
    if n < 0 then "-" + ShowNat(-n) else ShowNat(n)
  }

  lemma {:induction false} DigitsShowNat(n: nat)
    ensures DigitsValue(ShowNat(n)) == n
  {
    if n >= 10 {
      DigitsShowNat(n / 10);
      var s := ShowNat(n);
      assert s[..|s| - 1] == ShowNat(n / 10);
    }
  }

  /** A decimal digit is not whitespace. */
  lemma DigitNotSpace(c: char)
    requires IsDigit(c)
    ensures !IsSpace(c) && !IntSpace(c)
  {
  }

  /** What `str(n)` prints has no surrounding whitespace. */
  lemma ShowTrimmed(n: int)
    ensures Trimmed(Show(n), IntSpace)
  {
    var m: nat := if n < 0 then -n else n;
    var digits := ShowNat(m);
    var s := Show(n);
    DigitNotSpace(digits[0]);
    DigitNotSpace(digits[|digits| - 1]);
    if n < 0 {
      assert s == "-" + digits && s[|s| - 1] == digits[|digits| - 1];
    } else {
      assert s == digits;
    }
  }

  /** The digits `str` prints for a natural number read back as that number. */
  lemma BodyShowNat(m: nat)
    ensures ParseBody(ShowNat(m)) == if |ShowNat(m)| <= MaxStrDigits then Some(m) else None
  {
    var digits := ShowNat(m);
    DigitsShowNat(m);
    DigitsValid(digits);
    DropUnderscoresDigits(digits);
  }

  /** A leading minus negates whatever the rest reads as. */
  lemma MinusBody(t: string)
    ensures ParseSigned("-" + t)
      == (if ParseBody(t).Some? then Some(-(ParseBody(t).value as int)) else None)
  {
    SignTail('-', t);
  }

  /** Without a sign the whole string is the digit body. */
  lemma UnsignedBody(t: string)
    requires |t| > 0 && t[0] != '-' && t[0] != '+'
    ensures ParseSigned(t)
      == (if ParseBody(t).Some? then Some(ParseBody(t).value as int) else None)
  {
  }

  /** Prefixing one character and dropping it again gives back the string. */
  lemma SignTail(c: char, t: string)
    ensures ([c] + t)[0] == c && ([c] + t)[1..] == t
  {
  }

  /** `int(str(n))` is `n` for every integer whose rendering is within the
      digit limit, and a ValueError (`None`) for every longer one. */
  lemma ParseShow(n: int)
    ensures ParseInt(Show(n)) == if WithinDigitLimit(n) then Some(n) else None
  {
    var m: nat := if n < 0 then -n else n;
    var digits := ShowNat(m);
    BodyShowNat(m);
    ShowTrimmed(n);
    StripTrimmed(Show(n), IntSpace);
    if n < 0 {
      assert Show(n) == "-" + digits;
      MinusBody(digits);
    } else {
      assert Show(n) == digits;
      assert IsDigit(digits[0]);
      UnsignedBody(digits);
    }
  }

  /** Trimming `ws` characters off the left of a `ws`-only prefix followed by
      a string that does not start with one leaves exactly that string. */
  lemma {:induction false} TrimLeftPad(a: string, t: string, ws: char -> bool)
    requires forall k :: 0 <= k < |a| ==> ws(a[k])
    requires |t| > 0 ==> !ws(t[0])
    ensures TrimLeft(a + t, ws) == t
  {
    if |a| == 0 {
      assert a + t == t;
    } else {
      assert (a + t)[0] == a[0];
      assert (a + t)[1..] == a[1..] + t;
      TrimLeftPad(a[1..], t, ws);
    }
  }

  /** The mirror of `TrimLeftPad` for a `ws`-only suffix. */
  lemma {:induction false} TrimRightPad(t: string, b: string, ws: char -> bool)
    requires forall k :: 0 <= k < |b| ==> ws(b[k])
    requires |t| > 0 ==> !ws(t[|t| - 1])
    ensures TrimRight(t + b, ws) == t
  {
    if |b| == 0 {
      assert t + b == t;
    } else {
      var u := t + b;
      assert u[|u| - 1] == b[|b| - 1];
      assert u[..|u| - 1] == t + b[..|b| - 1];
      TrimRightPad(t, b[..|b| - 1], ws);
    }
  }

  /** `int()` reads a rendered integer padded on both sides with the
      whitespace it skips exactly as the bare rendering. */
  lemma ParsePadded(a: string, n: int, b: string)
    requires forall k :: 0 <= k < |a| ==> IntSpace(a[k])
    requires forall k :: 0 <= k < |b| ==> IntSpace(b[k])
    ensures ParseInt(a + Show(n) + b) == if WithinDigitLimit(n) then Some(n) else None
  {
    var s := Show(n);
    ShowTrimmed(n);
    assert |s| > 0 by {
      if n < 0 { assert s == "-" + ShowNat(-n); } else { assert s == ShowNat(n); }
    }
    assert a + s + b == a + (s + b);
    assert (s + b)[0] == s[0];
    TrimLeftPad(a, s + b, IntSpace);
    TrimRightPad(s, b, IntSpace);
    ParseShow(n);
    StripTrimmed(s, IntSpace);
  }

  /** `int()` ignores ASCII and non-ASCII whitespace around the digits, but
      not the separators U+001C-U+001F, although `strip()` removes those. */
  lemma ParseIntSpaces()
    ensures ParseInt(" 5\n") == Some(5)
    ensures ParseInt("\U{A0}-7\U{3000}") == Some(-7)
    ensures ParseInt("\U{1C}5") == None
    ensures Strip("\U{1C}5") == "5"
  {
    assert IntStrip(" 5\n") == "5";
    assert IntStrip("\U{A0}-7\U{3000}") == "-7";
    assert "-7"[1..] == "7";
    assert IntStrip("\U{1C}5") == "\U{1C}5";
  }
}
