/**
 * The three Python built-ins that turn a hook's stdout into a number:
 * `bytes.decode("utf-8")` (the strict codec), `str.strip()` with no argument,
 * and `int(text)` in base 10.
 */
module PyText {
  import opened Wrappers

  type byte = x: int | 0 <= x < 256

  // ---------------------------------------------------------------------------
  // UTF-8, as Python's strict "utf-8" codec reads it: shortest forms only, no
  // surrogates, nothing above U+10FFFF.

  datatype Scalar = Invalid | Valid(c: char, size: nat)

  predicate IsContinuation(b: byte) {
    0x80 <= b <= 0xBF
  }

  /** The scalar value and the length of the well-formed sequence that starts `b`. */
  function DecodeFirst(b: seq<byte>): (r: Scalar)
    requires |b| > 0
    ensures r.Valid? ==> 1 <= r.size <= 4 && r.size <= |b|
  {
    var b0: int := b[0];
    var b1: int := if |b| > 1 then b[1] else 0;
    var b2: int := if |b| > 2 then b[2] else 0;
    var b3: int := if |b| > 3 then b[3] else 0;
    if b0 <= 0x7F then
      Valid(b0 as char, 1)
    else if 0xC2 <= b0 <= 0xDF then
      if |b| >= 2 && IsContinuation(b[1])
      then Valid(((b0 - 0xC0) * 0x40 + (b1 - 0x80)) as char, 2)
      else Invalid
    else if 0xE0 <= b0 <= 0xEF then
      var lo := if b0 == 0xE0 then 0xA0 else 0x80;
      var hi := if b0 == 0xED then 0x9F else 0xBF;
      if |b| >= 3 && lo <= b1 <= hi && IsContinuation(b[2])
      then Valid(((b0 - 0xE0) * 0x1000 + (b1 - 0x80) * 0x40 + (b2 - 0x80)) as char, 3)
      else Invalid
    else if 0xF0 <= b0 <= 0xF4 then
      var lo := if b0 == 0xF0 then 0x90 else 0x80;
      var hi := if b0 == 0xF4 then 0x8F else 0xBF;
      if |b| >= 4 && lo <= b1 <= hi && IsContinuation(b[2]) && IsContinuation(b[3])
      then Valid(((b0 - 0xF0) * 0x40000 + (b1 - 0x80) * 0x1000 + (b2 - 0x80) * 0x40 + (b3 - 0x80)) as char, 4)
      else Invalid
    else
      Invalid
  }

  /** `bytes.decode("utf-8")`: the text, or None where Python raises UnicodeDecodeError. */
  function Decode(b: seq<byte>): Option<string>
    decreases |b|
  {
    if b == [] then Some([])
    else
      match DecodeFirst(b)
      case Invalid => None
      case Valid(c, n) =>
        match Decode(b[n..])
        case None => None
        case Some(rest) => Some([c] + rest)
  }

  /** The UTF-8 encoding of one scalar value. */
  function EncodeChar(c: char): (r: seq<byte>)
    ensures 1 <= |r| <= 4
  {
    var n := c as int;
    if n < 0x80 then [n]
    else if n < 0x800 then [0xC0 + n / 0x40, 0x80 + n % 0x40]
    else if n < 0x10000 then [0xE0 + n / 0x1000, 0x80 + (n / 0x40) % 0x40, 0x80 + n % 0x40]
    else [0xF0 + n / 0x40000, 0x80 + (n / 0x1000) % 0x40, 0x80 + (n / 0x40) % 0x40, 0x80 + n % 0x40]
  }

  /** `str.encode("utf-8")`. */
  function Encode(s: string): seq<byte> {
    if s == [] then [] else EncodeChar(s[0]) + Encode(s[1..])
  }

  lemma DivModSplit(n: int, d: int)
    requires d > 0
    ensures n == (n / d) * d + n % d
  {
  }

  lemma DecodeFirstEncode2(c: char, rest: seq<byte>)
    requires 0x80 <= c as int < 0x800
    ensures DecodeFirst(EncodeChar(c) + rest) == Valid(c, 2)
  {
    var n := c as int;
    var e := EncodeChar(c) + rest;
    DivModSplit(n, 0x40);
    assert e[0] == 0xC0 + n / 0x40 && e[1] == 0x80 + n % 0x40;
  }

  lemma DecodeFirstEncode3(c: char, rest: seq<byte>)
    requires 0x800 <= c as int < 0x10000
    ensures DecodeFirst(EncodeChar(c) + rest) == Valid(c, 3)
  {
    var n := c as int;
    var e := EncodeChar(c) + rest;
    var q := n / 0x40;
    DivModSplit(n, 0x40);
    DivModSplit(q, 0x40);
    assert q / 0x40 == n / 0x1000;
    assert e[0] == 0xE0 + n / 0x1000 && e[1] == 0x80 + q % 0x40 && e[2] == 0x80 + n % 0x40;
    assert n == (n / 0x1000) * 0x1000 + (q % 0x40) * 0x40 + n % 0x40;
  }

  lemma DecodeFirstEncode4(c: char, rest: seq<byte>)
    requires 0x10000 <= c as int
    ensures DecodeFirst(EncodeChar(c) + rest) == Valid(c, 4)
  {
    var n := c as int;
    var e := EncodeChar(c) + rest;
    var q := n / 0x40;
    var q2 := q / 0x40;
    DivModSplit(n, 0x40);
    DivModSplit(q, 0x40);
    DivModSplit(q2, 0x40);
    assert q2 == n / 0x1000;
    assert q2 / 0x40 == n / 0x40000;
    assert e[0] == 0xF0 + n / 0x40000 && e[1] == 0x80 + q2 % 0x40;
    assert e[2] == 0x80 + q % 0x40 && e[3] == 0x80 + n % 0x40;
    assert n == (n / 0x40000) * 0x40000 + (q2 % 0x40) * 0x1000 + (q % 0x40) * 0x40 + n % 0x40;
  }

  /** Decoding the head of an encoded character gives back that character and its length. */
  lemma DecodeFirstEncodeChar(c: char, rest: seq<byte>)
    ensures DecodeFirst(EncodeChar(c) + rest) == Valid(c, |EncodeChar(c)|)
  {
    var n := c as int;
    if n < 0x80 {
    } else if n < 0x800 {
      DecodeFirstEncode2(c, rest);
    } else if n < 0x10000 {
      DecodeFirstEncode3(c, rest);
    } else {
      DecodeFirstEncode4(c, rest);
    }
  }

  /** Decoding is the inverse of encoding: every text survives the round trip. */
  lemma {:induction false} DecodeEncode(s: string)
    ensures Decode(Encode(s)) == Some(s)
  {
    if s != [] {
      var head := EncodeChar(s[0]);
      var tail := Encode(s[1..]);
      DecodeFirstEncodeChar(s[0], tail);
      assert (head + tail)[|head|..] == tail;
      DecodeEncode(s[1..]);
      assert [s[0]] + s[1..] == s;
    }
  }

  lemma EncodeDecodeFirst2(b: seq<byte>)
    requires |b| > 0 && 0xC2 <= b[0] <= 0xDF && DecodeFirst(b).Valid?
    ensures EncodeChar(DecodeFirst(b).c) == b[..2]
  {
    var x0: int, x1: int := b[0] - 0xC0, b[1] - 0x80;
    var n := x0 * 0x40 + x1;
    assert DecodeFirst(b).c as int == n;
    assert n / 0x40 == x0 && n % 0x40 == x1;
  }

  lemma EncodeDecodeFirst3(b: seq<byte>)
    requires |b| > 0 && 0xE0 <= b[0] <= 0xEF && DecodeFirst(b).Valid?
    ensures EncodeChar(DecodeFirst(b).c) == b[..3]
  {
    var x0: int, x1: int, x2: int := b[0] - 0xE0, b[1] - 0x80, b[2] - 0x80;
    var q := x0 * 0x40 + x1;
    var n := q * 0x40 + x2;
    assert DecodeFirst(b).c as int == n;
    assert n / 0x40 == q && n % 0x40 == x2;
    assert q / 0x40 == x0 && q % 0x40 == x1;
    assert n / 0x1000 == x0;
  }

  lemma EncodeDecodeFirst4(b: seq<byte>)
    requires |b| > 0 && 0xF0 <= b[0] <= 0xF4 && DecodeFirst(b).Valid?
    ensures EncodeChar(DecodeFirst(b).c) == b[..4]
  {
    var x0: int, x1: int, x2: int, x3: int := b[0] - 0xF0, b[1] - 0x80, b[2] - 0x80, b[3] - 0x80;
    var q2 := x0 * 0x40 + x1;
    var q := q2 * 0x40 + x2;
    var n := q * 0x40 + x3;
    assert DecodeFirst(b).c as int == n;
    assert n / 0x40 == q && n % 0x40 == x3;
    assert q / 0x40 == q2 && q % 0x40 == x2;
    assert q2 / 0x40 == x0 && q2 % 0x40 == x1;
    assert n / 0x1000 == q2;
    assert n / 0x40000 == x0;
  }

  /** A well-formed sequence at the head of `b` is exactly the encoding of the character read from it. */
  lemma EncodeDecodeFirst(b: seq<byte>)
    requires |b| > 0 && DecodeFirst(b).Valid?
    ensures EncodeChar(DecodeFirst(b).c) == b[..DecodeFirst(b).size]
  {
    if b[0] <= 0x7F {
    } else if b[0] <= 0xDF {
      EncodeDecodeFirst2(b);
    } else if b[0] <= 0xEF {
      EncodeDecodeFirst3(b);
    } else {
      EncodeDecodeFirst4(b);
    }
  }

  /** A successful decode reads one character off the front and decodes the rest. */
  lemma DecodeCons(b: seq<byte>)
    requires b != [] && Decode(b).Some?
    ensures var r := DecodeFirst(b);
      && r.Valid?
      && Decode(b[r.size..]).Some?
      && Decode(b).value == [r.c] + Decode(b[r.size..]).value
  {
  }

  lemma EncodeCons(c: char, rest: string)
    ensures Encode([c] + rest) == EncodeChar(c) + Encode(rest)
  {
    assert ([c] + rest)[1..] == rest;
  }

  /** One step of the strict direction: if the rest re-encodes, so does the whole. */
  lemma EncodeDecodeStep(b: seq<byte>, r: Scalar, rest: string)
    requires b != [] && r == DecodeFirst(b) && r.Valid?
    requires Decode(b) == Some([r.c] + rest)
    requires Encode(rest) == b[r.size..]
    ensures Encode(Decode(b).value) == b
  {
    EncodeDecodeFirst(b);
    EncodeCons(r.c, rest);
    assert b[..r.size] + b[r.size..] == b;
  }

  /**
   * The strict direction: whatever the decoder accepts is the encoding of the text
   * it yields, so overlong forms, surrogates, values above U+10FFFF and truncated
   * sequences are all refused.
   */
  lemma {:induction false} EncodeDecode(b: seq<byte>)
    ensures Decode(b).Some? ==> Encode(Decode(b).value) == b
    decreases |b|
  {
    if b != [] && Decode(b).Some? {
      DecodeCons(b);
      var r := DecodeFirst(b);
      var tail := b[r.size..];
      EncodeDecode(tail);
      EncodeDecodeStep(b, r, Decode(tail).value);
    }
  }

  /** Decoding succeeds on exactly the encodings of texts, and then gives that text. */
  lemma DecodeIsEncodeInverse(b: seq<byte>, s: string)
    ensures Decode(b) == Some(s) <==> b == Encode(s)
  {
    EncodeDecode(b);
    DecodeEncode(s);
  }

  // ---------------------------------------------------------------------------
  // str.strip()

  /** `str.isspace()` for one character: bidirectional class WS, B or S, or category Zs. */
  predicate IsSpace(c: char) {
    var n := c as int;
    || 0x09 <= n <= 0x0D
    || 0x1C <= n <= 0x20
    || n == 0x85 || n == 0xA0 || n == 0x1680
    || 0x2000 <= n <= 0x200A
    || n == 0x2028 || n == 0x2029 || n == 0x202F || n == 0x205F || n == 0x3000
  }

  predicate AllSpace(s: string) {
    forall i :: 0 <= i < |s| ==> IsSpace(s[i])
  }

  /** `str.lstrip()`: the longest suffix that does not start with whitespace. */
  function StripLeading(s: string): (r: string)
    ensures |r| <= |s| && r == s[|s| - |r|..]
    ensures AllSpace(s[..|s| - |r|])
    ensures r == [] || !IsSpace(r[0])
    decreases |s|
  {
    if |s| > 0 && IsSpace(s[0]) then StripLeading(s[1..]) else s
  }

  /** `str.rstrip()`: the longest prefix that does not end with whitespace. */
  function StripTrailing(s: string): (r: string)
    ensures |r| <= |s| && r == s[..|r|]
    ensures AllSpace(s[|r|..])
    ensures r == [] || !IsSpace(r[|r| - 1])
    decreases |s|
  {
    if |s| > 0 && IsSpace(s[|s| - 1]) then StripTrailing(s[..|s| - 1]) else s
  }

  /** `str.strip()`. */
  function Strip(s: string): (r: string)
    ensures r == [] || (!IsSpace(r[0]) && !IsSpace(r[|r| - 1]))
  {
    StripTrailing(StripLeading(s))
  }

  lemma {:induction false} StripLeadingPadded(p: string, t: string)
    requires AllSpace(p)
    requires t == [] || !IsSpace(t[0])
    ensures StripLeading(p + t) == t
    decreases |p|
  {
    if p != [] {
      assert (p + t)[1..] == p[1..] + t;
      StripLeadingPadded(p[1..], t);
    }
  }

  lemma {:induction false} StripTrailingPadded(t: string, q: string)
    requires AllSpace(q)
    requires t == [] || !IsSpace(t[|t| - 1])
    ensures StripTrailing(t + q) == t
    decreases |q|
  {
    if q != [] {
      assert (t + q)[..|t + q| - 1] == t + q[..|q| - 1];
      StripTrailingPadded(t, q[..|q| - 1]);
    }
  }

  /** Whitespace on either side is removed and nothing else. */
  lemma StripPadded(p: string, t: string, q: string)
    requires AllSpace(p) && AllSpace(q)
    requires t == [] || (!IsSpace(t[0]) && !IsSpace(t[|t| - 1]))
    ensures Strip(p + t + q) == t
  {
    if t == [] {
      assert p + t + q == p + q;
      assert AllSpace(p + q);
      StripLeadingPadded(p + q, []);
      assert p + q + [] == p + q;
    } else {
      assert p + t + q == p + (t + q);
      StripLeadingPadded(p, t + q);
      StripTrailingPadded(t, q);
    }
  }

  // ---------------------------------------------------------------------------
  // int(text) in base 10

  predicate IsDigit(c: char) {
    '0' <= c <= '9'
  }

  function DigitValue(c: char): (d: nat)
    requires IsDigit(c)
    ensures d < 10
  {
    c as int - '0' as int
  }

  function DigitChar(d: nat): (c: char)
    requires d < 10
    ensures IsDigit(c) && DigitValue(c) == d
  {
    (d + '0' as int) as char
  }

  /**
   * The digit part of a Python integer literal: digits, where a single '_' may
   * stand between two digits. Read from the right.
   */
  function ParseDigits(s: string): Option<nat>
    decreases |s|
  {
    if |s| == 0 || !IsDigit(s[|s| - 1]) then None
    else if |s| == 1 then Some(DigitValue(s[0]))
    else
      var rest := if s[|s| - 2] == '_' then s[..|s| - 2] else s[..|s| - 1];
      match ParseDigits(rest)
      case None => None
      case Some(v) => Some(10 * v + DigitValue(s[|s| - 1]))
  }

  /**
   * The most digits `int(text)` converts in base 10 (the default of
   * `sys.get_int_max_str_digits()`); a longer literal raises ValueError. Underscores
   * do not count as digits.
   */
  const MaxStrDigits: nat := 4300

  /** `int(text)` for text without outer whitespace: an optional sign, then digits. */
  function ParseInt(s: string): Option<int> {
    if |s| > 0 && (s[0] == '+' || s[0] == '-') then
      if |WithoutUnderscores(s[1..])| > MaxStrDigits then None
      else
        match ParseDigits(s[1..])
        case None => None
        case Some(v) => var n: int := v; Some(if s[0] == '-' then -n else n)
    else if |WithoutUnderscores(s)| > MaxStrDigits then None
    else ParseDigits(s)
  }

  // The grammar and the value, stated without reference to the parser.

  /** Digits, at least one, with single underscores only between two digits. */
  predicate IsDigitGroups(s: string) {
    && |s| > 0
    && IsDigit(s[0])
    && IsDigit(s[|s| - 1])
    && (forall i :: 0 <= i < |s| ==> IsDigit(s[i]) || s[i] == '_')
    && (forall i :: 0 <= i < |s| - 1 && s[i] == '_' ==> s[i + 1] != '_')
  }

  /** Digit groups of at most `MaxStrDigits` digits. */
  predicate IsBoundedDigitGroups(s: string) {
    IsDigitGroups(s) && |WithoutUnderscores(s)| <= MaxStrDigits
  }

  /** An optional sign, then bounded digit groups. */
  predicate IsIntLiteral(s: string) {
    || IsBoundedDigitGroups(s)
    || (|s| > 0 && (s[0] == '+' || s[0] == '-') && IsBoundedDigitGroups(s[1..]))
  }

  /** The digits of `s` with every underscore dropped. */
  function WithoutUnderscores(s: string): (d: string)
    ensures |d| <= |s|
  {
    if s == [] then []
    else if s[|s| - 1] == '_' then WithoutUnderscores(s[..|s| - 1])
    else WithoutUnderscores(s[..|s| - 1]) + [s[|s| - 1]]
  }

  predicate AllDigits(d: string) {
    forall i :: 0 <= i < |d| ==> IsDigit(d[i])
  }

  /** The value of a string of decimal digits, most significant first. */
  function DecimalValue(d: string): nat
    requires AllDigits(d)
  {
    if d == [] then 0 else 10 * DecimalValue(d[..|d| - 1]) + DigitValue(d[|d| - 1])
  }

  lemma {:induction false} WithoutUnderscoresDigits(s: string)
    requires forall i :: 0 <= i < |s| ==> IsDigit(s[i]) || s[i] == '_'
    ensures AllDigits(WithoutUnderscores(s))
    decreases |s|
  {
    if s != [] {
      WithoutUnderscoresDigits(s[..|s| - 1]);
    }
  }

  /** A final digit after an underscore extends a digit group exactly when what precedes the underscore is one. */
  lemma GroupsAfterUnderscore(s: string)
    requires |s| >= 2 && IsDigit(s[|s| - 1]) && s[|s| - 2] == '_'
    ensures IsDigitGroups(s) <==> IsDigitGroups(s[..|s| - 2])
  {
    var rest := s[..|s| - 2];
    if IsDigitGroups(s) {
      assert s[|s| - 3] != '_';
      forall i | 0 <= i < |rest| ensures IsDigit(rest[i]) || rest[i] == '_' {
        assert rest[i] == s[i];
      }
      forall i | 0 <= i < |rest| - 1 && rest[i] == '_' ensures rest[i + 1] != '_' {
        assert rest[i] == s[i] && rest[i + 1] == s[i + 1];
      }
    }
    if IsDigitGroups(rest) {
      forall i | 0 <= i < |s| ensures IsDigit(s[i]) || s[i] == '_' {
        if i < |rest| { assert s[i] == rest[i]; }
      }
      forall i | 0 <= i < |s| - 1 && s[i] == '_' ensures s[i + 1] != '_' {
        if i < |rest| - 1 { assert s[i] == rest[i] && s[i + 1] == rest[i + 1]; }
      }
    }
  }

  /** A final digit after a non-underscore extends a digit group exactly when the rest is one. */
  lemma GroupsAfterDigit(s: string)
    requires |s| >= 2 && IsDigit(s[|s| - 1]) && s[|s| - 2] != '_'
    ensures IsDigitGroups(s) <==> IsDigitGroups(s[..|s| - 1])
  {
    var init := s[..|s| - 1];
    if IsDigitGroups(s) {
      forall i | 0 <= i < |init| ensures IsDigit(init[i]) || init[i] == '_' {
        assert init[i] == s[i];
      }
      forall i | 0 <= i < |init| - 1 && init[i] == '_' ensures init[i + 1] != '_' {
        assert init[i] == s[i] && init[i + 1] == s[i + 1];
      }
    }
    if IsDigitGroups(init) {
      assert s[|s| - 2] == init[|init| - 1];
      forall i | 0 <= i < |s| ensures IsDigit(s[i]) || s[i] == '_' {
        if i < |init| { assert s[i] == init[i]; }
      }
      forall i | 0 <= i < |s| - 1 && s[i] == '_' ensures s[i + 1] != '_' {
        assert s[i] == init[i];
        if i < |init| - 1 { assert s[i + 1] == init[i + 1]; }
      }
    }
  }

  lemma DecimalValueSnoc(d: string, c: char)
    requires AllDigits(d) && IsDigit(c)
    ensures AllDigits(d + [c]) && DecimalValue(d + [c]) == 10 * DecimalValue(d) + DigitValue(c)
  {
    assert (d + [c])[..|d|] == d;
  }

  /** The parser accepts exactly the digit groups and reads their decimal value. */
  lemma {:induction false} ParseDigitsCorrect(s: string)
    ensures ParseDigits(s).Some? <==> IsDigitGroups(s)
    ensures ParseDigits(s).Some? ==>
      AllDigits(WithoutUnderscores(s)) && ParseDigits(s).value == DecimalValue(WithoutUnderscores(s))
    decreases |s|
  {
    if |s| == 0 || !IsDigit(s[|s| - 1]) {
    } else if |s| == 1 {
      assert WithoutUnderscores(s) == WithoutUnderscores([]) + [s[0]];
    } else {
      var last := s[|s| - 1];
      var init := s[..|s| - 1];
      assert WithoutUnderscores(s) == WithoutUnderscores(init) + [last];
      var rest := if s[|s| - 2] == '_' then s[..|s| - 2] else init;
      if s[|s| - 2] == '_' {
        assert init[..|init| - 1] == rest;
        assert WithoutUnderscores(init) == WithoutUnderscores(rest);
        GroupsAfterUnderscore(s);
      } else {
        GroupsAfterDigit(s);
      }
      ParseDigitsCorrect(rest);
      if ParseDigits(rest).Some? {
        DecimalValueSnoc(WithoutUnderscores(rest), last);
      }
    }
  }

  /** `int(text)` succeeds exactly on integer literals and yields the signed decimal value. */
  lemma ParseIntCorrect(s: string)
    ensures ParseInt(s).Some? <==> IsIntLiteral(s)
    ensures ParseInt(s).Some? && IsDigitGroups(s) ==>
      AllDigits(WithoutUnderscores(s)) && ParseInt(s).value == DecimalValue(WithoutUnderscores(s))
    ensures ParseInt(s).Some? && !IsDigitGroups(s) ==>
      var body := WithoutUnderscores(s[1..]);
      AllDigits(body) && ParseInt(s).value == (if s[0] == '-' then -(DecimalValue(body) as int) else DecimalValue(body))
  {
    ParseDigitsCorrect(s);
    if |s| > 0 {
      ParseDigitsCorrect(s[1..]);
    }
  }

  // ---------------------------------------------------------------------------
  // str(n): the canonical decimal text of an integer, the partner of int(text)

  function RenderNat(n: nat): (s: string)
    ensures |s| > 0 && AllDigits(s)
  {
    if n < 10 then [DigitChar(n)] else RenderNat(n / 10) + [DigitChar(n % 10)]
  }

  function Render(n: int): string {
    if n < 0 then "-" + RenderNat(-n) else RenderNat(n)
  }

  lemma {:induction false} ParseRenderNat(n: nat)
    ensures ParseDigits(RenderNat(n)) == Some(n)
  {
    if n >= 10 {
      var s := RenderNat(n);
      var init := RenderNat(n / 10);
      assert s == init + [DigitChar(n % 10)];
      assert s[..|s| - 1] == init;
      assert s[|s| - 2] == init[|init| - 1];
      ParseRenderNat(n / 10);
    }
  }

  /** A string of digits has no underscores to drop. */
  lemma {:induction false} WithoutUnderscoresOfDigits(d: string)
    requires AllDigits(d)
    ensures WithoutUnderscores(d) == d
    decreases |d|
  {
    if d != [] {
      WithoutUnderscoresOfDigits(d[..|d| - 1]);
    }
  }

  /** Unsigned digits within the limit are read by the digit parser. */
  lemma ParseIntOfDigits(d: string)
    requires |d| > 0 && AllDigits(d) && |d| <= MaxStrDigits
    ensures ParseInt(d) == ParseDigits(d)
  {
    WithoutUnderscoresOfDigits(d);
  }

  /** A minus sign then digits within the limit: the digits are read and negated. */
  lemma ParseIntOfNegative(s: string, d: string)
    requires |s| > 0 && s[0] == '-' && s[1..] == d
    requires AllDigits(d) && |d| <= MaxStrDigits && ParseDigits(d).Some?
    ensures ParseInt(s) == Some(-(ParseDigits(d).value as int))
  {
    WithoutUnderscoresOfDigits(d);
  }

  /**
   * `int(str(n)) == n` for every integer of at most `MaxStrDigits` digits (beyond
   * that, `str(n)` itself raises ValueError).
   */
  lemma ParseRender(n: int)
    requires |RenderNat(if n < 0 then -n else n)| <= MaxStrDigits
    ensures ParseInt(Render(n)) == Some(n)
  {
    if n < 0 {
      ParseRenderNat(-n);
      assert Render(n)[1..] == RenderNat(-n);
      ParseIntOfNegative(Render(n), RenderNat(-n));
    } else {
      ParseRenderNat(n);
      ParseIntOfDigits(RenderNat(n));
    }
  }

  /** A literal of more than `MaxStrDigits` digits is refused, however well-formed. */
  lemma DigitLimit(d: string)
    requires AllDigits(d) && |d| > MaxStrDigits
    ensures ParseInt(d) == None
  {
    WithoutUnderscoresOfDigits(d);
  }
}
