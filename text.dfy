/** The JavaScript string built-ins the route handlers rely on: truthiness of an
    optional body field, String.prototype.trim, toLowerCase/toUpperCase, the
    UTF-16 `length`, and parseInt on a path segment. */
module JsText {

  datatype Option<+T> = None | Some(value: T)

  /** JavaScript truthiness of an optional string field: an absent field and
      the empty string are falsy, every other string (even "   ") is truthy. */
  predicate Truthy(o: Option<string>)
    ensures Truthy(o) <==> o != None && o != Some("")
  {
    o.Some? && o.value != ""
  }

  // ---------------------------------------------------------------- trim

  /** The WhiteSpace and LineTerminator code points of ECMAScript, which both
      `trim` and `parseInt` skip. */
  predicate IsWhitespace(c: char) {
    c in WhitespaceChars
  }

  const WhitespaceChars: set<char> := {
    '\U{9}', '\U{A}', '\U{B}', '\U{C}', '\U{D}', ' ', '\U{A0}', '\U{1680}',
    '\U{2000}', '\U{2001}', '\U{2002}', '\U{2003}', '\U{2004}', '\U{2005}',
    '\U{2006}', '\U{2007}', '\U{2008}', '\U{2009}', '\U{200A}',
    '\U{2028}', '\U{2029}', '\U{202F}', '\U{205F}', '\U{3000}', '\U{FEFF}'
  }

  /** Every position from `lo` up to `hi` holds a whitespace character of `s`. */
  predicate WhitespaceBetween(s: string, lo: int, hi: int) {
    forall i :: lo <= i < hi ==> 0 <= i < |s| && IsWhitespace(s[i])
  }

  /** Drops leading whitespace: the result is the suffix of `s` that starts at
      its first non-whitespace character. */
  function TrimStart(s: string): (r: string)
    ensures |r| <= |s| && r == s[|s| - |r|..]
    ensures forall i :: 0 <= i < |s| - |r| ==> IsWhitespace(s[i])
    ensures r == [] || !IsWhitespace(r[0])
  {
    if s != [] && IsWhitespace(s[0]) then
      var r := TrimStart(s[1..]);
      assert s[1..][|s| - 1 - |r|..] == s[|s| - |r|..];
      assert forall i :: 1 <= i < |s| - |r| ==> s[i] == s[1..][i - 1];
      r
    else s
  }

  /** Drops trailing whitespace: the result is the prefix of `s` that ends at
      its last non-whitespace character. */
  function TrimEnd(s: string): (r: string)
    ensures |r| <= |s| && r == s[..|r|]
    ensures forall i :: |r| <= i < |s| ==> IsWhitespace(s[i])
    ensures r == [] || !IsWhitespace(r[|r| - 1])
  {
    if s != [] && IsWhitespace(s[|s| - 1]) then
      var r := TrimEnd(s[..|s| - 1]);
      assert s[..|s| - 1][..|r|] == s[..|r|];
      assert forall i :: |r| <= i < |s| - 1 ==> s[i] == s[..|s| - 1][i];
      r
    else s
  }

  /** `r` is the slice of `s` that starts at `a`, and everything in `s`
      before and after it is whitespace. */
  predicate SliceBetweenWhitespace(s: string, a: int, r: string) {
    0 <= a && a + |r| <= |s| && r == s[a..a + |r|] &&
    WhitespaceBetween(s, 0, a) && WhitespaceBetween(s, a + |r|, |s|)
  }

  /** String.prototype.trim: the slice of `s` left after dropping its leading
      and its trailing whitespace. */
  function Trim(s: string): (r: string)
    ensures |r| <= |s|
    ensures exists a :: SliceBetweenWhitespace(s, a, r)
    ensures r == [] || (!IsWhitespace(r[0]) && !IsWhitespace(r[|r| - 1]))
    ensures r == [] <==> forall i :: 0 <= i < |s| ==> IsWhitespace(s[i])
  {
    TrimSlice(s);
    TrimEnd(TrimStart(s))
  }

  /** Trimming the end after the start leaves a slice with only whitespace
      around it, and leaves nothing only where the start left nothing. */
  lemma TrimSlice(s: string)
    ensures SliceBetweenWhitespace(s, |s| - |TrimStart(s)|, TrimEnd(TrimStart(s)))
    ensures TrimEnd(TrimStart(s)) == [] ==> TrimStart(s) == []
  {
    var t := TrimStart(s);
    var r := TrimEnd(t);
    var a := |s| - |t|;
    TrimmedTail(s, t, r);
    assert r == s[a..a + |r|];
    assert 0 <= a && a + |r| <= |s|;
    assert WhitespaceBetween(s, 0, a);
    assert WhitespaceBetween(s, a + |r|, |s|);
    assert SliceBetweenWhitespace(s, a, r);
    TrimEndKeepsNonBlank(t);
  }

  /** Trimming the end of a string that starts with a non-whitespace
      character leaves that character. */
  lemma TrimEndKeepsNonBlank(t: string)
    ensures (t != [] && !IsWhitespace(t[0])) ==> TrimEnd(t) != []
  {
    var r := TrimEnd(t);
    assert (t != [] && r == []) ==> IsWhitespace(t[0]);
  }

  /** A prefix `r` of a suffix `t` of `s` is a slice of `s`, and whatever
      follows `r` in `t` follows it in `s`. */
  lemma TrimmedTail(s: string, t: string, r: string)
    requires |t| <= |s| && t == s[|s| - |t|..]
    requires |r| <= |t| && r == t[..|r|]
    requires forall i :: |r| <= i < |t| ==> IsWhitespace(t[i])
    ensures r == s[|s| - |t|..|s| - |t| + |r|]
    ensures WhitespaceBetween(s, |s| - |t| + |r|, |s|)
  {
    var a := |s| - |t|;
    forall i | a + |r| <= i < |s| ensures IsWhitespace(s[i]) {
      assert s[i] == t[i - a];
    }
  }

  /** A string without leading and trailing whitespace is its own trim, so
      trimming twice is trimming once. */
  lemma {:induction false} TrimIdempotent(s: string)
    ensures Trim(Trim(s)) == Trim(s)
  {
    var r := Trim(s);
    if r != [] {
      assert TrimStart(r) == r;
      assert TrimEnd(r) == r;
    }
  }

  // ---------------------------------------------------------- case mapping

  function LowerChar(c: char): char {
    if 'A' <= c <= 'Z' then (c as int + 32) as char else c
  }

  function UpperChar(c: char): char {
    if 'a' <= c <= 'z' then (c as int - 32) as char else c
  }

  /** String.prototype.toLowerCase, on ASCII letters: the one string of the
      same length that has no upper-case letter and upper-cases character by
      character to what `s` upper-cases to. */
  function Lower(s: string): (r: string)
    ensures |r| == |s|
    ensures forall i :: 0 <= i < |r| ==> !('A' <= r[i] <= 'Z')
    ensures forall i :: 0 <= i < |s| ==> UpperChar(r[i]) == UpperChar(s[i])
  {
    seq(|s|, i requires 0 <= i < |s| => LowerChar(s[i]))
  }

  lemma LowerIdempotent(s: string)
    ensures Lower(Lower(s)) == Lower(s)
  {
  }

  // ---------------------------------------------------------- UTF-16 length

  /** The JavaScript `length` of a string: the number of UTF-16 code units,
      two for every code point above U+FFFF. */
  function Utf16Length(s: string): (n: nat)
    ensures |s| <= n <= 2 * |s|
  {
    if s == [] then 0
    else (if s[0] as int > 0xFFFF then 2 else 1) + Utf16Length(s[1..])
  }

  /** One code point is one code unit, or two (a surrogate pair) above U+FFFF. */
  lemma Utf16LengthChar(c: char)
    ensures Utf16Length([c]) == if c as int > 0xFFFF then 2 else 1
  {
    assert [c][1..] == [];
  }

  /** The length of a concatenation is the sum of the lengths. */
  lemma {:induction false} Utf16LengthAppend(a: string, b: string)
    ensures Utf16Length(a + b) == Utf16Length(a) + Utf16Length(b)
  {
    if a == [] {
      assert a + b == b;
    } else {
      assert (a + b)[1..] == a[1..] + b;
      Utf16LengthAppend(a[1..], b);
    }
  }

  // ----------------------------------------------------------------- parseInt

  /** The value of `c` as a digit in radix 36, or 36 when it is not one. */
  function DigitValue(c: char): (v: nat)
    ensures v <= 36
  {
    if '0' <= c <= '9' then c as int - '0' as int
    else if 'a' <= c <= 'z' then c as int - 'a' as int + 10
    else if 'A' <= c <= 'Z' then c as int - 'A' as int + 10
    else 36
  }

  /** Every character of `ds` is a digit of the given radix. */
  predicate AllDigits(ds: string, radix: nat) {
    forall i :: 0 <= i < |ds| ==> DigitValue(ds[i]) < radix
  }

  /** The longest prefix of `s` made of digits of the given radix. */
  function DigitPrefix(s: string, radix: nat): (r: string)
    ensures |r| <= |s| && r == s[..|r|]
    ensures AllDigits(r, radix)
    ensures |r| == |s| || DigitValue(s[|r|]) >= radix
  {
    if s != [] && DigitValue(s[0]) < radix then [s[0]] + DigitPrefix(s[1..], radix) else []
  }

  lemma AllDigitsPrefix(ds: string, radix: nat, n: nat)
    requires AllDigits(ds, radix) && n <= |ds|
    ensures AllDigits(ds[..n], radix)
  {
    assert forall i :: 0 <= i < n ==> ds[..n][i] == ds[i];
  }

  /** The number that a string of digits denotes in the given radix. */
  function DigitsValue(ds: string, radix: nat): nat
    requires AllDigits(ds, radix)
  {
    if ds == [] then 0
    else
      AllDigitsPrefix(ds, radix, |ds| - 1);
      DigitsValue(ds[..|ds| - 1], radix) * radix + DigitValue(ds[|ds| - 1])
  }

  /** parseInt(s) with no radix argument: skips leading whitespace, then
      reads a signed number; None stands for NaN. */
  function ParseInt(s: string): (r: Option<int>)
    ensures r != None ==> TrimStart(s) != []
    ensures (TrimStart(s) != [] && !StartsWith(TrimStart(s), '-') && !StartsWith(TrimStart(s), '+') &&
             DigitValue(TrimStart(s)[0]) >= 10) ==> r == None
    ensures (r != None && r.value < 0) ==> StartsWith(TrimStart(s), '-')
  {
    ParseSigned(TrimStart(s))
  }

  /** One optional sign, then the magnitude: a string that is empty, or does
      not start with a sign or a decimal digit, is NaN, and only a "-" gives a
      negative number. */
  function ParseSigned(t: string): (r: Option<int>)
    ensures r != None ==> t != []
    ensures (t != [] && !StartsWith(t, '-') && !StartsWith(t, '+') && DigitValue(t[0]) >= 10) ==> r == None
    ensures (r != None && r.value < 0) ==> StartsWith(t, '-')
  {
    if StartsWith(t, '-') then
      match ParseMagnitude(t[1..])
      case None => None
      case Some(v) => Some(-v)
    else ParseMagnitude(if StartsWith(t, '+') then t[1..] else t)
  }

  /** An unsigned parseInt: "0x"/"0X" announces a hexadecimal number, anything
      else is decimal. */
  function ParseMagnitude(u: string): (r: Option<int>)
    ensures r != None ==> r.value >= 0
    ensures (u == [] || DigitValue(u[0]) >= 10) ==> r == None
    ensures (HasHexPrefix(u) && (|u| == 2 || DigitValue(u[2]) >= 16)) ==> r == None
  {
    if HasHexPrefix(u) then ParseDigits(u[2..], 16)
    else ParseDigits(u, 10)
  }

  /** The value of the longest run of digits at the start of `s`, or None when
      `s` does not start with a digit. */
  predicate StartsWith(t: string, c: char) {
    t != [] && t[0] == c
  }

  /** "0x" or "0X". */
  predicate HasHexPrefix(u: string) {
    |u| >= 2 && u[0] == '0' && (u[1] == 'x' || u[1] == 'X')
  }

  function ParseDigits(s: string, radix: nat): (r: Option<int>)
    ensures r != None ==> r.value >= 0
    ensures r == None <==> s == [] || DigitValue(s[0]) >= radix
  {
    var digits := DigitPrefix(s, radix);
    if digits == [] then None else Some(DigitsValue(digits, radix))
  }

  /** The decimal rendering of a number, as a JSON id lands in a URL path. */
  function DecimalString(n: nat): (r: string)
    ensures r != []
    ensures forall i :: 0 <= i < |r| ==> '0' <= r[i] <= '9'
    ensures r[0] == '0' ==> n == 0 && r == "0"
  {
    if n < 10 then [('0' as int + n) as char]
    else DecimalString(n / 10) + [('0' as int + n % 10) as char]
  }

  lemma {:induction false} DecimalStringValue(n: nat)
    ensures AllDigits(DecimalString(n), 10)
    ensures DigitsValue(DecimalString(n), 10) == n
  {
    var r := DecimalString(n);
    if n >= 10 {
      DecimalStringValue(n / 10);
      assert r[..|r| - 1] == DecimalString(n / 10);
    }
  }

  /** parseInt reads back a decimal id, whatever non-digit text follows it
      (parseInt("12abc") is 12), except that "0" followed by "x" or "X" is read
      as the start of a hexadecimal number. */
  lemma {:induction false} ParseIntDecimal(n: nat, rest: string)
    requires rest == [] || DigitValue(rest[0]) >= 10
    requires n == 0 && rest != [] ==> rest[0] != 'x' && rest[0] != 'X'
    ensures ParseInt(DecimalString(n) + rest) == Some(n)
  {
    var d := DecimalString(n);
    var s := d + rest;
    DecimalStringValue(n);
    DigitPrefixOfDigits(d, rest, 10);
    assert s[0] == d[0];
    assert |s| >= 2 && s[0] == '0' ==> s[1] == rest[0] by {
      if |s| >= 2 && s[0] == '0' {
        assert |d| == 1;
      }
    }
    ParseIntOfDigits(s);
  }

  /** A string that starts with a decimal digit and no "0x" prefix is read
      as decimal digits. */
  lemma ParseIntOfDigits(s: string)
    requires s != [] && '0' <= s[0] <= '9'
    requires !HasHexPrefix(s)
    ensures ParseInt(s) == ParseDigits(s, 10)
  {
    assert TrimStart(s) == s;
  }

  lemma {:induction false} DigitPrefixOfDigits(d: string, rest: string, radix: nat)
    requires AllDigits(d, radix)
    requires rest == [] || DigitValue(rest[0]) >= radix
    ensures DigitPrefix(d + rest, radix) == d
  {
    if d != [] {
      assert (d + rest)[1..] == d[1..] + rest;
      DigitPrefixOfDigits(d[1..], rest, radix);
    }
  }

  /** After optional leading whitespace, "0x" or "0X" makes parseInt read
      the longest run of hexadecimal digits that follows, whatever comes
      after it: parseInt("0x1F") is 31, not 0. */
  lemma ParseIntHexPrefix(ws: string, x: char, d: string, rest: string)
    requires WhitespaceBetween(ws, 0, |ws|)
    requires x == 'x' || x == 'X'
    requires d != [] && AllDigits(d, 16)
    requires rest == [] || DigitValue(rest[0]) >= 16
    ensures ParseInt(ws + (['0', x] + d + rest)) == Some(DigitsValue(d, 16))
  {
    var u := ['0', x] + d + rest;
    assert u[0] == '0' && !IsWhitespace('0');
    ParseIntUnsigned(ws, u);
    ParseMagnitudeHex(x, d, rest);
  }

  /** parseInt skips any leading whitespace, and a "-" after it negates the
      magnitude that follows. */
  lemma ParseIntMinus(ws: string, u: string)
    requires WhitespaceBetween(ws, 0, |ws|)
    ensures ParseInt(ws + (['-'] + u)) ==
      (if ParseMagnitude(u) == None then None else Some(-ParseMagnitude(u).value))
  {
    TrimStartSkips(ws, ['-'] + u);
    SignedMinus(u);
  }

  lemma SignedMinus(u: string)
    ensures ParseSigned(['-'] + u) ==
      (if ParseMagnitude(u) == None then None else Some(-ParseMagnitude(u).value))
  {
    assert (['-'] + u)[1..] == u;
  }

  /** parseInt skips any leading whitespace, and a "+" after it leaves the
      magnitude that follows as it is. */
  lemma ParseIntPlus(ws: string, u: string)
    requires WhitespaceBetween(ws, 0, |ws|)
    ensures ParseInt(ws + (['+'] + u)) == ParseMagnitude(u)
  {
    TrimStartSkips(ws, ['+'] + u);
    SignedPlus(u);
  }

  lemma SignedPlus(u: string)
    ensures ParseSigned(['+'] + u) == ParseMagnitude(u)
  {
    assert (['+'] + u)[1..] == u;
  }

  /** parseInt skips any leading whitespace; without a sign after it the
      magnitude is the value. */
  lemma ParseIntUnsigned(ws: string, u: string)
    requires WhitespaceBetween(ws, 0, |ws|)
    requires u == [] || !(IsWhitespace(u[0]) || u[0] == '-' || u[0] == '+')
    ensures ParseInt(ws + u) == ParseMagnitude(u)
  {
    TrimStartSkips(ws, u);
  }

  /** TrimStart drops exactly a whitespace prefix that stops before a
      non-whitespace character. */
  lemma {:induction false} TrimStartSkips(ws: string, t: string)
    requires WhitespaceBetween(ws, 0, |ws|)
    requires t == [] || !IsWhitespace(t[0])
    ensures TrimStart(ws + t) == t
  {
    if ws != [] {
      assert (ws + t)[1..] == ws[1..] + t;
      TrimStartSkips(ws[1..], t);
    } else {
      assert ws + t == t;
    }
  }

  /** After "0x" or "0X" parseInt reads the longest run of hexadecimal digits,
      whatever follows it. */
  lemma {:induction false} ParseMagnitudeHex(x: char, d: string, rest: string)
    requires x == 'x' || x == 'X'
    requires d != [] && AllDigits(d, 16)
    requires rest == [] || DigitValue(rest[0]) >= 16
    ensures ParseMagnitude(['0', x] + d + rest) == Some(DigitsValue(d, 16))
  {
    var u := ['0', x] + d + rest;
    assert u[2..] == d + rest;
    DigitPrefixOfDigits(d, rest, 16);
  }
}
