/**
 * The JavaScript string operations the gate relies on: `String.prototype.trim`,
 * `String.prototype.split` on a one-character separator, and the global
 * `parseInt` called without a radix (ECMAScript section 19.2.5).
 */
module JsText {
  import opened Common

  /** The WhiteSpace code points of ECMAScript section 12.2: TAB, VT, FF, ZWNBSP and the space separators. */
  const WhiteSpaceChars: set<char> := {
    '\t', '\U{000B}', '\U{000C}', '\U{FEFF}', ' ', '\U{00A0}', '\U{1680}',
    '\U{2000}', '\U{2001}', '\U{2002}', '\U{2003}', '\U{2004}', '\U{2005}',
    '\U{2006}', '\U{2007}', '\U{2008}', '\U{2009}', '\U{200A}',
    '\U{202F}', '\U{205F}', '\U{3000}'}

  /** The LineTerminator code points of ECMAScript section 12.3. */
  const LineTerminatorChars: set<char> := {'\n', '\r', '\U{2028}', '\U{2029}'}

  /** WhiteSpace and LineTerminator code points, the set `trim` and `parseInt` skip. */
  predicate IsWhitespace(c: char): (b: bool)
    ensures b <==> c in WhiteSpaceChars + LineTerminatorChars
  {
    if c <= ' ' then c == ' ' || '\t' <= c <= '\r'
    else
      && '\U{00A0}' <= c
      && (|| c == '\U{00A0}' || c == '\U{1680}' || '\U{2000}' <= c <= '\U{200A}'
          || c == '\U{2028}' || c == '\U{2029}' || c == '\U{202F}' || c == '\U{205F}'
          || c == '\U{3000}' || c == '\U{FEFF}')
  }

  predicate AllWhitespace(s: string) {
    forall i :: 0 <= i < |s| ==> IsWhitespace(s[i])
  }

  /** Neither end of `s` is whitespace: what `trim` leaves behind. */
  predicate IsTrimmed(s: string) {
    s == [] || (!IsWhitespace(s[0]) && !IsWhitespace(s[|s| - 1]))
  }

  /** The length of the whitespace run at the start of `s`. */
  function LeadingSpace(s: string): (n: nat)
    ensures n <= |s|
    ensures forall i :: 0 <= i < n ==> IsWhitespace(s[i])
    ensures n == |s| || !IsWhitespace(s[n])
  {
    if s == [] || !IsWhitespace(s[0]) then 0 else 1 + LeadingSpace(s[1..])
  }

  /** The length of the whitespace run at the end of `s`. */
  function TrailingSpace(s: string): (n: nat)
    ensures n <= |s|
    ensures forall i :: |s| - n <= i < |s| ==> IsWhitespace(s[i])
    ensures n == |s| || !IsWhitespace(s[|s| - n - 1])
  {
    if s == [] || !IsWhitespace(s[|s| - 1]) then 0 else 1 + TrailingSpace(s[..|s| - 1])
  }

  /** `s` with its leading whitespace removed (the first step of `parseInt`). */
  function TrimStart(s: string): (r: string)
    ensures |r| <= |s|
    ensures forall i :: 0 <= i < |s| - |r| ==> IsWhitespace(s[i])
    ensures forall i :: 0 <= i < |r| ==> r[i] == s[|s| - |r| + i]
    ensures r == [] || !IsWhitespace(r[0])
  {
    s[LeadingSpace(s)..]
  }

  /** `String.prototype.trim`: both margins of whitespace removed. */
  function Trim(s: string): (r: string)
    ensures |r| <= |s|
    ensures IsTrimmed(r)
    ensures r == [] <==> AllWhitespace(s)
  {
    var a := LeadingSpace(s);
    if a == |s| then [] else s[a..|s| - TrailingSpace(s)]
  }

  /** Whatever the whitespace margins around a trimmed core, `trim` returns exactly that core. */
  lemma TrimOfPadded(left: string, m: string, right: string)
    requires AllWhitespace(left) && AllWhitespace(right) && IsTrimmed(m)
    ensures Trim(left + m + right) == m
  {
    var s := left + m + right;
    if m == [] {
      assert AllWhitespace(s) by {
        forall i | 0 <= i < |s| ensures IsWhitespace(s[i]) {
          if i < |left| { assert s[i] == left[i]; } else { assert s[i] == right[i - |left|]; }
        }
      }
    } else {
      LeadingSpaceOfPadded(left, m + right);
      assert s == left + (m + right);
      TrailingSpaceOfPadded(left + m, right);
      assert s[|left|..|s| - |right|] == m;
    }
  }

  lemma LeadingSpaceOfPadded(left: string, s: string)
    requires AllWhitespace(left)
    requires s == [] || !IsWhitespace(s[0])
    ensures LeadingSpace(left + s) == |left|
  {
    assert forall i :: 0 <= i < |left| ==> (left + s)[i] == left[i];
    assert s != [] ==> (left + s)[|left|] == s[0];
  }

  lemma TrailingSpaceOfPadded(s: string, right: string)
    requires AllWhitespace(right)
    requires s == [] || !IsWhitespace(s[|s| - 1])
    ensures TrailingSpace(s + right) == |right|
  {
    var t := s + right;
    assert forall i :: |s| <= i < |t| ==> t[i] == right[i - |s|];
    assert s != [] ==> t[|s| - 1] == s[|s| - 1];
  }


  /** A string with no whitespace at either end is its own trim. */
  lemma TrimmedIsFixed(s: string)
    requires IsTrimmed(s)
    ensures Trim(s) == s
  {
    TrimOfPadded([], s, []);
    assert [] + s + [] == s;
  }

  /** Trimming twice is trimming once. */
  lemma TrimIdempotent(s: string)
    ensures Trim(Trim(s)) == Trim(s)
  {
    TrimOfPadded([], Trim(s), []);
    assert [] + Trim(s) + [] == Trim(s);
  }

  /** The number of occurrences of `c` in `s`. */
  function Count(s: string, c: char): nat {
    if s == [] then 0 else (if s[0] == c then 1 else 0) + Count(s[1..], c)
  }

  /**
   * `s.split(sep)` for a one-character separator: the maximal separator-free
   * pieces between the separators, one more piece than there are separators.
   */
  function Split(s: string, sep: char): (r: seq<string>)
    ensures |r| == Count(s, sep) + 1
    ensures forall i :: 0 <= i < |r| ==> sep !in r[i]
  {
    if s == [] then [[]]
    else
      var rest := Split(s[1..], sep);
      if s[0] == sep then [[]] + rest else [[s[0]] + rest[0]] + rest[1..]
  }

  /** `xs.join(sep)` for a one-character separator. */
  function JoinWith(xs: seq<string>, sep: char): string {
    if xs == [] then []
    else if |xs| == 1 then xs[0]
    else xs[0] + [sep] + JoinWith(xs[1..], sep)
  }

  /** Joining the pieces of a split restores the input. */
  lemma {:induction false} JoinOfSplit(s: string, sep: char)
    ensures JoinWith(Split(s, sep), sep) == s
  {
    if s != [] {
      var rest := Split(s[1..], sep);
      JoinOfSplit(s[1..], sep);
      if s[0] == sep {
        assert Split(s, sep) == [[]] + rest;
        assert ([[]] + rest)[1..] == rest;
        assert s == [] + [sep] + s[1..];
      } else {
        var r := Split(s, sep);
        assert r[0] == [s[0]] + rest[0];
        assert r[1..] == rest[1..];
        if |rest| == 1 {
          assert s == [s[0]] + s[1..];
        } else {
          assert JoinWith(rest, sep) == rest[0] + [sep] + JoinWith(rest[1..], sep);
          assert s == [s[0]] + s[1..];
        }
      }
    }
  }

  /** Splitting a join of separator-free pieces gives the pieces back. */
  lemma {:induction false} SplitOfJoin(xs: seq<string>, sep: char)
    requires |xs| >= 1
    requires forall i :: 0 <= i < |xs| ==> sep !in xs[i]
    ensures Split(JoinWith(xs, sep), sep) == xs
    decreases |xs|, |xs[0]|
  {
    if |xs| == 1 {
      SplitOfPlain(xs[0], sep);
    } else {
      var tail := JoinWith(xs[1..], sep);
      assert JoinWith(xs, sep) == xs[0] + [sep] + tail;
      SplitOfJoin(xs[1..], sep);
      SplitAfterPiece(xs[0], sep, tail);
      assert [xs[0]] + xs[1..] == xs;
    }
  }

  /** Splitting at one separator: the pieces before it, then the pieces after it. */
  lemma {:induction false} SplitAtSeparator(a: string, sep: char, b: string)
    ensures Split(a + [sep] + b, sep) == Split(a, sep) + Split(b, sep)
  {
    var s := a + [sep] + b;
    var sb := Split(b, sep);
    if a == [] {
      assert s == [sep] + b && s[1..] == b;
      SplitStep(s, sep);
    } else {
      SplitAtSeparator(a[1..], sep, b);
      var front := Split(a[1..], sep);
      assert s[0] == a[0] && s[1..] == a[1..] + [sep] + b;
      SplitStep(s, sep);
      SplitStep(a, sep);
      if a[0] == sep {
        EmptyThenRest(front, sb);
      } else {
        PieceThenRest([a[0]], front, sb);
      }
    }
  }

  /** One step of `Split`: the first character either ends the first piece or joins it. */
  lemma SplitStep(s: string, sep: char)
    requires s != []
    ensures var rest := Split(s[1..], sep);
      Split(s, sep) == if s[0] == sep then [[]] + rest else [[s[0]] + rest[0]] + rest[1..]
  {
  }

  lemma EmptyThenRest(front: seq<string>, back: seq<string>)
    ensures [[]] + (front + back) == ([[]] + front) + back
  {
  }

  lemma PieceThenRest(c: string, front: seq<string>, back: seq<string>)
    requires |front| >= 1
    ensures [c + (front + back)[0]] + (front + back)[1..] == ([c + front[0]] + front[1..]) + back
  {
    assert (front + back)[0] == front[0] && (front + back)[1..] == front[1..] + back;
  }

  /** A separator-free string splits into itself alone. */
  lemma {:induction false} SplitOfPlain(x: string, sep: char)
    requires sep !in x
    ensures Split(x, sep) == [x]
  {
    if x != [] {
      SplitOfPlain(x[1..], sep);
      assert [x[0]] + x[1..] == x;
    }
  }

  /** A separator-free piece, a separator, then the rest: the piece comes first. */
  lemma {:induction false} SplitAfterPiece(x: string, sep: char, tail: string)
    requires sep !in x
    ensures Split(x + [sep] + tail, sep) == [x] + Split(tail, sep)
  {
    if x == [] {
      assert [] + [sep] + tail == [sep] + tail;
      assert ([sep] + tail)[1..] == tail;
    } else {
      var s := x + [sep] + tail;
      assert s[1..] == x[1..] + [sep] + tail;
      SplitAfterPiece(x[1..], sep, tail);
      assert [x[0]] + x[1..] == x;
    }
  }

  // ---- parseInt ----

  predicate IsDecimalDigit(c: char) { '0' <= c <= '9' }

  predicate IsDigitIn(c: char, radix: nat) {
    if radix == 16 then IsDecimalDigit(c) || ('a' <= c <= 'f') || ('A' <= c <= 'F')
    else IsDecimalDigit(c)
  }

  function DigitValue(c: char): (d: nat)
    ensures IsDecimalDigit(c) ==> d < 10
    ensures IsDigitIn(c, 16) ==> d < 16
  {
    if IsDecimalDigit(c) then c as nat - '0' as nat
    else if 'a' <= c <= 'f' then c as nat - 'a' as nat + 10
    else if 'A' <= c <= 'F' then c as nat - 'A' as nat + 10
    else 0
  }

  /** The longest prefix of `s` made of digits of the given radix. */
  function DigitPrefix(s: string, radix: nat): (r: string)
    ensures |r| <= |s| && r == s[..|r|]
    ensures forall i :: 0 <= i < |r| ==> IsDigitIn(r[i], radix)
    ensures |r| == |s| || !IsDigitIn(s[|r|], radix)
  {
    if s == [] || !IsDigitIn(s[0], radix) then []
    else [s[0]] + DigitPrefix(s[1..], radix)
  }

  /** The number a digit string denotes in the given radix, most significant digit first. */
  function DigitsValue(ds: string, radix: nat): nat {
    if ds == [] then 0
    else DigitsValue(ds[..|ds| - 1], radix) * radix + DigitValue(ds[|ds| - 1])
  }

  predicate IsHexPrefixed(u: string) {
    |u| >= 2 && u[0] == '0' && (u[1] == 'x' || u[1] == 'X')
  }

  function RadixOf(u: string): nat {
    if IsHexPrefixed(u) then 16 else 10
  }

  /** Whether a digit of the radix stands where the digits begin: after `0x` in radix 16, at once otherwise. */
  predicate StartsWithDigit(u: string) {
    var p := if IsHexPrefixed(u) then 2 else 0;
    p < |u| && IsDigitIn(u[p], RadixOf(u))
  }

  /**
   * The unsigned part of `parseInt`: a `0x`/`0X` prefix selects radix 16, then
   * the longest digit prefix is read; without a digit the result is NaN (`None`).
   */
  function ParseMagnitude(u: string): (r: Option<nat>)
    ensures r.None? <==> DigitPrefix(if IsHexPrefixed(u) then u[2..] else u, RadixOf(u)) == []
  {
    var z := DigitPrefix(if IsHexPrefixed(u) then u[2..] else u, RadixOf(u));
    if z == [] then None else Some(DigitsValue(z, RadixOf(u)))
  }

  /** `t` without the one `+` or `-` it may start with. */
  function Unsigned(t: string): string {
    if |t| > 0 && (t[0] == '-' || t[0] == '+') then t[1..] else t
  }

  /**
   * `parseInt(s)` with no radix; `None` stands for NaN. Leading whitespace is
   * skipped and one `+` or `-` is accepted before the unsigned part. The result
   * is NaN exactly when no digit follows the whitespace, the sign and the `0x`.
   */
  function ParseInt(s: string): (r: Option<int>)
    ensures AllWhitespace(s) ==> r == None
  {
    ParseSigned(TrimStart(s))
  }

  /** `parseInt` is NaN exactly when no digit follows the leading whitespace, the sign and the `0x`. */
  lemma ParseIntIsNaN(s: string)
    ensures ParseInt(s).None? <==> !StartsWithDigit(Unsigned(TrimStart(s)))
  {
    MagnitudeIsNaN(Unsigned(TrimStart(s)));
  }

  /** The unsigned part is NaN exactly when no digit of the radix stands where the digits begin. */
  lemma MagnitudeIsNaN(u: string)
    ensures ParseMagnitude(u).None? <==> !StartsWithDigit(u)
  {
  }

  /**
   * `parseInt` once leading whitespace is gone: an optional sign, then the
   * unsigned part, whose value the sign negates when it is `-`.
   */
  function ParseSigned(t: string): Option<int> {
    var signed := |t| > 0 && (t[0] == '-' || t[0] == '+');
    match ParseMagnitude(if signed then t[1..] else t)
    case None => None
    case Some(m) => var v: int := m; Some(if signed && t[0] == '-' then -v else v)
  }

  /**
   * The sign step of `parseInt`: NaN exactly when the unsigned part is, and
   * otherwise the unsigned part's value, negated after a `-`.
   */
  lemma ParseSignedMeaning(t: string)
    ensures ParseSigned(t).None? <==> ParseMagnitude(Unsigned(t)).None?
    ensures ParseSigned(t).Some? ==>
      ParseSigned(t).value == WithSign(if t != [] && t[0] == '-' then "-" else "", ParseMagnitude(Unsigned(t)).value)
  {
  }

  /** The decimal numeral of `n`, without leading zeros. */
  function ShowNat(n: nat): (r: string)
    ensures |r| >= 1 && forall i :: 0 <= i < |r| ==> IsDecimalDigit(r[i])
    ensures |r| >= 2 ==> r[0] != '0'
  {
    var last := ['0' + (n % 10) as char];
    if n < 10 then last else ShowNat(n / 10) + last
  }

  /** The decimal numeral of `n`, with a `-` when it is negative. */
  function ShowInt(n: int): string {
    if n < 0 then "-" + ShowNat(-n) else ShowNat(n)
  }

  lemma {:induction false} DigitsValueOfShown(n: nat)
    ensures DigitsValue(ShowNat(n), 10) == n
  {
    var r := ShowNat(n);
    if n >= 10 {
      DigitsValueOfShown(n / 10);
      assert r[..|r| - 1] == ShowNat(n / 10);
    }
  }

  lemma {:induction false} DigitPrefixOfDigits(ds: string, rest: string, radix: nat)
    requires forall i :: 0 <= i < |ds| ==> IsDigitIn(ds[i], radix)
    requires rest == [] || !IsDigitIn(rest[0], radix)
    ensures DigitPrefix(ds + rest, radix) == ds
  {
    if ds != [] {
      assert (ds + rest)[1..] == ds[1..] + rest;
      DigitPrefixOfDigits(ds[1..], rest, radix);
      assert [ds[0]] + ds[1..] == ds;
    }
  }

  lemma MagnitudeOfShown(m: nat, rest: string)
    requires rest == [] || !IsDecimalDigit(rest[0])
    requires m == 0 && rest != [] ==> rest[0] != 'x' && rest[0] != 'X'
    ensures ParseMagnitude(ShowNat(m) + rest) == Some(m)
  {
    var digits := ShowNat(m);
    var u := digits + rest;
    assert !IsHexPrefixed(u) by {
      if |u| >= 2 && u[0] == '0' && |digits| == 1 { assert u[1] == rest[0]; }
    }
    DigitPrefixOfDigits(digits, rest, 10);
    DigitsValueOfShown(m);
  }

  /**
   * `parseInt` reads back a decimal numeral, whatever whitespace precedes it and
   * whatever follows it that cannot continue the number.
   */
  lemma ParseIntOfShown(pad: string, n: int, rest: string)
    requires AllWhitespace(pad)
    requires rest == [] || !IsDecimalDigit(rest[0])
    requires n == 0 && rest != [] ==> rest[0] != 'x' && rest[0] != 'X'
    ensures ParseInt(pad + ShowInt(n) + rest) == Some(n)
  {
    var t := ShowInt(n) + rest;
    Regroup(pad, ShowInt(n), rest);
    ParseIntOfNumeral(n, rest);
    SignedOfNumeral(n, rest);
    ParseIntOfSigned(pad, t, n);
  }

  /** Whitespace in front of a string does not change what `parseInt` reads. */
  lemma ParseIntSkipsPadding(pad: string, t: string)
    requires AllWhitespace(pad)
    requires t == [] || !IsWhitespace(t[0])
    ensures ParseInt(pad + t) == ParseInt(t)
  {
    LeadingSpaceOfPadded(pad, t);
    LeadingSpaceOfPadded([], t);
    assert [] + t == t;
  }

  lemma Regroup(a: string, b: string, c: string)
    ensures a + b + c == a + (b + c)
  {
  }

  /** Whitespace, an optional sign and an unsigned numeral that starts with a digit. */
  lemma ParseIntOfUnsigned(pad: string, sign: string, u: string, m: nat)
    requires AllWhitespace(pad)
    requires sign == "" || sign == "+" || sign == "-"
    requires u != [] && IsDecimalDigit(u[0])
    requires ParseMagnitude(u) == Some(m)
    ensures ParseInt(pad + sign + u) == Some(WithSign(sign, m))
  {
    Regroup(pad, sign, u);
    SignedMagnitude(sign, u, m);
    ParseIntOfSigned(pad, sign + u, WithSign(sign, m));
  }

  /** Whitespace, then a string starting with a sign or a digit: `parseInt` reads what follows the whitespace. */
  lemma ParseIntOfSigned(pad: string, t: string, v: int)
    requires AllWhitespace(pad)
    requires t != [] && !IsWhitespace(t[0])
    requires ParseSigned(t) == Some(v)
    ensures ParseInt(pad + t) == Some(v)
  {
    LeadingSpaceOfPadded(pad, t);
    assert (pad + t)[|pad|..] == t;
  }

  lemma ParseIntOfNumeral(n: int, rest: string)
    requires rest == [] || !IsDecimalDigit(rest[0])
    requires n == 0 && rest != [] ==> rest[0] != 'x' && rest[0] != 'X'
    ensures var t := ShowInt(n) + rest; t != [] && !IsWhitespace(t[0]) && ParseInt(t) == Some(n)
  {
    var t := ShowInt(n) + rest;
    SignedOfNumeral(n, rest);
    assert t[0] == '-' || IsDecimalDigit(t[0]);
    assert LeadingSpace(t) == 0;
  }

  lemma SignedOfNumeral(n: int, rest: string)
    requires rest == [] || !IsDecimalDigit(rest[0])
    requires n == 0 && rest != [] ==> rest[0] != 'x' && rest[0] != 'X'
    ensures ParseSigned(ShowInt(n) + rest) == Some(n)
  {
    var m: nat := if n < 0 then -n else n;
    var u := ShowNat(m) + rest;
    MagnitudeOfShown(m, rest);
    if n < 0 {
      assert ShowInt(n) + rest == ['-'] + u;
      SignedAfterMinus(u, m);
    } else {
      assert ShowInt(n) + rest == u;
      assert u[0] == ShowNat(m)[0];
      SignedWithoutSign(u, m);
    }
  }

  /** The value of a magnitude under a sign: negated after `-`, unchanged after `+` or no sign. */
  function WithSign(sign: string, m: nat): int {
    if sign == "-" then -(m as int) else m
  }

  /** No sign, a `+` or a `-` in front of an unsigned numeral that starts with a digit. */
  lemma SignedMagnitude(sign: string, u: string, m: nat)
    requires sign == "" || sign == "+" || sign == "-"
    requires u != [] && IsDecimalDigit(u[0])
    requires ParseMagnitude(u) == Some(m)
    ensures var t := sign + u; !IsWhitespace(t[0]) && ParseSigned(t) == Some(WithSign(sign, m))
  {
    if sign == "" {
      assert sign + u == u;
      SignedWithoutSign(u, m);
    } else if sign == "+" {
      assert sign + u == ['+'] + u;
      SignedAfterPlus(u, m);
    } else {
      assert sign + u == ['-'] + u;
      SignedAfterMinus(u, m);
    }
  }

  lemma SignedAfterMinus(u: string, m: nat)
    requires ParseMagnitude(u) == Some(m)
    ensures ParseSigned(['-'] + u) == Some(-(m as int))
  {
    var t := ['-'] + u;
    assert t[0] == '-' && t[1..] == u;
  }

  lemma SignedAfterPlus(u: string, m: nat)
    requires ParseMagnitude(u) == Some(m)
    ensures ParseSigned(['+'] + u) == Some(m)
  {
    var t := ['+'] + u;
    assert t[0] == '+' && t[1..] == u;
  }

  lemma SignedWithoutSign(u: string, m: nat)
    requires u != [] && IsDecimalDigit(u[0])
    requires ParseMagnitude(u) == Some(m)
    ensures ParseSigned(u) == Some(m)
  {
  }

  /** The unsigned part of a decimal numeral, leading zeros allowed. */
  lemma DecimalMagnitude(ds: string, rest: string)
    requires ds != [] && forall i :: 0 <= i < |ds| ==> IsDecimalDigit(ds[i])
    requires rest == [] || !IsDecimalDigit(rest[0])
    requires ds == "0" && rest != [] ==> rest[0] != 'x' && rest[0] != 'X'
    ensures ParseMagnitude(ds + rest) == Some(DigitsValue(ds, 10))
  {
    var u := ds + rest;
    assert !IsHexPrefixed(u) by {
      if |u| >= 2 && u[0] == '0' {
        if |ds| == 1 {
          assert ds == "0" && u[1] == rest[0];
        } else {
          assert u[1] == ds[1];
        }
      }
    }
    DigitPrefixOfDigits(ds, rest, 10);
  }

  lemma AfterPrefix(p: string, a: string, b: string)
    ensures (p + a + b)[|p|..] == a + b
  {
    assert p + a + b == p + (a + b);
  }

  /** The unsigned part of a hexadecimal numeral after its `0x` or `0X`. */
  lemma HexMagnitude(x: char, ds: string, rest: string)
    requires x == 'x' || x == 'X'
    requires ds != [] && forall i :: 0 <= i < |ds| ==> IsDigitIn(ds[i], 16)
    requires rest == [] || !IsDigitIn(rest[0], 16)
    ensures ParseMagnitude(['0', x] + ds + rest) == Some(DigitsValue(ds, 16))
  {
    var u := ['0', x] + ds + rest;
    AfterPrefix(['0', x], ds, rest);
    assert u[0] == '0' && u[1] == x;
    assert IsHexPrefixed(u) && RadixOf(u) == 16;
    DigitPrefixOfDigits(ds, rest, 16);
    assert DigitPrefix(u[2..], 16) == ds;
  }

  /**
   * `parseInt` of a decimal numeral, leading zeros allowed, after any whitespace
   * and an optional sign, and before anything that cannot continue it.
   */
  lemma ParseIntOfDecimal(pad: string, sign: string, ds: string, rest: string)
    requires AllWhitespace(pad)
    requires sign == "" || sign == "+" || sign == "-"
    requires ds != [] && forall i :: 0 <= i < |ds| ==> IsDecimalDigit(ds[i])
    requires rest == [] || !IsDecimalDigit(rest[0])
    requires ds == "0" && rest != [] ==> rest[0] != 'x' && rest[0] != 'X'
    ensures ParseInt(pad + sign + ds + rest) == Some(WithSign(sign, DigitsValue(ds, 10)))
  {
    var u := ds + rest;
    Regroup(pad + sign, ds, rest);
    DecimalMagnitude(ds, rest);
    assert u[0] == ds[0];
    ParseIntOfUnsigned(pad, sign, u, DigitsValue(ds, 10));
  }

  /**
   * `parseInt` of a hexadecimal numeral `0x…` or `0X…`, after any whitespace and
   * an optional sign, and before anything that is not a hexadecimal digit.
   */
  lemma ParseIntOfHex(pad: string, sign: string, x: char, ds: string, rest: string)
    requires AllWhitespace(pad)
    requires sign == "" || sign == "+" || sign == "-"
    requires x == 'x' || x == 'X'
    requires ds != [] && forall i :: 0 <= i < |ds| ==> IsDigitIn(ds[i], 16)
    requires rest == [] || !IsDigitIn(rest[0], 16)
    ensures ParseInt(pad + sign + ['0', x] + ds + rest) == Some(WithSign(sign, DigitsValue(ds, 16)))
  {
    var u := ['0', x] + ds + rest;
    Regroup(pad + sign, ['0', x], ds);
    Regroup(pad + sign, ['0', x] + ds, rest);
    HexMagnitude(x, ds, rest);
    assert u[0] == '0';
    ParseIntOfUnsigned(pad, sign, u, DigitsValue(ds, 16));
  }
}
