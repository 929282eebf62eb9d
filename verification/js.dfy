/** The JavaScript value semantics the pages rely on: truthiness, `||`,
    strict equality, `String(v)`, lower-casing, trimming, substring search and
    the digit-level behaviour of `parseInt` / `parseFloat`. */
module Js {
  import opened Seqs

  /** A cell or a variable as the pages see it. `Null` stands for both
      `null` and `undefined`; a missing column reads as `Null`. */
  datatype Value = Null | NaN | Num(n: real) | Text(s: string) | Flag(b: bool)

  /** JavaScript truthiness. */
  predicate Truthy(v: Value) {
    match v
    case Null => false
    case NaN => false
    case Num(n) => n != 0.0
    case Text(s) => s != ""
    case Flag(b) => b
  }

  /** The expression `v || d`. */
  function Or(v: Value, d: Value): Value {
    if Truthy(v) then v else d
  }

  /** The `v || 0` idiom applied to a value the source types as `number | null`:
      the number itself, 0 otherwise. */
  function OrZero(v: Value): real {
    if v.Num? then v.n else 0.0
  }

  /** Strict equality `a === b`. */
  predicate StrictEq(a: Value, b: Value) {
    match (a, b)
    case (Null, Null) => true
    case (Num(x), Num(y)) => x == y
    case (Text(x), Text(y)) => x == y
    case (Flag(x), Flag(y)) => x == y
    case _ => false
  }

  /** `===` is structural equality except that NaN equals nothing. */
  lemma StrictEqIsEqualityButNaN(a: Value, b: Value)
    ensures StrictEq(a, b) <==> a == b && a != NaN
  {
  }

  // ----- characters and strings -----

  predicate IsDigit(c: char) { '0' <= c <= '9' }

  /** The characters `String.prototype.trim` removes: WhiteSpace and LineTerminator. */
  predicate IsSpace(c: char) {
    c == ' ' || c == '\t' || c == '\n' || c == '\r' || c == '\U{0B}' || c == '\U{0C}'
    || c == '\U{A0}' || c == '\U{1680}' || ('\U{2000}' <= c <= '\U{200A}')
    || c == '\U{2028}' || c == '\U{2029}' || c == '\U{202F}' || c == '\U{205F}'
    || c == '\U{3000}' || c == '\U{FEFF}'
  }

  function LowerChar(c: char): char {
    if 'A' <= c <= 'Z' then (c as int + 32) as char else c
  }

  /** `toLowerCase`, for the Latin capital letters A-Z. */
  function Lower(s: string): (r: string)
    ensures |r| == |s|
    ensures forall i :: 0 <= i < |s| ==> r[i] == LowerChar(s[i])
  {
    seq(|s|, i requires 0 <= i < |s| => LowerChar(s[i]))
  }

  lemma LowerIdempotent(s: string)
    ensures Lower(Lower(s)) == Lower(s)
  {
  }

  lemma LowerAppend(a: string, b: string)
    ensures Lower(a + b) == Lower(a) + Lower(b)
  {
  }

  /** `t` occurs in `s` starting at index `i`. */
  predicate OccursAt(s: string, t: string, i: int) {
    0 <= i <= |s| - |t| && s[i..i + |t|] == t
  }

  /** `s.includes(t)`. */
  predicate Contains(s: string, t: string) {
    exists i :: 0 <= i <= |s| - |t| && OccursAt(s, t, i)
  }

  lemma ContainsEmpty(s: string)
    ensures Contains(s, "")
  {
    assert OccursAt(s, "", 0);
  }

  lemma ContainsSelf(s: string)
    ensures Contains(s, s)
  {
    assert OccursAt(s, s, 0);
  }

  function TrimStart(s: string): (r: string)
    ensures |r| <= |s| && r == s[|s| - |r|..]
    ensures r != "" ==> !IsSpace(r[0])
    ensures forall i :: 0 <= i < |s| - |r| ==> IsSpace(s[i])
  {
    if s != "" && IsSpace(s[0]) then TrimStart(s[1..]) else s
  }

  function TrimEnd(s: string): (r: string)
    ensures |r| <= |s| && r == s[..|r|]
    ensures r != "" ==> !IsSpace(r[|r| - 1])
    ensures forall i :: |r| <= i < |s| ==> IsSpace(s[i])
  {
    if s != "" && IsSpace(s[|s| - 1]) then TrimEnd(s[..|s| - 1]) else s
  }

  /** `s.trim()`. */
  function Trim(s: string): string {
    TrimEnd(TrimStart(s))
  }

  /** A string trims to nothing exactly when every character is white space. */
  lemma TrimEmptyIffBlank(s: string)
    ensures Trim(s) == "" <==> forall i :: 0 <= i < |s| ==> IsSpace(s[i])
  {
    var t := TrimStart(s);
    if Trim(s) == "" {
      forall i | 0 <= i < |s| ensures IsSpace(s[i]) {
        if i >= |s| - |t| {
          assert t[i - (|s| - |t|)] == s[i];
        }
      }
    } else {
      var r := Trim(s);
      assert !IsSpace(r[0]);
      assert r[0] == t[0] == s[|s| - |t|];
    }
  }

  /** Some character of `s` is not white space. */
  predicate HasNonSpace(s: string) {
    exists i :: 0 <= i < |s| && !IsSpace(s[i])
  }

  /** A string trims to something exactly when it has a character that is
      not white space. */
  lemma TrimmedIff(s: string)
    ensures Trim(s) != "" <==> HasNonSpace(s)
  {
    TrimEmptyIffBlank(s);
  }

  /** `s.replace(/\D/g, '')`: the decimal digits of `s`, in order. */
  function DigitsOf(s: string): string {
    Filter(s, IsDigit)
  }

  /** `s.replace(/,/g, '')`. */
  function StripCommas(s: string): string {
    Filter(s, c => c != ',')
  }

  // ----- numbers and their decimal text -----

  function DigitValue(c: char): nat {
    if IsDigit(c) then c as int - '0' as int else 0
  }

  function DigitChar(d: nat): char
    requires d < 10
  {
    ('0' as int + d) as char
  }

  /** The number the digit string `d` denotes in base ten. */
  function DecimalValue(d: string): nat {
    if d == "" then 0 else 10 * DecimalValue(d[..|d| - 1]) + DigitValue(d[|d| - 1])
  }

  function Pow10(k: nat): (p: nat)
    ensures p >= 1
  {
    if k == 0 then 1 else 10 * Pow10(k - 1)
  }

  /** Decimal rendering of a natural number, without leading zeros. */
  function NatToString(n: nat): (r: string)
    ensures r != ""
    ensures forall i :: 0 <= i < |r| ==> IsDigit(r[i])
    ensures |r| > 1 ==> r[0] != '0'
  {
    if n < 10 then [DigitChar(n)] else NatToString(n / 10) + [DigitChar(n % 10)]
  }

  /** Reading back a rendered natural number gives the number. */
  lemma {:induction false} DecimalValueOfNatToString(n: nat)
    ensures DecimalValue(NatToString(n)) == n
  {
    if n >= 10 {
      var r := NatToString(n);
      assert r[..|r| - 1] == NatToString(n / 10);
      DecimalValueOfNatToString(n / 10);
    }
  }

  function IntToString(i: int): string {
    if i < 0 then "-" + NatToString(-i) else NatToString(i)
  }

  /** Truncation toward zero. */
  function Trunc(x: real): int {
    if x >= 0.0 then x.Floor else -((-x).Floor)
  }

  /** `String(n)` for a number: exact for whole numbers. */
  function NumberToString(x: real): string {
    IntToString(Trunc(x))
  }

  /** A whole number is written exactly. */
  lemma NumberToStringOfInt(i: int)
    ensures NumberToString(i as real) == IntToString(i)
  {
    assert Trunc(i as real) == i;
  }

  /** `String(v)`. */
  function ToText(v: Value): string {
    match v
    case Null => "null"
    case NaN => "NaN"
    case Num(n) => NumberToString(n)
    case Text(s) => s
    case Flag(b) => if b then "true" else "false"
  }

  /** The longest prefix of `s` made of decimal digits. */
  function LeadingDigits(s: string): (r: string)
    ensures |r| <= |s| && r == s[..|r|]
    ensures forall i :: 0 <= i < |r| ==> IsDigit(r[i])
    ensures |r| < |s| ==> !IsDigit(s[|r|])
  {
    if s != "" && IsDigit(s[0]) then [s[0]] + LeadingDigits(s[1..]) else ""
  }

  lemma LeadingDigitsOfDigits(s: string)
    requires forall i :: 0 <= i < |s| ==> IsDigit(s[i])
    ensures LeadingDigits(s) == s
  {
  }

  /** The text after an optional leading sign, and whether the sign was a minus. */
  function Unsigned(t: string): string {
    if t != "" && (t[0] == '-' || t[0] == '+') then t[1..] else t
  }

  predicate Negative(t: string) {
    t != "" && t[0] == '-'
  }

  /** The sign of `t` applied to a magnitude read after it. */
  function Signed(t: string, m: Value): Value {
    if m.Num? && Negative(t) then Num(-m.n) else m
  }

  /** The leading digits of `u` as a whole number; NaN when there are none. */
  function UnsignedInt(u: string): Value {
    var d := LeadingDigits(u);
    if d == "" then NaN else Num(DecimalValue(d) as real)
  }

  /** `parseInt(s, 10)`: optional white space and sign, then the leading
      digits; NaN when there are none. */
  function ParseInt(s: string): Value {
    var t := TrimStart(s);
    Signed(t, UnsignedInt(Unsigned(t)))
  }

  /** Leading digits of `u` and an optional fraction after a point; NaN when
      no digit is read. */
  function UnsignedDecimal(u: string): Value {
    var d := LeadingDigits(u);
    var rest := u[|d|..];
    var f := if rest != "" && rest[0] == '.' then LeadingDigits(rest[1..]) else "";
    if d == "" && f == "" then NaN
    else if f == "" then Num(DecimalValue(d) as real)
    else Num(DecimalValue(d) as real + DecimalValue(f) as real / Pow10(|f|) as real)
  }

  /** `parseFloat(s)` for decimal notation: optional white space and sign,
      leading digits, then an optional fraction; NaN when no digit is read.
      The result is a number or NaN, never null. */
  function ParseFloat(s: string): (r: Value)
    ensures r.Num? || r == NaN
  {
    var t := TrimStart(s);
    Signed(t, UnsignedDecimal(Unsigned(t)))
  }

  lemma UnsignedDecimalOfDigits(d: string)
    requires d != "" && forall i :: 0 <= i < |d| ==> IsDigit(d[i])
    ensures UnsignedDecimal(d) == Num(DecimalValue(d) as real)
  {
    LeadingDigitsOfDigits(d);
    var rest := d[|LeadingDigits(d)|..];
    assert rest == "";
  }

  lemma NatToStringNoSpaceNoSign(n: nat)
    ensures TrimStart(NatToString(n)) == NatToString(n)
    ensures Unsigned(NatToString(n)) == NatToString(n)
    ensures !Negative(NatToString(n))
  {
    var r := NatToString(n);
    assert IsDigit(r[0]);
  }

  /** `parseInt` reads back what `String` wrote for a natural number. */
  lemma ParseIntOfNatToString(n: nat)
    ensures ParseInt(NatToString(n)) == Num(n as real)
  {
    NatToStringNoSpaceNoSign(n);
    LeadingDigitsOfDigits(NatToString(n));
    DecimalValueOfNatToString(n);
  }

  lemma SignedMinus(s: string, d: string, x: real)
    requires s == "-" + d
    ensures Unsigned(s) == d
    ensures Signed(s, Num(x)) == Num(-x)
  {
    assert s[0] == '-' && s[1..] == d;
  }

  /** `parseInt` of a plain digit string is its decimal value. */
  lemma ParseIntOfDigits(d: string)
    requires d != "" && forall i :: 0 <= i < |d| ==> IsDigit(d[i])
    ensures ParseInt(d) == Num(DecimalValue(d) as real)
  {
    DigitsNotTrimmed(d);
    DigitsUnsigned(d);
    LeadingDigitsOfDigits(d);
  }

  lemma DigitsNotTrimmed(d: string)
    requires d != "" && forall i :: 0 <= i < |d| ==> IsDigit(d[i])
    ensures TrimStart(d) == d
  {
    assert IsDigit(d[0]);
  }

  lemma DigitsUnsigned(d: string)
    requires d != "" && forall i :: 0 <= i < |d| ==> IsDigit(d[i])
    ensures Unsigned(d) == d && !Negative(d)
  {
    assert IsDigit(d[0]);
  }

  /** `parseFloat` of a plain digit string is its decimal value. */
  lemma ParseFloatOfDigits(d: string)
    requires d != "" && forall i :: 0 <= i < |d| ==> IsDigit(d[i])
    ensures ParseFloat(d) == Num(DecimalValue(d) as real)
  {
    DigitsNotTrimmed(d);
    DigitsUnsigned(d);
    UnsignedDecimalOfDigits(d);
  }

  /** `parseFloat` of a minus sign and a digit string is the negated value. */
  lemma ParseFloatOfNegatedDigits(s: string, d: string)
    requires d != "" && forall i :: 0 <= i < |d| ==> IsDigit(d[i])
    requires s == "-" + d
    ensures ParseFloat(s) == Num(-(DecimalValue(d) as real))
  {
    MinusNotTrimmed(s, d);
    SignedMinus(s, d, DecimalValue(d) as real);
    UnsignedDecimalOfDigits(d);
  }

  lemma MinusNotTrimmed(s: string, d: string)
    requires s == "-" + d
    ensures TrimStart(s) == s
  {
    assert s[0] == '-';
  }

  /** `parseFloat` reads back what `String` wrote for a whole number. */
  lemma ParseFloatOfIntToString(i: int)
    ensures ParseFloat(IntToString(i)) == Num(i as real)
  {
    if i < 0 {
      DecimalValueOfNatToString(-i);
      ParseFloatOfNegatedDigits(IntToString(i), NatToString(-i));
    } else {
      DecimalValueOfNatToString(i);
      ParseFloatOfDigits(NatToString(i));
    }
  }

  /** Whole numbers survive `String` followed by `parseFloat`. */
  lemma ParseFloatOfWholeNumber(x: real)
    requires x == x.Floor as real
    ensures ParseFloat(NumberToString(x)) == Num(x)
  {
    assert Trunc(x) == x.Floor;
    ParseFloatOfIntToString(x.Floor);
  }

  // ----- string order -----

  /** `a.localeCompare(b)` and the default order of `sort()`, both taken as
      code-point lexicographic order. */
  function StringCompare(a: string, b: string): (r: int)
    ensures -1 <= r <= 1
    ensures r == 0 <==> a == b
  {
    if a == [] && b == [] then 0
    else if a == [] then -1
    else if b == [] then 1
    else if a[0] < b[0] then -1
    else if a[0] > b[0] then 1
    else
      var r := StringCompare(a[1..], b[1..]);
      assert a == [a[0]] + a[1..] && b == [b[0]] + b[1..];
      r
  }

  lemma {:induction false} StringCompareAntisymmetric(a: string, b: string)
    ensures StringCompare(a, b) == -StringCompare(b, a)
  {
    if a != [] && b != [] && a[0] == b[0] {
      StringCompareAntisymmetric(a[1..], b[1..]);
    }
  }

  lemma {:induction false} StringCompareTransitive(a: string, b: string, c: string)
    requires StringCompare(a, b) <= 0 && StringCompare(b, c) <= 0
    ensures StringCompare(a, c) <= 0
  {
    if a != [] && b != [] && c != [] && a[0] == b[0] && b[0] == c[0] {
      StringCompareTransitive(a[1..], b[1..], c[1..]);
    }
  }
}
