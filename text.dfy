/**
 * The .NET string helpers the controllers and services lean on:
 * `string.IsNullOrEmpty`, `string.IsNullOrWhiteSpace`, `ToUpperInvariant`,
 * `int.TryParse` / `int.Parse` (NumberStyles.Integer, Int32 range) and
 * `int.ToString()`.
 */
module Text {
  import opened Wrappers

  const MinInt32: int := -0x8000_0000
  const MaxInt32: int := 0x7FFF_FFFF

  predicate IsNullOrEmpty(s: Option<string>) {
    s.None? || |s.value| == 0
  }

  /** The UTF-16 code units a character takes: a surrogate pair above U+FFFF, one unit otherwise. */
  function Utf16Units(c: char): nat {
    if c as int > 0xFFFF then 2 else 1
  }

  /**
   * `string.Length` in .NET: the number of UTF-16 code units, which is what
   * `Length` comparisons and the `[StringLength]` / `[MinLength]`
   * annotations count. It equals the number of characters exactly when no
   * character lies above U+FFFF.
   */
  function Utf16Length(s: string): (n: nat)
    ensures |s| <= n <= 2 * |s|
    ensures n == |s| <==> forall i :: 0 <= i < |s| ==> s[i] as int <= 0xFFFF
  {
    if s == [] then 0
    else
      var n := Utf16Units(s[0]) + Utf16Length(s[1..]);
      assert (forall i :: 0 <= i < |s| ==> s[i] as int <= 0xFFFF)
        <==> s[0] as int <= 0xFFFF && forall j :: 0 <= j < |s[1..]| ==> s[1..][j] as int <= 0xFFFF by {
        forall j | 0 <= j < |s[1..]| ensures s[1..][j] == s[j + 1] { }
      }
      n
  }

  /** Code units add up over a concatenation. */
  lemma {:induction false} Utf16LengthConcat(a: string, b: string)
    ensures Utf16Length(a + b) == Utf16Length(a) + Utf16Length(b)
  {
    if a == [] {
      assert a + b == b;
    } else {
      assert (a + b)[1..] == a[1..] + b;
      Utf16LengthConcat(a[1..], b);
    }
  }

  /** `char.IsWhiteSpace`: the Unicode space separators, line and paragraph separators, and U+0009..U+000D, U+0085. */
  predicate IsWhiteSpace(c: char) {
    || c == ' ' || ('\t' <= c <= '\r') || c == '\U{85}' || c == '\U{A0}' || c == '\U{1680}'
    || ('\U{2000}' <= c <= '\U{200A}') || c == '\U{2028}' || c == '\U{2029}' || c == '\U{202F}'
    || c == '\U{205F}' || c == '\U{3000}'
  }

  predicate IsNullOrWhiteSpace(s: Option<string>) {
    s.None? || forall i :: 0 <= i < |s.value| ==> IsWhiteSpace(s.value[i])
  }

  /** Invariant upper-casing, for the ASCII letters. */
  function ToUpperChar(c: char): char {
    if 'a' <= c <= 'z' then (c as int - 'a' as int + 'A' as int) as char else c
  }

  function ToUpperInvariant(s: string): (r: string)
    ensures |r| == |s|
    ensures forall i :: 0 <= i < |s| ==> r[i] == ToUpperChar(s[i])
    ensures forall i :: 0 <= i < |r| ==> !('a' <= r[i] <= 'z')
  {
    seq(|s|, i requires 0 <= i < |s| => ToUpperChar(s[i]))
  }

  /** Upper-casing twice is upper-casing once, so a key upper-cased by the caller and again by the repository matches the same quizzes. */
  lemma UpperIdempotent(s: string)
    ensures ToUpperInvariant(ToUpperInvariant(s)) == ToUpperInvariant(s)
  {
    var u := ToUpperInvariant(s);
    assert forall i :: 0 <= i < |u| ==> ToUpperChar(u[i]) == u[i];
  }

  /** The white space `NumberStyles.AllowLeadingWhite`/`AllowTrailingWhite` skip: U+0009..U+000D and U+0020. */
  predicate IsNumberWhite(c: char) {
    c == ' ' || ('\t' <= c <= '\r')
  }

  predicate IsDigit(c: char) {
    '0' <= c <= '9'
  }

  predicate AllDigits(s: string) {
    forall i :: 0 <= i < |s| ==> IsDigit(s[i])
  }

  function TrimStart(s: string): (r: string)
    ensures |r| <= |s| && r == s[|s| - |r|..]
    ensures forall i :: 0 <= i < |s| - |r| ==> IsNumberWhite(s[i])
    ensures |r| > 0 ==> !IsNumberWhite(r[0])
  {
    if |s| > 0 && IsNumberWhite(s[0]) then
      var r := TrimStart(s[1..]);
      assert s[1..][|s| - 1 - |r|..] == s[|s| - |r|..];
      assert forall i :: 1 <= i < |s| - |r| ==> s[i] == s[1..][i - 1];
      r
    else s
  }

  function TrimEnd(s: string): (r: string)
    ensures |r| <= |s| && r == s[..|r|]
    ensures forall i :: |r| <= i < |s| ==> IsNumberWhite(s[i])
    ensures |r| > 0 ==> !IsNumberWhite(r[|r| - 1])
  {
    if |s| > 0 && IsNumberWhite(s[|s| - 1]) then TrimEnd(s[..|s| - 1]) else s
  }

  /** The value of a string of decimal digits, most significant first. */
  function DigitsValue(s: string): (v: nat)
    requires AllDigits(s)
  {
    if |s| == 0 then 0 else DigitsValue(s[..|s| - 1]) * 10 + (s[|s| - 1] as int - '0' as int)
  }

  /**
   * `int.TryParse(s, out n)` with the default NumberStyles.Integer: surrounding
   * white space, one optional sign, at least one decimal digit, Int32 range.
   * A null string does not parse.
   */
  function TryParseInt32(s: Option<string>): (r: Option<int>)
    ensures r.Some? ==> MinInt32 <= r.value <= MaxInt32
    ensures r.Some? ==> s.Some? && forall i :: 0 <= i < |s.value| ==>
      IsNumberWhite(s.value[i]) || IsDigit(s.value[i]) || s.value[i] == '+' || s.value[i] == '-'
  {
    match s
    case None => None
    case Some(str) =>
      var t := TrimEnd(TrimStart(str));
      if |t| == 0 then None
      else
        var body := if t[0] == '-' || t[0] == '+' then t[1..] else t;
        if |body| == 0 || !AllDigits(body) then None
        else
          var v: int := if t[0] == '-' then -(DigitsValue(body) as int) else DigitsValue(body);
          if MinInt32 <= v <= MaxInt32 then
            assert forall i :: 0 <= i < |str| ==>
              IsNumberWhite(str[i]) || IsDigit(str[i]) || str[i] == '+' || str[i] == '-' by {
              var ts := TrimStart(str);
              var lead := |str| - |ts|;
              forall i | 0 <= i < |str|
                ensures IsNumberWhite(str[i]) || IsDigit(str[i]) || str[i] == '+' || str[i] == '-'
              {
                if lead <= i < lead + |t| {
                  assert str[i] == t[i - lead];
                  if i - lead > 0 || !(t[0] == '-' || t[0] == '+') {
                    var k := if t[0] == '-' || t[0] == '+' then i - lead - 1 else i - lead;
                    assert body[k] == t[i - lead];
                  }
                } else if i >= lead + |t| {
                  assert ts[i - lead] == str[i];
                }
              }
            }
            Some(v)
          else None
  }

  /** `int.Parse`: the same grammar, throwing where `TryParse` answers false. */
  function ParseInt32(s: Option<string>): (r: Result<int>)
    ensures s.None? ==> r == Failure(Failed)
    ensures r.Failure? ==> r.fault == Failed
    ensures r.Success? ==> MinInt32 <= r.value <= MaxInt32
    ensures r.Success? ==> s.Some? && forall i :: 0 <= i < |s.value| ==>
      IsNumberWhite(s.value[i]) || IsDigit(s.value[i]) || s.value[i] == '+' || s.value[i] == '-'
    ensures r.Success? <==> TryParseInt32(s).Some?
    ensures r.Success? ==> r.value == TryParseInt32(s).value
  {
    match TryParseInt32(s)
    case Some(v) => Success(v)
    case None => Failure(Failed)
  }

  /** The decimal digits of a natural number, without leading zeros. */
  function Decimal(n: nat): (r: string)
    ensures |r| > 0 && AllDigits(r)
    decreases n
  {
    var d := ['0' + (n % 10) as char];
    if n < 10 then d else Decimal(n / 10) + d
  }

  /** `int.ToString()` under the invariant culture. */
  function FormatInt32(n: int): (r: string)
    ensures |r| > 0
  {
    if n < 0 then "-" + Decimal(-n) else Decimal(n)
  }

  lemma {:induction false} DecimalValue(n: nat)
    ensures DigitsValue(Decimal(n)) == n
    decreases n
  {
    var r := Decimal(n);
    if n >= 10 {
      DecimalValue(n / 10);
      assert r[..|r| - 1] == Decimal(n / 10);
    }
  }

  /** A string that neither starts nor ends with white space is its own trim. */
  lemma TrimNothing(s: string)
    requires |s| > 0 && !IsNumberWhite(s[0]) && !IsNumberWhite(s[|s| - 1])
    ensures TrimEnd(TrimStart(s)) == s
  {
    assert TrimStart(s) == s;
  }

  /** Formatting an Int32 and parsing it back gives the same number. */
  lemma FormatThenParse(n: int)
    requires MinInt32 <= n <= MaxInt32
    ensures TryParseInt32(Some(FormatInt32(n))) == Some(n)
  {
    var s := FormatInt32(n);
    var m: nat := if n < 0 then -n else n;
    DecimalValue(m);
    var ds := Decimal(m);
    TrimNothing(s);
    if n < 0 {
      assert s[1..] == ds;
    } else {
      assert IsDigit(ds[0]);
    }
  }

  /** `int.Parse` reads back every 32-bit value `ToString` writes. */
  lemma ParseFormatted(n: int)
    requires MinInt32 <= n <= MaxInt32
    ensures ParseInt32(Some(FormatInt32(n))) == Success(n)
  {
    FormatThenParse(n);
  }
}
