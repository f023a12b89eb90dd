/** The PHP semantics the two request handlers rely on: decoded request
    values, isset and ??, trim and empty, conversion to string, intval,
    and the loose comparison a switch statement performs. */
module Php {

  datatype Option<T> = None | Some(value: T)

  /** A scalar as json_decode(..., true) produces it. */
  datatype Value = Null | Bool(b: bool) | Int(i: int) | Str(s: string)

  /** A decoded JSON object. A body that is not a JSON object behaves
      like the empty map, since every key of it reads as unset. */
  type Request = map<string, Value>

  /** isset($data[key]): the key is present and its value is not null. */
  predicate IsSet(data: Request, key: string) {
    key in data && !data[key].Null?
  }

  /** $data[key], which reads an absent key as null. */
  function Get(data: Request, key: string): (v: Value)
    ensures v.Null? <==> !IsSet(data, key)
    ensures IsSet(data, key) ==> v == data[key]
  {
    if key in data then data[key] else Null
  }

  /** $data[key] ?? default */
  function Coalesce(data: Request, key: string, default: Value): (v: Value)
    ensures IsSet(data, key) ==> v == data[key]
    ensures !IsSet(data, key) ==> v == default
  {
    match Get(data, key)
    case Null => default
    case v => v
  }

  // ---------------------------------------------------------------- trim

  /** The characters trim() strips when given no character list:
      space, tab, newline, carriage return, NUL and vertical tab. */
  predicate IsTrimChar(c: char) {
    c == ' ' || c == '\t' || c == '\n' || c == '\r' || c == '\U{0}' || c == '\U{B}'
  }

  /** ltrim(s): the longest suffix of s that does not start with a trim character. */
  function TrimStart(s: string): (r: string)
    ensures |r| <= |s| && r == s[|s| - |r|..]
    ensures forall i :: 0 <= i < |s| - |r| ==> IsTrimChar(s[i])
    ensures r != [] ==> !IsTrimChar(r[0])
  {
    if s != [] && IsTrimChar(s[0]) then TrimStart(s[1..]) else s
  }

  /** rtrim(s): the longest prefix of s that does not end with a trim character. */
  function TrimEnd(s: string): (r: string)
    ensures |r| <= |s| && r == s[..|r|]
    ensures forall i :: |r| <= i < |s| ==> IsTrimChar(s[i])
    ensures r != [] ==> !IsTrimChar(r[|r| - 1])
  {
    if s != [] && IsTrimChar(s[|s| - 1]) then TrimEnd(s[..|s| - 1]) else s
  }

  /** trim(s): empty exactly when s consists of trim characters only, and
      otherwise neither starting nor ending with one. TrimIsSlice says
      which characters it keeps. */
  function Trim(s: string): (r: string)
    ensures r != [] ==> !IsTrimChar(r[0]) && !IsTrimChar(r[|r| - 1])
    ensures r == [] <==> forall i :: 0 <= i < |s| ==> IsTrimChar(s[i])
  {
    var t := TrimStart(s);
    var r := TrimEnd(t);
    TrimSlice(s, t, r);
    r
  }

  /** The characters trim() keeps: the right-trimmed part of the
      left-trimmed suffix of s. */
  lemma TrimSlice(s: string, t: string, r: string)
    requires |t| <= |s| && t == s[|s| - |t|..]
    requires forall i :: 0 <= i < |s| - |t| ==> IsTrimChar(s[i])
    requires |r| <= |t| && r == t[..|r|]
    requires forall i :: |r| <= i < |t| ==> IsTrimChar(t[i])
    ensures var a := |s| - |t|;
      && r == s[a..][..|r|]
      && (forall i :: a + |r| <= i < |s| ==> IsTrimChar(s[i]))
      && (r == [] ==> forall i :: 0 <= i < |s| ==> IsTrimChar(s[i]))
  {
    var a := |s| - |t|;
    forall i | a + |r| <= i < |s| ensures IsTrimChar(s[i]) {
      assert s[i] == t[i - a];
    }
    if r == [] {
      forall i | a <= i < |s| ensures IsTrimChar(s[i]) {
        assert s[i] == t[i - a];
      }
    }
  }

  /** trim(s) is the slice of s left once the trim characters at both
      ends are removed. */
  lemma TrimIsSlice(s: string)
    ensures exists a :: 0 <= a <= |s| - |Trim(s)| && Trim(s) == s[a..][..|Trim(s)|]
              && (forall i :: 0 <= i < a ==> IsTrimChar(s[i]))
              && (forall i :: a + |Trim(s)| <= i < |s| ==> IsTrimChar(s[i]))
  {
    TrimSlice(s, TrimStart(s), Trim(s));
  }

  /** The character at k is '0' and every other character of s is a
      trim character. */
  predicate OnlyZeroAt(s: string, k: int) {
    0 <= k < |s| && s[k] == '0' && forall i :: 0 <= i < |s| && i != k ==> IsTrimChar(s[i])
  }

  /** trim(s) is "0" exactly when one character of s is '0' and all the
      others are trim characters. */
  lemma TrimIsZero(s: string)
    ensures Trim(s) == "0" <==> exists k :: OnlyZeroAt(s, k)
  {
    var r := Trim(s);
    TrimIsSlice(s);
    var a :| 0 <= a <= |s| - |r| && r == s[a..][..|r|]
             && (forall i :: 0 <= i < a ==> IsTrimChar(s[i]))
             && (forall i :: a + |r| <= i < |s| ==> IsTrimChar(s[i]));
    if r == "0" {
      ZeroIsAt(s, r, a);
      assert OnlyZeroAt(s, a);
    }
    if k :| OnlyZeroAt(s, k) {
      ZeroIsKept(s, r, a, k);
    }
  }

  /** When the kept slice is "0", its '0' is the only character of s
      outside the trim set. */
  lemma ZeroIsAt(s: string, r: string, a: int)
    requires 0 <= a <= |s| - |r| && r == s[a..][..|r|] && r == "0"
    requires forall i :: 0 <= i < a ==> IsTrimChar(s[i])
    requires forall i :: a + |r| <= i < |s| ==> IsTrimChar(s[i])
    ensures OnlyZeroAt(s, a)
  {
    assert s[a] == r[0];
  }

  /** The kept slice of a string whose only character outside the trim
      set is the '0' at k is that one character. */
  lemma ZeroIsKept(s: string, r: string, a: int, k: int)
    requires 0 <= a <= |s| - |r| && r == s[a..][..|r|]
    requires r != [] ==> !IsTrimChar(r[0]) && !IsTrimChar(r[|r| - 1])
    requires r == [] <==> forall i :: 0 <= i < |s| ==> IsTrimChar(s[i])
    requires OnlyZeroAt(s, k)
    ensures r == "0"
  {
    assert !IsTrimChar(s[k]);
    assert r != [];
    assert s[a] == r[0] && s[a + |r| - 1] == r[|r| - 1];
    assert a == k && a + |r| - 1 == k;
    assert r == [s[k]];
  }

  /** trim() is idempotent. */
  lemma TrimIdempotent(s: string)
    ensures Trim(Trim(s)) == Trim(s)
  {
    var r := Trim(s);
    if r != [] {
      assert TrimStart(r) == r;
      assert TrimEnd(r) == r;
    }
  }

  /** empty() of a string: true for "" and for "0". */
  predicate IsEmpty(s: string) {
    s == "" || s == "0"
  }

  // ------------------------------------------------- decimal conversion

  predicate IsDigit(c: char) {
    '0' <= c <= '9'
  }

  function DigitChar(d: nat): (c: char)
    requires d < 10
    ensures IsDigit(c) && c as int - '0' as int == d
  {
    ('0' as int + d) as char
  }

  /** The decimal digits of n, most significant first, without leading zeros. */
  function NatToDecimal(n: nat): (s: string)
    ensures |s| > 0
    ensures forall i :: 0 <= i < |s| ==> IsDigit(s[i])
  {
    if n < 10 then [DigitChar(n)] else NatToDecimal(n / 10) + [DigitChar(n % 10)]
  }

  /** (string)$i for an integer: an optional minus sign and decimal digits. */
  function IntToDecimal(i: int): (s: string)
    ensures |s| > 0 && (s[0] == '-' || IsDigit(s[0]))
  {
    if i < 0 then "-" + NatToDecimal(-i) else NatToDecimal(i)
  }

  /** The number a run of decimal digits denotes. */
  function DigitsValue(s: string): nat
    requires forall i :: 0 <= i < |s| ==> IsDigit(s[i])
  {
    if s == [] then 0
    else
      assert IsDigit(s[|s| - 1]);
      DigitsValue(s[..|s| - 1]) * 10 + (s[|s| - 1] as int - '0' as int)
  }

  lemma {:induction false} NatDecimalRoundTrip(n: nat)
    ensures DigitsValue(NatToDecimal(n)) == n
  {
    if n >= 10 {
      var s := NatToDecimal(n);
      assert s[..|s| - 1] == NatToDecimal(n / 10);
      NatDecimalRoundTrip(n / 10);
    }
  }

  /** The length of the run of digits s starts with. */
  function DigitRun(s: string): (k: nat)
    ensures k <= |s|
    ensures forall i :: 0 <= i < k ==> IsDigit(s[i])
    ensures k < |s| ==> !IsDigit(s[k])
  {
    if s != [] && IsDigit(s[0]) then 1 + DigitRun(s[1..]) else 0
  }

  /** The whitespace PHP skips before a leading-numeric string. */
  predicate IsNumericSpace(c: char) {
    c == ' ' || c == '\t' || c == '\n' || c == '\r' || c == '\U{B}' || c == '\U{C}'
  }

  function SkipNumericSpace(s: string): (r: string)
    ensures |r| <= |s| && r == s[|s| - |r|..]
    ensures r != [] ==> !IsNumericSpace(r[0])
  {
    if s != [] && IsNumericSpace(s[0]) then SkipNumericSpace(s[1..]) else s
  }

  /** The value of the unsigned digit run s starts with (0 when there is none). */
  function LeadingDigits(s: string): nat {
    DigitsValue(s[..DigitRun(s)])
  }

  /** The integer a string converts to: leading whitespace, an optional
      sign, then the longest run of digits; 0 when there are no digits. */
  function LeadingInt(s: string): int {
    var t := SkipNumericSpace(s);
    if t != [] && t[0] == '-' then -(LeadingDigits(t[1..]) as int)
    else if t != [] && t[0] == '+' then LeadingDigits(t[1..])
    else LeadingDigits(t)
  }

  lemma {:induction false} DigitRunOfDigits(d: string)
    requires forall i :: 0 <= i < |d| ==> IsDigit(d[i])
    ensures DigitRun(d) == |d|
  {
    if d != [] {
      DigitRunOfDigits(d[1..]);
    }
  }

  lemma DigitsAreOneRun(d: string)
    requires forall i :: 0 <= i < |d| ==> IsDigit(d[i])
    ensures LeadingDigits(d) == DigitsValue(d)
  {
    DigitRunOfDigits(d);
    assert d[..|d|] == d;
  }

  /** Converting an integer to a string and back gives the integer. */
  lemma IntDecimalRoundTrip(i: int)
    ensures LeadingInt(IntToDecimal(i)) == i
  {
    var n: nat := if i < 0 then -i else i;
    var d := NatToDecimal(n);
    DigitsAreOneRun(d);
    NatDecimalRoundTrip(n);
    var s := IntToDecimal(i);
    assert !IsNumericSpace(s[0]);
    assert SkipNumericSpace(s) == s;
    if i < 0 {
      assert s[0] == '-' && s[1..] == d;
    } else {
      assert s == d && s[0] != '-' && s[0] != '+';
    }
  }

  lemma EmptyIsZero()
    ensures LeadingInt("") == 0
  {
    assert SkipNumericSpace("") == "";
    assert DigitRun("") == 0;
    assert ""[..0] == "";
  }

  // ------------------------------------------------ conversions of values

  /** (string)$v: null and false become "", true becomes "1". */
  function ToStr(v: Value): string {
    match v
    case Null => ""
    case Bool(b) => if b then "1" else ""
    case Int(i) => IntToDecimal(i)
    case Str(s) => s
  }

  /** intval($v). */
  function IntVal(v: Value): int {
    match v
    case Null => 0
    case Bool(b) => if b then 1 else 0
    case Int(i) => i
    case Str(s) => LeadingInt(s)
  }

  /** intval of a value is the integer its string form starts with. */
  lemma IntValOfString(v: Value)
    ensures IntVal(v) == LeadingInt(ToStr(v))
  {
    match v
    case Null =>
      EmptyIsZero();
    case Bool(b) =>
      if b {
        assert IntToDecimal(1) == "1";
        IntDecimalRoundTrip(1);
      } else {
        EmptyIsZero();
      }
    case Int(i) =>
      IntDecimalRoundTrip(i);
    case Str(s) =>
  }

  // ---------------------------------------------------- loose comparison

  /** A switch label made of lower-case letters and underscores, such as
      "register" or "get_tasks": never empty, never a numeric string. */
  predicate IsWord(word: string) {
    |word| > 0 && forall i :: 0 <= i < |word| ==> ('a' <= word[i] <= 'z' || word[i] == '_')
  }

  /** $v == $word, the comparison a switch case performs, under PHP 8
      rules: a bool compares with the truth of the label, an integer with
      a non-numeric label compares as a string, null compares as "". */
  predicate LooseEquals(v: Value, word: string)
    requires IsWord(word)
  {
    match v
    case Null => word == ""
    case Bool(b) => b == (word != "" && word != "0")
    case Int(i) => IntToDecimal(i) == word
    case Str(s) => s == word
  }

  /** No null, no false and no integer equals a word label; true equals
      every one of them; a string equals exactly itself. */
  lemma LooseEqualsWord(v: Value, word: string)
    requires IsWord(word)
    ensures LooseEquals(v, word) <==> v == Bool(true) || v == Str(word)
  {
    assert word != "" && word != "0" by {
      assert 'a' <= word[0] <= 'z' || word[0] == '_';
    }
    if v.Int? {
      assert IntToDecimal(v.i)[0] != word[0];
    }
  }
}
