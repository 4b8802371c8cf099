/** The string operations of the .NET base library that the CSV reader and writer
    rely on: `Trim`, `IsNullOrWhiteSpace`, `Split` with and without
    `RemoveEmptyEntries`, `string.Join`, `int.ToString()` and `int.Parse`. */
module Text {
  import opened Wrappers

  /** The characters `Char.IsWhiteSpace` accepts: the control characters U+0009 to
      U+000D and U+0085, and the Unicode space, line and paragraph separators. */
  predicate IsWhiteSpace(c: char) {
    || '\U{0009}' <= c <= '\U{000D}' || c == ' ' || c == '\U{0085}' || c == '\U{00A0}'
    || c == '\U{1680}' || '\U{2000}' <= c <= '\U{200A}' || c == '\U{2028}' || c == '\U{2029}'
    || c == '\U{202F}' || c == '\U{205F}' || c == '\U{3000}'
  }

  /** `string.IsNullOrWhiteSpace` on a non-null string. */
  predicate IsBlank(s: string) {
    forall i | 0 <= i < |s| :: IsWhiteSpace(s[i])
  }

  predicate NoWhiteSpace(s: string) {
    forall i | 0 <= i < |s| :: !IsWhiteSpace(s[i])
  }

  function TrimStart(s: string): (r: string)
    ensures |r| <= |s| && r == s[|s| - |r|..]
    ensures r == [] || !IsWhiteSpace(r[0])
    ensures IsBlank(s[..|s| - |r|])
  {
    if s != [] && IsWhiteSpace(s[0]) then
      var t := TrimStart(s[1..]);
      assert s[1..][..|s| - 1 - |t|] == s[1..|s| - |t|];
      t
    else s
  }

  function TrimEnd(s: string): (r: string)
    ensures |r| <= |s| && r == s[..|r|]
    ensures r == [] || !IsWhiteSpace(r[|r| - 1])
    ensures IsBlank(s[|r|..])
  {
    if s != [] && IsWhiteSpace(s[|s| - 1]) then
      var t := TrimEnd(s[..|s| - 1]);
      assert s[..|s| - 1][|t|..] == s[|t|..|s| - 1];
      assert forall i | |t| <= i < |s| :: IsWhiteSpace(s[i]) by {
        forall i | |t| <= i < |s| ensures IsWhiteSpace(s[i]) {
          if i < |s| - 1 {
            assert s[i] == s[|t|..|s| - 1][i - |t|];
          }
        }
      }
      assert forall i | 0 <= i < |s| - |t| :: s[|t|..][i] == s[|t| + i];
      t
    else s
  }

  /** `string.Trim()`: white space removed from both ends. */
  function Trim(s: string): (r: string)
    ensures r == [] || (!IsWhiteSpace(r[0]) && !IsWhiteSpace(r[|r| - 1]))
    ensures |r| <= |s|
  {
    TrimEnd(TrimStart(s))
  }

  /** Trimming changes nothing in text without white space. */
  lemma TrimNoWhiteSpace(s: string)
    requires NoWhiteSpace(s)
    ensures Trim(s) == s
  {
    if s != [] {
      assert !IsWhiteSpace(s[0]);
      assert !IsWhiteSpace(s[|s| - 1]);
    }
  }

  /** A line is blank exactly when trimming leaves nothing. */
  lemma TrimEmptyIffBlank(s: string)
    ensures Trim(s) == [] <==> IsBlank(s)
  {
    var a := TrimStart(s);
    var i := |s| - |a|;
    if Trim(s) == [] {
      assert IsBlank(a[0..]);
      forall k | 0 <= k < |s| ensures IsWhiteSpace(s[k]) {
        if k < i { assert s[..i][k] == s[k]; } else { assert a[k - i] == s[k]; }
      }
    } else {
      var r := Trim(s);
      assert r == a[..|r|];
      assert !IsWhiteSpace(s[i]) by { assert r[0] == a[0] == s[i]; }
    }
  }

  /** The separators the reader splits on: `Split((char[]?)null, …)` splits at
      white space, `Split(',', …)` and `Split(';', …)` at one character. */
  datatype Separator = WhiteSpaceSep | CharSep(c: char)

  predicate IsSep(sep: Separator, c: char) {
    match sep
    case WhiteSpaceSep => IsWhiteSpace(c)
    case CharSep(d) => c == d
  }

  predicate FreeOf(s: string, sep: Separator) {
    forall i | 0 <= i < |s| :: !IsSep(sep, s[i])
  }

  /** `s.Split(sep)` without options: every field, empty ones included, so there is
      one more field than there are separators. */
  function Split(s: string, sep: Separator): (r: seq<string>)
    ensures |r| >= 1
    ensures forall k | 0 <= k < |r| :: FreeOf(r[k], sep)
  {
    if s == [] then [""]
    else
      var rest := Split(s[1..], sep);
      if IsSep(sep, s[0]) then [""] + rest
      else [[s[0]] + rest[0]] + rest[1..]
  }

  /** Text without a separator is a single field. */
  lemma {:induction false} SplitFree(s: string, sep: Separator)
    requires FreeOf(s, sep)
    ensures Split(s, sep) == [s]
  {
    if s != [] {
      SplitFree(s[1..], sep);
      assert [s[0]] + s[1..] == s;
    }
  }

  lemma ConsAppend<T>(x: T, xs: seq<T>, ys: seq<T>)
    ensures ([x] + xs) + ys == [x] + (xs + ys)
  {
  }

  lemma ConsParts<T>(x: T, xs: seq<T>)
    ensures ([x] + xs)[0] == x && ([x] + xs)[1..] == xs
  {
  }

  lemma AppendTail<T>(xs: seq<T>, ys: seq<T>)
    requires xs != []
    ensures (xs + ys)[0] == xs[0] && (xs + ys)[1..] == xs[1..] + ys
  {
  }

  /** Splitting at a separator character splits the text into the fields before and after it. */
  lemma {:induction false} SplitAppend(a: string, c: char, b: string, sep: Separator)
    requires IsSep(sep, c)
    ensures Split(a + [c] + b, sep) == Split(a, sep) + Split(b, sep)
  {
    var s := a + [c] + b;
    if a == [] {
      assert s == [c] + b;
      assert s[0] == c && s[1..] == b;
    } else {
      var tail := a[1..] + [c] + b;
      assert s[0] == a[0] && s[1..] == tail;
      SplitAppend(a[1..], c, b, sep);
      var front, back := Split(a[1..], sep), Split(b, sep);
      if IsSep(sep, a[0]) {
        ConsAppend("", front, back);
      } else {
        AppendTail(front, back);
        ConsAppend([a[0]] + front[0], front[1..], back);
      }
    }
  }

  /** `StringSplitOptions.RemoveEmptyEntries`: drop the empty fields, keep the order. */
  function RemoveEmpty(parts: seq<string>): (r: seq<string>)
    ensures |r| <= |parts|
    ensures forall k | 0 <= k < |r| :: r[k] != [] && r[k] in parts
    ensures forall p | p in parts && p != [] :: p in r
  {
    if parts == [] then []
    else
      var rest := RemoveEmpty(parts[1..]);
      assert forall p | p in parts[1..] :: p in parts;
      if parts[0] == [] then rest else [parts[0]] + rest
  }

  lemma {:induction false} RemoveEmptyKeepsNonEmpty(parts: seq<string>)
    requires forall k | 0 <= k < |parts| :: parts[k] != []
    ensures RemoveEmpty(parts) == parts
  {
    if parts != [] {
      RemoveEmptyKeepsNonEmpty(parts[1..]);
      assert parts == [parts[0]] + parts[1..];
    }
  }

  lemma {:induction false} RemoveEmptyAppend(a: seq<string>, b: seq<string>)
    ensures RemoveEmpty(a + b) == RemoveEmpty(a) + RemoveEmpty(b)
  {
    if a != [] {
      assert (a + b)[0] == a[0];
      assert (a + b)[1..] == a[1..] + b;
      RemoveEmptyAppend(a[1..], b);
    } else {
      assert a + b == b;
    }
  }

  /** `.Select(x => x.Trim())`. */
  function TrimEach(parts: seq<string>): (r: seq<string>)
    ensures |r| == |parts|
    ensures forall k | 0 <= k < |r| :: r[k] == Trim(parts[k])
  {
    if parts == [] then [] else [Trim(parts[0])] + TrimEach(parts[1..])
  }

  /** Trimming each of several texts without white space changes none of them. */
  lemma {:induction false} TrimEachNoWhiteSpace(parts: seq<string>)
    requires forall k | 0 <= k < |parts| :: NoWhiteSpace(parts[k])
    ensures TrimEach(parts) == parts
  {
    if parts != [] {
      TrimNoWhiteSpace(parts[0]);
      TrimEachNoWhiteSpace(parts[1..]);
      assert parts == [parts[0]] + parts[1..];
    }
  }

  /** `string.Join(sep, parts)`. */
  function Join(parts: seq<string>, sep: string): (r: string)
    ensures parts == [] ==> r == []
    ensures |parts| == 1 ==> r == parts[0]
  {
    if parts == [] then []
    else if |parts| == 1 then parts[0]
    else parts[0] + sep + Join(parts[1..], sep)
  }

  /** Joining fields that hold no separator with a separator character and splitting
      again gives back the fields. */
  lemma {:induction false} SplitJoin(parts: seq<string>, c: char, sep: Separator)
    requires parts != [] && IsSep(sep, c)
    requires forall k | 0 <= k < |parts| :: FreeOf(parts[k], sep)
    ensures Split(Join(parts, [c]), sep) == parts
  {
    if |parts| == 1 {
      SplitFree(parts[0], sep);
    } else {
      SplitJoin(parts[1..], c, sep);
      SplitFree(parts[0], sep);
      SplitAppend(parts[0], c, Join(parts[1..], [c]), sep);
      assert parts[0] + [c] + Join(parts[1..], [c]) == Join(parts, [c]);
      assert parts == [parts[0]] + parts[1..];
    }
  }

  /** Fields free of a separator, joined with a character that is not one, stay free of it. */
  lemma {:induction false} JoinFree(parts: seq<string>, c: char, sep: Separator)
    requires !IsSep(sep, c)
    requires forall k | 0 <= k < |parts| :: FreeOf(parts[k], sep)
    ensures FreeOf(Join(parts, [c]), sep)
  {
    if |parts| > 1 {
      JoinFree(parts[1..], c, sep);
      var r := Join(parts, [c]);
      var a, b := parts[0], Join(parts[1..], [c]);
      assert r == a + [c] + b;
      forall i | 0 <= i < |r| ensures !IsSep(sep, r[i]) {
        if i < |a| {
          assert r[i] == a[i];
        } else if i > |a| {
          assert r[i] == b[i - |a| - 1];
        }
      }
    }
  }

  /** Joining one more field appends the separator and that field. */
  lemma {:induction false} JoinSnoc(parts: seq<string>, x: string, sep: string)
    requires parts != []
    ensures Join(parts + [x], sep) == Join(parts, sep) + sep + x
  {
    if |parts| == 1 {
      assert parts + [x] == [parts[0], x];
      assert [parts[0], x][1..] == [x];
    } else {
      assert (parts + [x])[1..] == parts[1..] + [x];
      JoinSnoc(parts[1..], x, sep);
    }
  }

  /** The joined text ends with the last field. */
  lemma {:induction false} JoinEndsWithLast(parts: seq<string>, sep: string)
    requires parts != []
    ensures var j, last := Join(parts, sep), parts[|parts| - 1];
            |j| >= |last| && j[|j| - |last|..] == last
  {
    if |parts| > 1 {
      JoinEndsWithLast(parts[1..], sep);
      assert Join(parts, sep) == (parts[0] + sep) + Join(parts[1..], sep);
    }
  }

  /** The joined text starts with the first field. */
  lemma JoinStartsWithFirst(parts: seq<string>, sep: string)
    requires parts != []
    ensures |Join(parts, sep)| >= |parts[0]| && Join(parts, sep)[..|parts[0]|] == parts[0]
  {
    if |parts| > 1 {
      assert Join(parts, sep) == parts[0] + (sep + Join(parts[1..], sep));
    }
  }

  /** Trimming changes nothing in text that neither starts nor ends with white space. */
  lemma TrimEnds(s: string)
    requires s != [] && !IsWhiteSpace(s[0]) && !IsWhiteSpace(s[|s| - 1])
    ensures Trim(s) == s
  {
  }

  /** Trimming drops one trailing blank after text with non-blank ends. */
  lemma TrimTrailingBlank(s: string)
    requires s != [] && !IsWhiteSpace(s[0]) && !IsWhiteSpace(s[|s| - 1])
    ensures Trim(s + " ") == s
  {
    var t := s + " ";
    assert TrimStart(t) == t;
    assert t[..|t| - 1] == s;
    assert TrimEnd(t) == TrimEnd(s) == s;
  }

  // ---- decimal integers ----

  predicate IsDigit(c: char) { '0' <= c <= '9' }

  function DigitChar(d: nat): (c: char)
    requires d < 10
    ensures IsDigit(c)
  {
    "0123456789"[d]
  }

  function DigitValue(c: char): (d: nat)
    requires IsDigit(c)
    ensures d < 10
  {
    (c as int - '0' as int) as nat
  }

  lemma DigitRoundTrip(d: nat)
    requires d < 10
    ensures DigitValue(DigitChar(d)) == d
  {
  }

  predicate AllDigits(s: string) {
    forall i | 0 <= i < |s| :: IsDigit(s[i])
  }

  /** The value of a string of decimal digits. */
  function DigitsValue(s: string): nat
    requires AllDigits(s)
  {
    if s == [] then 0 else DigitsValue(s[..|s| - 1]) * 10 + DigitValue(s[|s| - 1])
  }

  /** `n.ToString()` for a non-negative `n`: shortest decimal form, no sign. */
  function NatToString(n: nat): string
  {
    if n < 10 then [DigitChar(n)] else NatToString(n / 10) + [DigitChar(n % 10)]
  }

  /** The decimal form of `n` is a non-empty run of digits whose value is `n`. */
  lemma {:induction false} NatToStringDigits(n: nat)
    ensures NatToString(n) != [] && AllDigits(NatToString(n))
    ensures DigitsValue(NatToString(n)) == n
  {
    if n < 10 {
      DigitRoundTrip(n);
    } else {
      NatToStringDigits(n / 10);
      var r := NatToString(n);
      assert r[..|r| - 1] == NatToString(n / 10);
      DigitRoundTrip(n % 10);
    }
  }

  /** `n.ToString()` in a culture whose negative sign is '-': a leading '-' for negative
      values. */
  function IntToString(n: int): string
  {
    if n < 0 then "-" + NatToString(-n) else NatToString(n)
  }

  /** The decimal form of an int is non-empty, made of digits and a minus sign, and
      starts with a digit when the int is not negative. */
  lemma IntToStringShape(n: int)
    ensures IntToString(n) != [] && NoWhiteSpace(IntToString(n))
    ensures forall i | 0 <= i < |IntToString(n)| :: IntToString(n)[i] == '-' || IsDigit(IntToString(n)[i])
    ensures 0 <= n ==> IsDigit(IntToString(n)[0])
  {
    if n < 0 {
      NatToStringDigits(-n);
    } else {
      NatToStringDigits(n);
    }
  }

  const MinInt32: int := -0x8000_0000
  const MaxInt32: int := 0x7FFF_FFFF

  predicate IsInt32(n: int) { MinInt32 <= n <= MaxInt32 }

  function Int32Checked(n: int): Option<int> {
    if IsInt32(n) then Some(n) else None
  }

  /** `int.Parse(s, CultureInfo.InvariantCulture)` on text with no surrounding white
      space: an optional sign, then one or more decimal digits; None stands for the
      FormatException (malformed text) and the OverflowException (outside 32 bits). */
  function ParseInt(s: string): (r: Option<int>)
    ensures r.Some? ==> IsInt32(r.value)
    ensures r.Some? ==> s != [] && (IsDigit(s[0]) || s[0] == '-' || s[0] == '+')
  {
    if s == [] then None
    else if s[0] == '-' || s[0] == '+' then
      var digits := s[1..];
      if digits == [] || !AllDigits(digits) then None
      else if s[0] == '-' then Int32Checked(-(DigitsValue(digits) as int))
      else Int32Checked(DigitsValue(digits))
    else if AllDigits(s) then Int32Checked(DigitsValue(s))
    else None
  }

  /** A minus sign followed by digits parses as the negated digits' value. */
  lemma ParseNegative(digits: string)
    requires digits != [] && AllDigits(digits) && IsInt32(-(DigitsValue(digits) as int))
    ensures ParseInt(['-'] + digits) == Some(-(DigitsValue(digits) as int))
  {
    ConsParts('-', digits);
  }

  /** Digits alone parse as their value. */
  lemma ParseUnsigned(s: string)
    requires s != [] && AllDigits(s) && IsDigit(s[0]) && IsInt32(DigitsValue(s))
    ensures ParseInt(s) == Some(DigitsValue(s))
  {
    assert s[0] != '-' && s[0] != '+';
  }

  /** `int.Parse` reads back what `ToString` writes, for every 32-bit value. */
  lemma ParseIntToString(n: int)
    requires IsInt32(n)
    ensures ParseInt(IntToString(n)) == Some(n)
  {
    if n < 0 {
      NatToStringDigits(-n);
      ParseNegative(NatToString(-n));
    } else {
      NatToStringDigits(n);
      IntToStringShape(n);
      ParseUnsigned(NatToString(n));
    }
  }

  /** The decimal form of an int holds no comma, semicolon or white space. */
  lemma IntToStringFree(n: int)
    ensures FreeOf(IntToString(n), CharSep(','))
    ensures FreeOf(IntToString(n), CharSep(';'))
    ensures FreeOf(IntToString(n), WhiteSpaceSep)
  {
    IntToStringShape(n);
  }
}
