/** Models of the Python built-ins on `str` that the package library relies on:
    ordering of strings, `rsplit`/`split` with a single-character separator,
    substring tests and decimal conversion. */
module PyStr {

  datatype Option<T> = None | Some(value: T)

  /** The two Python exceptions the library can raise on malformed input:
      a tuple unpack that gets too few parts, and indexing an empty string. */
  datatype Error = ValueError | IndexError

  datatype Result<T> = Ok(value: T) | Err(error: Error)

  // ---------------------------------------------------------------------------
  // Ordering: Python's `a < b` on str compares code points lexicographically,
  // and a proper prefix sorts first.

  predicate StrLt(a: string, b: string)
  {
    if |b| == 0 then false
    else if |a| == 0 then true
    else if a[0] != b[0] then a[0] < b[0]
    else StrLt(a[1..], b[1..])
  }

  lemma {:induction false} StrLtIrreflexive(a: string)
    ensures !StrLt(a, a)
  {
    if |a| > 0 {
      StrLtIrreflexive(a[1..]);
    }
  }

  lemma {:induction false} StrLtAsymmetric(a: string, b: string)
    ensures StrLt(a, b) ==> !StrLt(b, a)
  {
    if |a| > 0 && |b| > 0 && a[0] == b[0] {
      StrLtAsymmetric(a[1..], b[1..]);
    }
  }

  lemma {:induction false} StrLtTransitive(a: string, b: string, c: string)
    requires StrLt(a, b) && StrLt(b, c)
    ensures StrLt(a, c)
  {
    if |a| > 0 && a[0] == b[0] && b[0] == c[0] {
      StrLtTransitive(a[1..], b[1..], c[1..]);
    }
  }

  /** Two different strings are always ordered one way or the other. */
  lemma {:induction false} StrLtTrichotomy(a: string, b: string)
    ensures a == b || StrLt(a, b) || StrLt(b, a)
  {
    if |a| > 0 && |b| > 0 && a[0] == b[0] {
      StrLtTrichotomy(a[1..], b[1..]);
      if a[1..] == b[1..] {
        assert a == [a[0]] + a[1..] && b == [b[0]] + b[1..];
      }
    }
  }

  // ---------------------------------------------------------------------------
  // Searching for a separator character.

  /** Index of the last occurrence of `c` in `s`, or -1 (Python's `str.rfind`). */
  function LastIndexOf(s: string, c: char): (r: int)
    ensures -1 <= r < |s|
    ensures r >= 0 ==> s[r] == c
    ensures forall j :: r < j < |s| ==> s[j] != c
  {
    if |s| == 0 then -1
    else if s[|s| - 1] == c then |s| - 1
    else LastIndexOf(s[..|s| - 1], c)
  }

  /** Index of the first occurrence of `c` in `s`, or -1 (Python's `str.find`). */
  function IndexOf(s: string, c: char): (r: int)
    ensures -1 <= r < |s|
    ensures r >= 0 ==> s[r] == c
    ensures forall j :: 0 <= j < |s| && (r < 0 || j < r) ==> s[j] != c
  {
    if |s| == 0 then -1
    else if s[0] == c then 0
    else
      var i := IndexOf(s[1..], c);
      if i < 0 then -1 else i + 1
  }

  // ---------------------------------------------------------------------------
  // Splitting. Each function models a Python split followed by a tuple unpack
  // of a fixed arity, which raises ValueError when there are too few parts.

  /** `x, y = s.rsplit(c, 1)` */
  function RSplitOnce(s: string, c: char): (r: Result<(string, string)>)
    ensures r.Err? <==> c !in s
    ensures r.Err? ==> r.error == ValueError
    ensures r.Ok? ==> s == r.value.0 + [c] + r.value.1 && c !in r.value.1
    ensures r.Ok? ==> r.value.1 == s[LastIndexOf(s, c) + 1..]
  {
    var i := LastIndexOf(s, c);
    if i < 0 then Err(ValueError)
    else
      assert s == s[..i] + [c] + s[i + 1..];
      Ok((s[..i], s[i + 1..]))
  }

  /** `x, y, z = s.rsplit(c, 2)`: succeeds exactly when `c` occurs at least twice. */
  function RSplitTwice(s: string, c: char): (r: Result<(string, string, string)>)
    ensures r.Err? <==> multiset(s)[c] < 2
    ensures r.Err? ==> r.error == ValueError
    ensures r.Ok? ==> s == r.value.0 + [c] + r.value.1 + [c] + r.value.2
                      && c !in r.value.1 && c !in r.value.2
    ensures r.Ok? ==> r.value.2 == s[LastIndexOf(s, c) + 1..]
  {
    match RSplitOnce(s, c)
    case Err(e) => Err(e)
    case Ok((rest, last)) =>
      assert multiset(s)[c] == multiset(rest)[c] + 1 by {
        assert multiset(s) == multiset(rest) + multiset{c} + multiset(last);
      }
      match RSplitOnce(rest, c)
      case Err(e) => Err(e)
      case Ok((first, middle)) =>
        assert multiset(rest)[c] >= 1 by {
          assert rest[|first|] == c;
        }
        Ok((first, middle, last))
  }

  /** `x, y = s.split(c, 1)` */
  function SplitOnce(s: string, c: char): (r: Result<(string, string)>)
    ensures r.Err? <==> c !in s
    ensures r.Err? ==> r.error == ValueError
    ensures r.Ok? ==> s == r.value.0 + [c] + r.value.1 && c !in r.value.0
  {
    var i := IndexOf(s, c);
    if i < 0 then Err(ValueError)
    else
      assert s == s[..i] + [c] + s[i + 1..];
      Ok((s[..i], s[i + 1..]))
  }

  /** A string joined at a separator that does not occur to its right is split back there. */
  lemma RSplitOnceOf(x: string, c: char, y: string)
    requires c !in y
    ensures RSplitOnce(x + [c] + y, c) == Ok((x, y))
  {
    var s := x + [c] + y;
    var i := LastIndexOf(s, c);
    assert s[|x|] == c;
    assert forall j :: |x| < j < |s| ==> s[j] == y[j - |x| - 1];
    assert i == |x|;
    assert s[..i] == x;
    assert s[i + 1..] == y;
  }

  lemma RSplitTwiceOf(x: string, c: char, y: string, z: string)
    requires c !in y && c !in z
    ensures RSplitTwice(x + [c] + y + [c] + z, c) == Ok((x, y, z))
  {
    RSplitOnceOf(x + [c] + y, c, z);
    RSplitOnceOf(x, c, y);
  }

  /** A string joined at a separator that does not occur to its left is split back there. */
  lemma SplitOnceOf(x: string, c: char, y: string)
    requires c !in x
    ensures SplitOnce(x + [c] + y, c) == Ok((x, y))
  {
    var s := x + [c] + y;
    var i := IndexOf(s, c);
    assert s[|x|] == c;
    assert forall j :: 0 <= j < |x| ==> s[j] == x[j];
    assert i == |x|;
    assert s[..i] == x;
    assert s[i + 1..] == y;
  }

  // ---------------------------------------------------------------------------
  // Substrings: Python's `needle in hay` on two strings.

  /** `needle` occurs in `hay` starting at index `i`. */
  ghost predicate OccursAt(hay: string, needle: string, i: int)
  {
    0 <= i <= |hay| - |needle| && hay[i..i + |needle|] == needle
  }

  predicate Contains(hay: string, needle: string)
    ensures Contains(hay, needle) <==> exists i :: OccursAt(hay, needle, i)
  {
    if needle <= hay then
      assert OccursAt(hay, needle, 0);
      true
    else if |hay| == 0 then
      assert forall i :: !OccursAt(hay, needle, i);
      false
    else
      var rest := Contains(hay[1..], needle);
      assert rest ==> exists i :: OccursAt(hay, needle, i) by {
        if rest {
          var i :| OccursAt(hay[1..], needle, i);
          assert hay[1..][i..i + |needle|] == hay[i + 1..i + 1 + |needle|];
          assert OccursAt(hay, needle, i + 1);
        }
      }
      assert !rest ==> forall i :: !OccursAt(hay, needle, i) by {
        forall i
          ensures OccursAt(hay, needle, i) ==> (i > 0 && OccursAt(hay[1..], needle, i - 1))
        {
          if OccursAt(hay, needle, i) && i > 0 {
            forall t | i <= t < i + |needle| ensures hay[t] == hay[1..][t - 1] { }
            assert hay[i..i + |needle|] == hay[1..][i - 1..i - 1 + |needle|];
          }
        }
      }
      rest
  }

  // ---------------------------------------------------------------------------
  // Decimal numerals: `str(n)` and `int(s)` restricted to digit strings.

  predicate IsDigit(ch: char) { '0' <= ch <= '9' }

  predicate AllDigits(s: string) { forall i :: 0 <= i < |s| ==> IsDigit(s[i]) }

  /** A numeral as `str` writes it: non-empty, digits only, no leading zero unless it is "0". */
  predicate IsCanonicalNumeral(s: string)
  {
    |s| > 0 && AllDigits(s) && (s[0] == '0' ==> s == "0")
  }

  function DigitChar(d: nat): (ch: char)
    requires d < 10
    ensures IsDigit(ch) && ch as int - '0' as int == d
  {
    (d + '0' as int) as char
  }

  /** `str(n)` for a non-negative int. */
  function NatToString(n: nat): (s: string)
    ensures IsCanonicalNumeral(s)
    ensures s == "0" <==> n == 0
  {
    if n < 10 then [DigitChar(n)]
    else
      var t := NatToString(n / 10);
      assert t != "0";
      t + [DigitChar(n % 10)]
  }

  /** `int(s)` for a string of decimal digits. */
  function ParseNat(s: string): nat
    requires AllDigits(s)
  {
    if |s| == 0 then 0
    else 10 * ParseNat(s[..|s| - 1]) + (s[|s| - 1] as int - '0' as int)
  }

  lemma {:induction false} ParseNatOfNatToString(n: nat)
    ensures ParseNat(NatToString(n)) == n
  {
    var s := NatToString(n);
    if n >= 10 {
      ParseNatOfNatToString(n / 10);
      assert s[..|s| - 1] == NatToString(n / 10);
    }
  }

  lemma {:induction false} ParseNatPositive(s: string)
    requires |s| > 0 && AllDigits(s) && s[0] != '0'
    ensures ParseNat(s) > 0
  {
    if |s| > 1 {
      ParseNatPositive(s[..|s| - 1]);
    }
  }

  lemma {:induction false} NatToStringOfParseNat(s: string)
    requires IsCanonicalNumeral(s)
    ensures NatToString(ParseNat(s)) == s
  {
    if |s| > 1 {
      var t := s[..|s| - 1];
      ParseNatPositive(t);
      NatToStringOfParseNat(t);
      var n := ParseNat(s);
      assert n / 10 == ParseNat(t) && n % 10 == s[|s| - 1] as int - '0' as int;
      assert s == t + [s[|s| - 1]];
    }
  }

  /** `str(n)` for any int: a minus sign before the numeral of a negative number. */
  function IntToString(n: int): (s: string)
    ensures n >= 0 ==> s == NatToString(n)
    ensures n < 0 ==> |s| > 1 && s[0] == '-' && s[1..] == NatToString(-n)
  {
    if n < 0 then "-" + NatToString(-n) else NatToString(n)
  }

  /** The strings `int(s)` accepts here: an optional sign, then one or more decimal digits. */
  predicate IsIntLiteral(s: string)
  {
    if |s| > 0 && (s[0] == '+' || s[0] == '-') then |s| > 1 && AllDigits(s[1..])
    else |s| > 0 && AllDigits(s)
  }

  /** `int(s)` for such a string. */
  function ParseInt(s: string): int
    requires IsIntLiteral(s)
  {
    if s[0] == '-' then -(ParseNat(s[1..]) as int)
    else if s[0] == '+' then ParseNat(s[1..])
    else ParseNat(s)
  }

  /** A numeral as `str` writes an int: canonical digits, with a minus sign when negative. */
  predicate IsCanonicalInt(s: string)
  {
    IsCanonicalNumeral(s) || (|s| > 1 && s[0] == '-' && IsCanonicalNumeral(s[1..]) && s[1..] != "0")
  }

  lemma ParseIntOfIntToString(n: int)
    ensures IsIntLiteral(IntToString(n)) && ParseInt(IntToString(n)) == n
  {
    if n < 0 {
      ParseNatOfNatToString(-n);
    } else {
      ParseNatOfNatToString(n);
    }
  }

  lemma IntToStringOfParseInt(s: string)
    requires IsCanonicalInt(s)
    ensures IsIntLiteral(s) && IntToString(ParseInt(s)) == s
  {
    if IsCanonicalNumeral(s) {
      NatToStringOfParseNat(s);
    } else {
      NatToStringOfParseNat(s[1..]);
      ParseNatPositive(s[1..]);
      assert s == "-" + s[1..];
    }
  }
}
