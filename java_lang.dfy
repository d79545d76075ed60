/**
 * The pieces of the Java platform that the summarizer relies on: 32-bit `int`
 * arithmetic, `String.trim`, `String.split` on a single character,
 * `String.join`, `Integer.toString` and `Integer.parseInt` (radix 10, ASCII
 * digits only).
 */
module JavaLang {
  import opened Wrappers

  const INT_MIN: int := -0x8000_0000
  const INT_MAX: int := 0x7fff_ffff

  /** A value of Java's `int` (and of a non-null `Integer`). */
  type Int32 = x: int | INT_MIN <= x <= INT_MAX

  /** Java `int` addition: the `int` that agrees with the exact sum in its low
      32 bits, i.e. the sum wrapped modulo 2^32 into the signed range. */
  function AddInt(a: Int32, b: Int32): (r: Int32)
    ensures (r - (a + b)) % 0x1_0000_0000 == 0
  {
    if a + b > INT_MAX then a + b - 0x1_0000_0000
    else if a + b < INT_MIN then a + b + 0x1_0000_0000
    else a + b
  }

  /** Two `int` values that agree modulo 2^32 are equal. */
  lemma Int32Congruent(x: Int32, y: Int32)
    requires (x - y) % 0x1_0000_0000 == 0
    ensures x == y
  {
    var k := (x - y) / 0x1_0000_0000;
    assert x - y == k * 0x1_0000_0000;
  }

  /** When the exact sum fits in an `int`, `int` addition is exact; when it
      does not, the result is the sum shifted by 2^32 back into range. */
  lemma AddIntExact(a: Int32, b: Int32)
    ensures INT_MIN <= a + b <= INT_MAX ==> AddInt(a, b) == a + b
    ensures a + b > INT_MAX ==> AddInt(a, b) == a + b - 0x1_0000_0000
    ensures a + b < INT_MIN ==> AddInt(a, b) == a + b + 0x1_0000_0000
  {
    var r := AddInt(a, b);
    if INT_MIN <= a + b <= INT_MAX {
      Int32Congruent(r, a + b);
    } else if a + b > INT_MAX {
      assert (r - (a + b - 0x1_0000_0000)) % 0x1_0000_0000 == 0;
      Int32Congruent(r, a + b - 0x1_0000_0000);
    } else {
      assert (r - (a + b + 0x1_0000_0000)) % 0x1_0000_0000 == 0;
      Int32Congruent(r, a + b + 0x1_0000_0000);
    }
  }

  // ---------------------------------------------------------------------
  // String.trim: strips every leading and trailing char whose code is at
  // most U+0020 (space and the control characters).

  predicate IsTrimmable(c: char) { c <= ' ' }

  /** Every character of `s` is removed by `trim`. */
  predicate IsBlank(s: string) { forall i :: 0 <= i < |s| ==> IsTrimmable(s[i]) }

  /** Drops the blank characters at the front. */
  function TrimStart(s: string): string
    decreases |s|
  {
    if s != [] && IsTrimmable(s[0]) then TrimStart(s[1..]) else s
  }

  /** Drops the blank characters at the back. */
  function TrimEnd(s: string): string
    decreases |s|
  {
    if s != [] && IsTrimmable(s[|s| - 1]) then TrimEnd(s[..|s| - 1]) else s
  }

  /** `String.trim()`. */
  function Trim(s: string): string
  {
    TrimEnd(TrimStart(s))
  }

  /** `TrimStart` removes a blank prefix and stops at the first non-blank character. */
  lemma {:induction false} TrimStartSuffix(s: string)
    ensures var r := TrimStart(s);
            |r| <= |s| && r == s[|s| - |r|..] && IsBlank(s[..|s| - |r|])
            && (r == [] || !IsTrimmable(r[0]))
    decreases |s|
  {
    if s != [] && IsTrimmable(s[0]) {
      TrimStartSuffix(s[1..]);
      var r := TrimStart(s);
      assert s[..|s| - |r|] == [s[0]] + s[1..][..|s| - 1 - |r|];
    }
  }

  /** `TrimEnd` removes a blank suffix and stops at the last non-blank character. */
  lemma {:induction false} TrimEndPrefix(s: string)
    ensures var r := TrimEnd(s);
            |r| <= |s| && r == s[..|r|] && IsBlank(s[|r|..])
            && (r == [] || !IsTrimmable(r[|r| - 1]))
    decreases |s|
  {
    if s != [] && IsTrimmable(s[|s| - 1]) {
      TrimEndPrefix(s[..|s| - 1]);
      var r := TrimEnd(s);
      assert s[|r|..] == s[..|s| - 1][|r|..] + [s[|s| - 1]];
    }
  }

  /** What `trim` removes is blank, what it keeps is one contiguous piece of `s`
      that neither starts nor ends with a blank character. */
  lemma TrimInfix(s: string)
    ensures var r := Trim(s);
            exists i :: 0 <= i <= |s| - |r| && r == s[i..i + |r|]
                        && IsBlank(s[..i]) && IsBlank(s[i + |r|..])
    ensures var r := Trim(s); r == [] || (!IsTrimmable(r[0]) && !IsTrimmable(r[|r| - 1]))
  {
    var t := TrimStart(s);
    TrimStartSuffix(s);
    TrimEndPrefix(t);
    var r := TrimEnd(t);
    var i := |s| - |t|;
    assert r == s[i..i + |r|];
    assert s[i + |r|..] == t[|r|..];
  }

  /** `trim` gives the empty string exactly when every character is blank. */
  lemma TrimEmpty(s: string)
    ensures Trim(s) == [] <==> IsBlank(s)
  {
    var t := TrimStart(s);
    TrimStartSuffix(s);
    TrimEndPrefix(t);
    if Trim(s) == [] {
      assert s == s[..|s| - |t|] + t;
    }
  }

  lemma {:induction false} TrimStartPadded(pad: string, s: string)
    requires IsBlank(pad)
    requires s != [] && !IsTrimmable(s[0])
    ensures TrimStart(pad + s) == s
    decreases |pad|
  {
    if pad != [] {
      assert (pad + s)[1..] == pad[1..] + s;
      TrimStartPadded(pad[1..], s);
    }
  }

  /** A string that starts and ends with a non-blank character is left alone by `trim`,
      even after blank characters are put in front of it. */
  lemma TrimTight(s: string, pad: string)
    requires s != [] && !IsTrimmable(s[0]) && !IsTrimmable(s[|s| - 1])
    requires IsBlank(pad)
    ensures Trim(pad + s) == s
  {
    TrimStartPadded(pad, s);
  }

  // ---------------------------------------------------------------------
  // String.split on a one-character, non-regex-special delimiter, and String.join.

  /** `String.join(sep, parts)`. */
  function Join(parts: seq<string>, sep: string): string
  {
    if parts == [] then ""
    else if |parts| == 1 then parts[0]
    else parts[0] + sep + Join(parts[1..], sep)
  }

  /** The pieces of `s` between occurrences of `d`, keeping empty pieces:
      the first character either ends the first piece or belongs to it. */
  function Split(s: string, d: char): (parts: seq<string>)
    ensures |parts| > 0
    decreases |s|
  {
    if s == [] then [[]]
    else
      var rest := Split(s[1..], d);
      if s[0] == d then [[]] + rest else [[s[0]] + rest[0]] + rest[1..]
  }

  /** No piece holds the delimiter. */
  lemma {:induction false} SplitPieces(s: string, d: char)
    ensures forall i :: 0 <= i < |Split(s, d)| ==> d !in Split(s, d)[i]
    decreases |s|
  {
    if s != [] {
      SplitPieces(s[1..], d);
      var rest := Split(s[1..], d);
      var parts := Split(s, d);
      forall i | 0 <= i < |parts| ensures d !in parts[i] {
        if s[0] == d {
          if i > 0 { assert parts[i] == rest[i - 1]; }
        } else if i == 0 {
          assert parts[0] == [s[0]] + rest[0];
        } else {
          assert parts[i] == rest[i];
        }
      }
    }
  }

  lemma JoinCons(x: string, rest: seq<string>, sep: string)
    requires rest != []
    ensures Join([x] + rest, sep) == x + sep + Join(rest, sep)
  {
    assert ([x] + rest)[1..] == rest;
  }

  /** The join of the parts from index `k` on: part `k`, then the separator and
      the join of the rest, or part `k` alone when it is the last part. */
  lemma JoinFrom(parts: seq<string>, k: nat, sep: string)
    requires k < |parts|
    ensures k + 1 == |parts| ==> Join(parts[k..], sep) == parts[k]
    ensures k + 1 < |parts| ==> Join(parts[k..], sep) == parts[k] + sep + Join(parts[k + 1..], sep)
  {
    if k + 1 < |parts| {
      assert parts[k..] == [parts[k]] + parts[k + 1..];
      JoinCons(parts[k], parts[k + 1..], sep);
    } else {
      assert parts[k..] == [parts[k]];
    }
  }

  /** Joining two nonempty lists of parts: the two joins around one separator. */
  lemma {:induction false} JoinAppend(p: seq<string>, q: seq<string>, sep: string)
    requires p != [] && q != []
    ensures Join(p + q, sep) == Join(p, sep) + sep + Join(q, sep)
    decreases |p|
  {
    if |p| == 1 {
      assert p + q == [p[0]] + q;
      JoinCons(p[0], q, sep);
    } else {
      var t := p[1..];
      assert p + q == [p[0]] + (t + q);
      assert p == [p[0]] + t;
      calc {
        Join(p + q, sep);
      == { JoinCons(p[0], t + q, sep); }
        p[0] + sep + Join(t + q, sep);
      == { JoinAppend(t, q, sep); }
        p[0] + sep + (Join(t, sep) + sep + Join(q, sep));
      ==
        (p[0] + sep + Join(t, sep)) + sep + Join(q, sep);
      == { JoinCons(p[0], t, sep); }
        Join(p, sep) + sep + Join(q, sep);
      }
    }
  }

  /** The first part begins the joined string. */
  lemma JoinHead(parts: seq<string>, sep: string)
    requires parts != []
    ensures parts[0] <= Join(parts, sep)
  {
    if |parts| > 1 {
      assert parts == [parts[0]] + parts[1..];
      JoinCons(parts[0], parts[1..], sep);
    }
  }

  /** Joining the pieces with the delimiter gives back the string. */
  lemma {:induction false} JoinSplit(s: string, d: char)
    ensures Join(Split(s, d), [d]) == s
    decreases |s|
  {
    if s != [] {
      var tail := s[1..];
      var rest, parts := Split(tail, d), Split(s, d);
      JoinSplit(tail, d);
      assert s == [s[0]] + tail;
      if s[0] == d {
        assert parts == [[]] + rest;
        JoinCons([], rest, [d]);
        assert Join(parts, [d]) == [] + [d] + tail;
      } else if |rest| == 1 {
        assert parts == [[s[0]] + rest[0]];
        assert Join(parts, [d]) == [s[0]] + tail;
      } else {
        var j := Join(rest[1..], [d]);
        assert rest == [rest[0]] + rest[1..];
        JoinCons(rest[0], rest[1..], [d]);
        assert tail == rest[0] + [d] + j;
        assert parts == [[s[0]] + rest[0]] + rest[1..];
        JoinCons([s[0]] + rest[0], rest[1..], [d]);
        assert Join(parts, [d]) == [s[0]] + rest[0] + [d] + j;
        assert [s[0]] + rest[0] + [d] + j == [s[0]] + tail;
      }
    }
  }

  /** Dropping the head of a concatenation whose left part is nonempty. */
  lemma DropAppend<T>(x: seq<T>, y: seq<T>)
    requires x != []
    ensures (x + y)[0] == x[0] && (x + y)[1..] == x[1..] + y
  {
  }

  /** A delimiter at index `i` splits the input into the pieces before it and after it. */
  lemma {:induction false} SplitAt(s: string, d: char, i: nat)
    requires i < |s| && s[i] == d
    ensures Split(s, d) == Split(s[..i], d) + Split(s[i + 1..], d)
    decreases i
  {
    if i > 0 {
      var t, u := s[1..], s[..i];
      SplitAt(t, d, i - 1);
      assert t[..i - 1] == u[1..] && t[i..] == s[i + 1..] && u[0] == s[0];
      var left, right := Split(u[1..], d), Split(s[i + 1..], d);
      assert Split(t, d) == left + right;
      if s[0] == d {
        assert Split(u, d) == [[]] + left;
        assert Split(s, d) == [[]] + (left + right);
      } else {
        DropAppend(left, right);
        assert Split(u, d) == [[s[0]] + left[0]] + left[1..];
        assert Split(s, d) == [[s[0]] + left[0]] + (left[1..] + right);
      }
    }
  }

  /** A delimiter in the middle of the input splits it into the pieces of either side. */
  lemma SplitAppend(a: string, d: char, b: string)
    ensures Split(a + [d] + b, d) == Split(a, d) + Split(b, d)
  {
    var s := a + [d] + b;
    SplitAt(s, d, |a|);
    assert s[..|a|] == a && s[|a| + 1..] == b;
  }

  /** A string without the delimiter is a single piece. */
  lemma {:induction false} SplitWhole(a: string, d: char)
    requires d !in a
    ensures Split(a, d) == [a]
    decreases |a|
  {
    if a != [] {
      assert d !in a[1..];
      SplitWhole(a[1..], d);
      assert a == [a[0]] + a[1..];
    }
  }

  /** Splitting right after a first piece that holds no delimiter. */
  lemma SplitCons(a: string, d: char, b: string)
    requires d !in a
    ensures Split(a + [d] + b, d) == [a] + Split(b, d)
  {
    SplitAppend(a, d, b);
    SplitWhole(a, d);
  }

  /** Splitting undoes joining, when no part holds the delimiter. */
  lemma {:induction false} SplitJoin(parts: seq<string>, d: char)
    requires |parts| > 0
    requires forall i :: 0 <= i < |parts| ==> d !in parts[i]
    ensures Split(Join(parts, [d]), d) == parts
    decreases |parts|
  {
    if |parts| == 1 {
      SplitWhole(parts[0], d);
    } else {
      var rest := parts[1..];
      forall i | 0 <= i < |rest| ensures d !in rest[i] {
        assert rest[i] == parts[i + 1];
      }
      SplitJoin(rest, d);
      assert Join(parts, [d]) == parts[0] + [d] + Join(rest, [d]);
      SplitCons(parts[0], d, Join(rest, [d]));
      assert parts == [parts[0]] + rest;
    }
  }

  // ---------------------------------------------------------------------
  // Integer.toString and Integer.parseInt (radix 10).

  predicate IsDigit(c: char) { '0' <= c <= '9' }

  predicate AllDigits(s: string) { forall i :: 0 <= i < |s| ==> IsDigit(s[i]) }

  function DigitChar(d: nat): (c: char)
    requires d < 10
    ensures IsDigit(c) && c as int - '0' as int == d
  {
    ('0' as int + d) as char
  }

  /** The number an all-digit string denotes, most significant digit first. */
  function DigitsValue(s: string): nat
    requires AllDigits(s)
  {
    if s == [] then 0
    else DigitsValue(s[..|s| - 1]) * 10 + (s[|s| - 1] as int - '0' as int)
  }

  /** `n / 10`, by repeated subtraction so that it stays linear arithmetic. */
  function Div10(n: nat): nat
    decreases n
  {
    if n < 10 then 0 else Div10(n - 10) + 1
  }

  /** `n % 10`, by repeated subtraction. */
  function Mod10(n: nat): nat
    decreases n
  {
    if n < 10 then n else Mod10(n - 10)
  }

  lemma {:induction false} DivMod10(n: nat)
    ensures Div10(n) == n / 10 && Mod10(n) == n % 10
    ensures n == 10 * Div10(n) + Mod10(n) && Mod10(n) < 10
    decreases n
  {
    if n >= 10 {
      DivMod10(n - 10);
    }
  }

  /** Decimal digits of `n`, most significant first: the digits of `n / 10`,
      then the digit `n % 10`. */
  function NatToString(n: nat): string
    decreases n
  {
    if n < 10 then [DigitChar(n)]
    else
      DivMod10(n);
      NatToString(Div10(n)) + [DigitChar(Mod10(n))]
  }

  /** The decimal form of `n` is a nonempty string of digits with no leading zero. */
  lemma {:induction false} NatToStringDigits(n: nat)
    ensures var s := NatToString(n); s != [] && AllDigits(s) && (s[0] == '0' ==> n == 0)
    decreases n
  {
    if n >= 10 {
      DivMod10(n);
      NatToStringDigits(Div10(n));
      var s := NatToString(n);
      var p := NatToString(Div10(n));
      assert s == p + [DigitChar(Mod10(n))];
      assert s[0] == p[0];
      forall i | 0 <= i < |s| ensures IsDigit(s[i]) {
        if i < |p| { assert s[i] == p[i]; }
      }
    }
  }

  /** `Integer.toString`: an optional minus sign, then the digits of the magnitude. */
  function IntToString(x: int): string
  {
    var m := NatToString(if x < 0 then -x else x);
    if x < 0 then "-" + m else m
  }

  /** `Integer.toString` writes a minus sign exactly for negative values, then only
      digits; so it holds no comma and neither starts nor ends with a blank. */
  lemma IntToStringShape(x: int)
    ensures var s := IntToString(x);
            s != [] && !IsTrimmable(s[0]) && !IsTrimmable(s[|s| - 1])
            && IsDigit(s[|s| - 1]) && AllDigits(s[1..])
            && ',' !in s && (s[0] == '-' <==> x < 0)
  {
    var m := NatToString(if x < 0 then -x else x);
    NatToStringDigits(if x < 0 then -x else x);
    var s := IntToString(x);
    assert AllDigits(s[1..]) by {
      if x >= 0 { assert s[1..] == m[1..]; } else { assert s[1..] == m; }
    }
    assert forall i :: 0 <= i < |s| ==> IsDigit(s[i]) || s[i] == '-' by {
      forall i | 0 <= i < |s| ensures IsDigit(s[i]) || s[i] == '-' {
        if i > 0 { assert s[i] == s[1..][i - 1]; }
      }
    }
  }

  lemma {:induction false} NatToStringValue(n: nat)
    ensures AllDigits(NatToString(n)) && DigitsValue(NatToString(n)) == n
    decreases n
  {
    NatToStringDigits(n);
    if n >= 10 {
      DivMod10(n);
      NatToStringValue(Div10(n));
      var s := NatToString(n);
      assert s[..|s| - 1] == NatToString(Div10(n));
    }
  }

  /** `Integer.toString` writes a non-negative value as digits only, and a
      negative one as `-` followed by the digits of its magnitude; in both cases
      the digits denote the magnitude, with no leading zero unless the value is 0. */
  lemma IntToStringDigits(x: int)
    ensures var s := IntToString(x);
            x >= 0 ==> s != [] && AllDigits(s) && DigitsValue(s) == x && (s[0] == '0' ==> x == 0)
    ensures var s := IntToString(x);
            x < 0 ==> |s| > 1 && s[0] == '-' && AllDigits(s[1..]) && DigitsValue(s[1..]) == -x && s[1] != '0'
  {
    NatToStringValue(if x < 0 then -x else x);
    NatToStringDigits(if x < 0 then -x else x);
    if x < 0 {
      var m := NatToString(-x);
      assert ("-" + m)[1..] == m;
    }
  }

  /** `Integer.parseInt(s)`: an optional `+` or `-`, then at least one ASCII digit,
      denoting a value within `int` range; anything else throws
      `NumberFormatException`, modelled as `None`. */
  function ParseInt(s: string): (r: Option<Int32>)
    ensures r.Some? ==> s != [] && AllDigits(s[1..]) && (IsDigit(s[0]) || (|s| > 1 && (s[0] == '-' || s[0] == '+')))
    ensures r.Some? && AllDigits(s) ==> r.value == DigitsValue(s)
  {
    var signed := s != [] && (s[0] == '-' || s[0] == '+');
    var digits := if signed then s[1..] else s;
    if digits == [] || !AllDigits(digits) then None
    else
      var m: int := DigitsValue(digits);
      var v := if signed && s[0] == '-' then -m else m;
      if INT_MIN <= v <= INT_MAX then Some(v) else None
  }

  /** `Integer.parseInt` of unsigned or `+`-signed digits: accepted exactly when
      the value is at most `Integer.MAX_VALUE`, and then it is that value. */
  lemma ParseIntUnsigned(d: string)
    requires d != [] && AllDigits(d)
    ensures ParseInt(d).Some? <==> DigitsValue(d) <= INT_MAX
    ensures ParseInt("+" + d).Some? <==> DigitsValue(d) <= INT_MAX
    ensures ParseInt(d).Some? ==> ParseInt(d).value == DigitsValue(d)
    ensures ParseInt("+" + d).Some? ==> ParseInt("+" + d).value == DigitsValue(d)
  {
    assert ("+" + d)[0] == '+' && ("+" + d)[1..] == d;
  }

  /** `Integer.parseInt` of `-`-signed digits: accepted exactly when the
      magnitude is at most 2^31, i.e. down to `Integer.MIN_VALUE`, and then it
      is the negated value. */
  lemma ParseIntNegative(d: string)
    requires d != [] && AllDigits(d)
    ensures ParseInt("-" + d).Some? <==> DigitsValue(d) <= 0x8000_0000
    ensures ParseInt("-" + d).Some? ==> ParseInt("-" + d).value == -(DigitsValue(d) as int)
  {
    assert ("-" + d)[0] == '-' && ("-" + d)[1..] == d;
  }

  /** `Integer.parseInt` reads back what `Integer.toString` writes. */
  lemma ParseIntToString(x: Int32)
    ensures ParseInt(IntToString(x)) == Some(x)
  {
    var m := NatToString(if x < 0 then -(x as int) else x as int);
    NatToStringDigits(if x < 0 then -(x as int) else x as int);
    NatToStringValue(if x < 0 then -(x as int) else x as int);
    if x < 0 {
      assert ("-" + m)[1..] == m;
    }
  }
}
