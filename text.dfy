/** Strings as the scripts use them: feature-class names such as "RES_1234"
    are built with Python's str() of an integer and taken apart again with
    split("_") and int(). */
module Text {

  datatype Option<T> = None | Some(value: T)

  predicate IsDigit(c: char) { '0' <= c <= '9' }

  predicate AllDigits(s: string) { forall i :: 0 <= i < |s| ==> IsDigit(s[i]) }

  function DigitChar(d: nat): (c: char)
    requires d < 10
    ensures IsDigit(c)
  {
    ('0' as int + d) as char
  }

  function DigitValue(c: char): (d: nat)
    requires IsDigit(c)
    ensures d < 10 && DigitChar(d) == c
  {
    c as int - '0' as int
  }

  /** str(n) for a non-negative integer: its decimal digits without leading zeros. */
  function Decimal(n: nat): (s: string)
    ensures |s| >= 1 && AllDigits(s)
    ensures s[0] == '0' ==> n == 0
    decreases n
  {
    if n < 10 then [DigitChar(n)] else Decimal(n / 10) + [DigitChar(n % 10)]
  }

  /** The number a non-empty string of decimal digits denotes. */
  function DigitsValue(s: string): nat
    requires AllDigits(s)
  {
    if |s| == 0 then 0 else DigitsValue(s[..|s| - 1]) * 10 + DigitValue(s[|s| - 1])
  }

  /** int(s) restricted to plain decimal digits; None where int() raises ValueError. */
  function ParseNat(s: string): (r: Option<nat>)
    ensures r.Some? <==> |s| >= 1 && AllDigits(s)
  {
    if |s| >= 1 && AllDigits(s) then Some(DigitsValue(s)) else None
  }

  lemma {:induction false} DigitsOfDecimal(n: nat)
    ensures DigitsValue(Decimal(n)) == n
    decreases n
  {
    if n >= 10 {
      var s := Decimal(n / 10) + [DigitChar(n % 10)];
      assert s[..|s| - 1] == Decimal(n / 10);
      DigitsOfDecimal(n / 10);
    }
  }

  /** int(str(n)) == n. */
  lemma ParseDecimal(n: nat)
    ensures ParseNat(Decimal(n)) == Some(n)
  {
    DigitsOfDecimal(n);
  }

  /** s.split("_"): the maximal '_'-free pieces between separators, at least one. */
  function Split(s: string): (parts: seq<string>)
    ensures |parts| >= 1
    ensures forall k :: 0 <= k < |parts| ==> '_' !in parts[k]
  {
    if |s| == 0 then [""]
    else
      var rest := Split(s[1..]);
      if s[0] == '_' then [""] + rest else [[s[0]] + rest[0]] + rest[1..]
  }

  /** "_".join(parts). */
  function Join(parts: seq<string>): string
    requires |parts| >= 1
  {
    if |parts| == 1 then parts[0] else parts[0] + "_" + Join(parts[1..])
  }

  /** "_".join(s.split("_")) == s. */
  lemma {:induction false} JoinSplit(s: string)
    ensures Join(Split(s)) == s
  {
    if |s| > 0 {
      var rest := Split(s[1..]);
      JoinSplit(s[1..]);
      if s[0] == '_' {
        assert ([""] + rest)[1..] == rest;
      } else {
        var parts := [[s[0]] + rest[0]] + rest[1..];
        if |rest| == 1 {
          assert Join(parts) == [s[0]] + rest[0];
        } else {
          assert parts[1..] == rest[1..];
          assert Join(rest) == rest[0] + "_" + Join(rest[1..]);
        }
        assert s == [s[0]] + s[1..];
      }
    }
  }

  /** A piece without '_' splits into itself. */
  lemma {:induction false} SplitPlain(s: string)
    requires '_' !in s
    ensures Split(s) == [s]
  {
    if |s| > 0 {
      assert '_' !in s[1..] by {
        forall k | 0 <= k < |s| - 1 ensures s[1..][k] != '_' { assert s[1..][k] == s[k + 1]; }
      }
      SplitPlain(s[1..]);
      assert s == [s[0]] + s[1..];
    }
  }

  /** Split, one character at a time from the front. */
  lemma SplitCons(c: char, t: string)
    ensures Split([c] + t) == if c == '_' then [""] + Split(t) else [[c] + Split(t)[0]] + Split(t)[1..]
  {
    var s := [c] + t;
    assert s[0] == c && s[1..] == t;
  }

  /** Splitting a + "_" + b splits a and b separately. */
  lemma {:induction false} SplitJoined(a: string, b: string)
    ensures Split(a + "_" + b) == Split(a) + Split(b)
  {
    if |a| == 0 {
      assert a + "_" + b == ['_'] + b;
      SplitCons('_', b);
    } else {
      var c, t := a[0], a[1..];
      assert a == [c] + t;
      assert a + "_" + b == [c] + (t + "_" + b);
      var rt, rb := Split(t), Split(b);
      if c == '_' {
        calc {
          Split(a + "_" + b);
          Split([c] + (t + "_" + b));
          { SplitCons(c, t + "_" + b); }
          [""] + Split(t + "_" + b);
          { SplitJoined(t, b); }
          [""] + (rt + rb);
          ([""] + rt) + rb;
          { SplitCons(c, t); }
          Split(a) + Split(b);
        }
      } else {
        calc {
          Split(a + "_" + b);
          Split([c] + (t + "_" + b));
          { SplitCons(c, t + "_" + b); }
          [[c] + Split(t + "_" + b)[0]] + Split(t + "_" + b)[1..];
          { SplitJoined(t, b); }
          [[c] + (rt + rb)[0]] + (rt + rb)[1..];
          { assert (rt + rb)[0] == rt[0] && (rt + rb)[1..] == rt[1..] + rb; }
          [[c] + rt[0]] + (rt[1..] + rb);
          ([[c] + rt[0]] + rt[1..]) + rb;
          { SplitCons(c, t); }
          Split(a) + Split(b);
        }
      }
    }
  }

  /** s.split("_")[-1]. */
  function LastField(s: string): string
  {
    var parts := Split(s);
    parts[|parts| - 1]
  }

  /** r is a '_'-free suffix of s that is all of s or follows a '_'. */
  predicate SeparatedSuffix(s: string, r: string)
  {
    && '_' !in r && |r| <= |s| && s[|s| - |r|..] == r
    && (|r| < |s| ==> s[|s| - |r| - 1] == '_')
  }

  /** Putting a character in front keeps a separated suffix, unless the
      suffix was all of t and c is not a separator. */
  lemma SeparatedSuffixCons(c: char, t: string, r: string)
    requires SeparatedSuffix(t, r) && (c == '_' || |r| < |t|)
    ensures SeparatedSuffix([c] + t, r)
  {
    var s := [c] + t;
    assert s[|s| - |r|..] == t[|t| - |r|..];
    if |r| < |t| {
      assert s[|s| - |r| - 1] == t[|t| - |r| - 1];
    } else {
      assert s[|s| - |r| - 1] == c;
    }
  }

  /** A leading separator does not change the last field. */
  lemma LastFieldSeparator(t: string)
    ensures LastField(['_'] + t) == LastField(t)
  {
    SplitCons('_', t);
    var rest, parts := Split(t), Split(['_'] + t);
    assert parts[|parts| - 1] == rest[|rest| - 1];
  }

  /** A string without separators after a plain first character is its own last field. */
  lemma LastFieldWhole(c: char, t: string)
    requires c != '_' && |Split(t)| == 1
    ensures LastField([c] + t) == [c] + t && '_' !in [c] + t
  {
    SplitCons(c, t);
    JoinSplit(t);
    var rest := Split(t);
    assert rest[0] == t;
    var s := [c] + t;
    assert '_' !in s by {
      forall k | 0 <= k < |s| ensures s[k] != '_' { if k > 0 { assert s[k] == t[k - 1]; } }
    }
  }

  /** With a separator in t, the last field of [c] + t is that of t, and shorter than t. */
  lemma LastFieldLater(c: char, t: string)
    requires c != '_' && |Split(t)| > 1 && SeparatedSuffix(t, LastField(t))
    ensures LastField([c] + t) == LastField(t) && |LastField(t)| < |t|
  {
    SplitCons(c, t);
    var rest, parts := Split(t), Split([c] + t);
    assert parts[|parts| - 1] == rest[|rest| - 1];
    if |LastField(t)| == |t| {
      assert t[|t| - |t|..] == t;
      SplitPlain(t);
    }
  }

  /** split("_")[-1] is the longest '_'-free suffix of s: it is a suffix,
      holds no '_', and is either all of s or preceded by a '_'. */
  lemma {:induction false} LastFieldIsSuffix(s: string)
    ensures SeparatedSuffix(s, LastField(s))
    decreases |s|
  {
    if |s| == 0 {
      assert LastField(s) == "";
    } else {
      var c, t := s[0], s[1..];
      assert s == [c] + t;
      LastFieldIsSuffix(t);
      if c == '_' {
        LastFieldSeparator(t);
        SeparatedSuffixCons(c, t, LastField(t));
      } else if |Split(t)| > 1 {
        LastFieldLater(c, t);
        SeparatedSuffixCons(c, t, LastField(t));
      } else {
        LastFieldWhole(c, t);
        assert s[|s| - |s|..] == s;
      }
    }
  }

  /** The suffix of prefix + "_" + tail is tail, when tail holds no '_'. */
  lemma FieldAfterLastSeparator(prefix: string, tail: string)
    requires '_' !in tail
    ensures LastField(prefix + "_" + tail) == tail
  {
    SplitJoined(prefix, tail);
    SplitPlain(tail);
  }

  /** The feature-class name the screener gives a point's reservoir ("RES")
      or dam ("DAM"): prefix + "_" + str(id). */
  function FeatureName(prefix: string, id: nat): string
  {
    prefix + "_" + Decimal(id)
  }

  /** int(name.split("_")[-1]) recovers the id from its feature-class name. */
  lemma ParseFeatureName(prefix: string, id: nat)
    ensures ParseNat(LastField(FeatureName(prefix, id))) == Some(id)
  {
    var d := Decimal(id);
    assert '_' !in d by {
      forall k | 0 <= k < |d| ensures d[k] != '_' { assert IsDigit(d[k]); }
    }
    FieldAfterLastSeparator(prefix, d);
    ParseDecimal(id);
  }
}
