/** Python's `str.split` on one separator character, its inverse `join`,
    and the decimal conversions the flattener relies on: `int()` of a date
    part, `str()` of a day number and `float()` of a quantity or total. */
module Text {
  import opened Wrappers

  /** Number of occurrences of `c` in `s`. */
  function Count(s: string, c: char): nat
  {
    if s == [] then 0 else (if s[0] == c then 1 else 0) + Count(s[1..], c)
  }

  /** `s.split(sep)`: the pieces between the occurrences of `sep`, in order.
      There is always at least one piece and no piece contains `sep`. */
  function Split(s: string, sep: char): (parts: seq<string>)
    ensures |parts| >= 1
    ensures forall i :: 0 <= i < |parts| ==> sep !in parts[i]
  {
    if s == [] then [""]
    else
      var rest := Split(s[1..], sep);
      if s[0] == sep then [""] + rest
      else [[s[0]] + rest[0]] + rest[1..]
  }

  /** `sep.join(parts)`. */
  function Join(parts: seq<string>, sep: char): string
    requires |parts| >= 1
  {
    if |parts| == 1 then parts[0] else parts[0] + [sep] + Join(parts[1..], sep)
  }

  /** Splitting yields one more piece than there are separators. */
  lemma {:induction false} SplitLength(s: string, sep: char)
    ensures |Split(s, sep)| == Count(s, sep) + 1
  {
    if s != [] {
      SplitLength(s[1..], sep);
    }
  }

  /** Joining the pieces back with the separator gives the original text. */
  lemma {:induction false} JoinSplit(s: string, sep: char)
    ensures Join(Split(s, sep), sep) == s
  {
    if s != [] {
      JoinSplit(s[1..], sep);
      var rest := Split(s[1..], sep);
      if s[0] == sep {
        assert Split(s, sep)[1..] == rest;
      } else {
        var parts := Split(s, sep);
        assert parts[1..] == rest[1..];
        if |rest| > 1 {
          assert rest[1..][1..] == rest[2..];
        }
      }
    }
  }

  /** Text without the separator, followed by more text, splits into that
      text glued onto the first piece of the rest. */
  lemma {:induction false} SplitPrefix(a: string, t: string, sep: char)
    requires sep !in a
    ensures Split(a + t, sep) == [a + Split(t, sep)[0]] + Split(t, sep)[1..]
  {
    var st := Split(t, sep);
    if a == [] {
      assert a + t == t && a + st[0] == st[0];
    } else {
      assert (a + t)[0] == a[0] && (a + t)[1..] == a[1..] + t;
      SplitPrefix(a[1..], t, sep);
      assert [a[0]] + (a[1..] + st[0]) == a + st[0];
    }
  }

  /** Splitting the join of separator-free pieces gives back the pieces. */
  lemma {:induction false} SplitJoin(parts: seq<string>, sep: char)
    requires |parts| >= 1
    requires forall i :: 0 <= i < |parts| ==> sep !in parts[i]
    ensures Split(Join(parts, sep), sep) == parts
  {
    if |parts| == 1 {
      SplitPrefix(parts[0], "", sep);
      assert parts[0] + "" == parts[0];
    } else {
      var tail := Join(parts[1..], sep);
      SplitJoin(parts[1..], sep);
      assert parts[0] + [sep] + tail == parts[0] + ([sep] + tail);
      SplitPrefix(parts[0], [sep] + tail, sep);
      assert ([sep] + tail)[1..] == tail;
      assert Split([sep] + tail, sep) == [""] + parts[1..];
      assert parts[0] + "" == parts[0];
    }
  }

  predicate IsDigit(c: char)
  {
    '0' <= c <= '9'
  }

  /** A non-empty run of ASCII decimal digits. */
  predicate IsDigits(s: string)
  {
    |s| > 0 && forall i :: 0 <= i < |s| ==> IsDigit(s[i])
  }

  /** The value of a (possibly empty) run of decimal digits, most significant first. */
  function DigitsValue(s: string): nat
    requires forall i :: 0 <= i < |s| ==> IsDigit(s[i])
  {
    if s == [] then 0
    else 10 * DigitsValue(s[..|s| - 1]) + DigitValue(s[|s| - 1])
  }

  function DigitValue(c: char): (d: nat)
    requires IsDigit(c)
    ensures d < 10
  {
    c as int - '0' as int
  }

  /** `int(s)` on a date part: the decimal value of a non-empty digit run,
      `None` where Python raises `ValueError`. */
  function ParseInt(s: string): (r: Option<nat>)
    ensures r.Some? <==> IsDigits(s)
  {
    if IsDigits(s) then Some(DigitsValue(s)) else None
  }

  function DigitChar(d: nat): (c: char)
    requires d < 10
    ensures IsDigit(c) && DigitValue(c) == d
  {
    ('0' as int + d) as char
  }

  /** `str(n)`: the decimal digits of `n`, without leading zeros. */
  function NatToString(n: nat): (s: string)
    ensures IsDigits(s)
    ensures s[0] == '0' ==> n == 0 && s == "0"
  {
    if n < 10 then [DigitChar(n)] else NatToString(n / 10) + [DigitChar(n % 10)]
  }

  /** Reading back the decimal text of a number gives the number. */
  lemma {:induction false} ParseNatToString(n: nat)
    ensures ParseInt(NatToString(n)) == Some(n)
  {
    var s := NatToString(n);
    if n < 10 {
      assert s == [DigitChar(n)] && s[..|s| - 1] == [];
      assert DigitsValue(s) == 10 * DigitsValue([]) + DigitValue(DigitChar(n));
    } else {
      ParseNatToString(n / 10);
      assert s[..|s| - 1] == NatToString(n / 10);
    }
  }

  function Pow10(k: nat): (r: nat)
    ensures r >= 1
  {
    if k == 0 then 1 else 10 * Pow10(k - 1)
  }

  /** The value of digits `a`, a point, and digits `b`: `a.b`. Either side may be empty. */
  function PointValue(a: string, b: string): real
    requires forall i :: 0 <= i < |a| ==> IsDigit(a[i])
    requires forall i :: 0 <= i < |b| ==> IsDigit(b[i])
  {
    DigitsValue(a) as real + DigitsValue(b) as real / Pow10(|b|) as real
  }

  /** A run of digits with at most one decimal point and at least one digit. */
  function ParseUnsigned(s: string): (r: Option<real>)
    ensures r.Some? ==> r.value >= 0.0
  {
    var parts := Split(s, '.');
    if |parts| == 1 && IsDigits(s) then Some(DigitsValue(s) as real)
    else if |parts| == 2
         && (forall i :: 0 <= i < |parts[0]| ==> IsDigit(parts[0][i]))
         && (forall i :: 0 <= i < |parts[1]| ==> IsDigit(parts[1][i]))
         && |parts[0]| + |parts[1]| > 0
    then Some(PointValue(parts[0], parts[1]))
    else None
  }

  /** `float(s)` on a quantity or total: an optional sign followed by digits
      with at most one decimal point, valued exactly; `None` where the model
      treats the text as not a number (Python raises `ValueError`). */
  function ParseDecimal(s: string): Option<real>
  {
    var signed := |s| > 0 && (s[0] == '-' || s[0] == '+');
    var magnitude := ParseUnsigned(if signed then s[1..] else s);
    if magnitude.Some? && signed && s[0] == '-' then Some(-magnitude.value) else magnitude
  }

  /** Text that does not start with a sign is read as an unsigned number. */
  lemma Unsigned(s: string)
    requires s == [] || (s[0] != '-' && s[0] != '+')
    ensures ParseDecimal(s) == ParseUnsigned(s)
  {
  }

  /** A sign followed by text `u` reads as `u`, negated for `-`. */
  lemma Signed(sign: char, u: string)
    requires sign == '-' || sign == '+'
    ensures ParseDecimal([sign] + u)
            == if ParseUnsigned(u).Some? && sign == '-' then Some(-ParseUnsigned(u).value) else ParseUnsigned(u)
  {
    assert ([sign] + u)[1..] == u;
  }

  /** A digit run without a point reads as its decimal value. */
  lemma UnsignedDigits(a: string)
    requires IsDigits(a)
    ensures ParseUnsigned(a) == Some(DigitsValue(a) as real)
  {
    NoDotInDigits(a);
    SplitLength(a, '.');
  }

  /** Digits, a point and digits, not both runs empty, read as `a.b`. */
  lemma UnsignedPoint(a: string, b: string)
    requires forall i :: 0 <= i < |a| ==> IsDigit(a[i])
    requires forall i :: 0 <= i < |b| ==> IsDigit(b[i])
    requires |a| + |b| > 0
    ensures ParseUnsigned(a + "." + b) == Some(PointValue(a, b))
  {
    NoDotInDigits(a);
    NoDotInDigits(b);
    assert '.' !in a by { CountZero(a, '.'); }
    assert '.' !in b by { CountZero(b, '.'); }
    assert Join([a, b], '.') == a + "." + b;
    SplitJoin([a, b], '.');
  }

  /** A digit run, leading zeros allowed, reads as its decimal value. */
  lemma ParseDecimalDigits(a: string)
    requires IsDigits(a)
    ensures ParseDecimal(a) == Some(DigitsValue(a) as real)
  {
    Unsigned(a);
    UnsignedDigits(a);
  }

  /** The text of a whole number reads back as that number. */
  lemma ParseDecimalOfNat(n: nat)
    ensures ParseDecimal(NatToString(n)) == Some(n as real)
  {
    ParseNatToString(n);
    ParseDecimalDigits(NatToString(n));
  }

  lemma {:induction false} NoDotInDigits(s: string)
    requires forall i :: 0 <= i < |s| ==> IsDigit(s[i])
    ensures Count(s, '.') == 0
  {
    if s != [] {
      NoDotInDigits(s[1..]);
    }
  }

  /** `a.b` with digit runs `a`, `b` (not both empty) reads as `a` plus `b` tenths-powers. */
  lemma ParseDecimalPoint(a: string, b: string)
    requires forall i :: 0 <= i < |a| ==> IsDigit(a[i])
    requires forall i :: 0 <= i < |b| ==> IsDigit(b[i])
    requires |a| + |b| > 0
    ensures ParseDecimal(a + "." + b) == Some(PointValue(a, b))
  {
    if |a| > 0 {
      assert (a + "." + b)[0] == a[0];
    } else {
      assert (a + "." + b)[0] == '.';
    }
    Unsigned(a + "." + b);
    UnsignedPoint(a, b);
  }

  /** A signed digit run reads as its value, negated for `-`. */
  lemma ParseDecimalSignedDigits(a: string)
    requires IsDigits(a)
    ensures ParseDecimal("-" + a) == Some(-(DigitsValue(a) as real))
    ensures ParseDecimal("+" + a) == Some(DigitsValue(a) as real)
  {
    UnsignedDigits(a);
    Signed('-', a);
    Signed('+', a);
  }

  /** A signed `a.b` reads as `a.b`, negated for `-`. */
  lemma ParseDecimalSignedPoint(a: string, b: string)
    requires forall i :: 0 <= i < |a| ==> IsDigit(a[i])
    requires forall i :: 0 <= i < |b| ==> IsDigit(b[i])
    requires |a| + |b| > 0
    ensures ParseDecimal("-" + (a + "." + b)) == Some(-PointValue(a, b))
    ensures ParseDecimal("+" + (a + "." + b)) == Some(PointValue(a, b))
  {
    UnsignedPoint(a, b);
    Signed('-', a + "." + b);
    Signed('+', a + "." + b);
  }

  /** Text an unsigned read accepts: digits and at most one point, at least one digit. */
  predicate UnsignedShape(u: string)
  {
    && Count(u, '.') <= 1
    && (exists i :: 0 <= i < |u| && IsDigit(u[i]))
    && (forall i :: 0 <= i < |u| ==> IsDigit(u[i]) || u[i] == '.')
  }

  /** Every accepted text has the shape: a sign at most at the front, digits
      and at most one point, at least one digit. Any other text is rejected. */
  lemma ParseDecimalRejects(s: string)
    requires ParseDecimal(s).Some?
    ensures Count(s, '.') <= 1
    ensures exists i :: 0 <= i < |s| && IsDigit(s[i])
    ensures forall i :: 0 <= i < |s| ==> IsDigit(s[i]) || s[i] == '.' || (i == 0 && (s[i] == '-' || s[i] == '+'))
  {
    var signed := |s| > 0 && (s[0] == '-' || s[0] == '+');
    if signed {
      var u := s[1..];
      UnsignedAccepts(u);
      assert s == [s[0]] + u;
      var k :| 0 <= k < |u| && IsDigit(u[k]);
      assert IsDigit(s[k + 1]);
      forall i | 0 < i < |s| ensures IsDigit(s[i]) || s[i] == '.' {
        assert s[i] == u[i - 1];
      }
    } else {
      UnsignedAccepts(s);
    }
  }

  lemma UnsignedAccepts(u: string)
    requires ParseUnsigned(u).Some?
    ensures UnsignedShape(u)
  {
    var parts := Split(u, '.');
    SplitLength(u, '.');
    if |parts| == 1 && IsDigits(u) {
      assert IsDigit(u[0]);
    } else {
      var a, b := parts[0], parts[1];
      JoinSplit(u, '.');
      assert parts[1..] == [b];
      assert u == a + "." + b;
      if |a| > 0 {
        assert IsDigit(u[0]);
      } else {
        assert IsDigit(u[1]);
      }
      forall i | 0 <= i < |u| ensures IsDigit(u[i]) || u[i] == '.' {
        if i < |a| {
          assert u[i] == a[i];
        } else if i > |a| {
          assert u[i] == b[i - |a| - 1];
        }
      }
    }
  }

  lemma {:induction false} CountZero(s: string, c: char)
    requires Count(s, c) == 0
    ensures c !in s
  {
    if s != [] {
      CountZero(s[1..], c);
    }
  }

  lemma {:induction false} CountAbsent(s: string, c: char)
    requires c !in s
    ensures Count(s, c) == 0
  {
    if s != [] {
      CountAbsent(s[1..], c);
    }
  }
}
