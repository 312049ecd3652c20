/** Little-endian positional values with arbitrary (also negative) digits. */
module Radix {
  import opened Arith

  function Val(s: seq<int>, b: int): int {
    if |s| == 0 then 0 else s[0] + b * Val(s[1..], b)
  }

  lemma {:induction false} ValAppend(s: seq<int>, t: seq<int>, b: int)
    ensures Val(s + t, b) == Val(s, b) + Pow(b, |s|) * Val(t, b)
  {
    if |s| == 0 {
      assert s + t == t;
    } else {
      assert (s + t)[1..] == s[1..] + t;
      ValAppend(s[1..], t, b);
      MulDistrib(b, Val(s[1..], b), Pow(b, |s| - 1) * Val(t, b));
      MulAssoc(b, Pow(b, |s| - 1), Val(t, b));
    }
  }

  lemma {:induction false} ValUpdate(s: seq<int>, i: nat, v: int, b: int)
    requires i < |s|
    ensures Val(s[i := v], b) == Val(s, b) + (v - s[i]) * Pow(b, i)
  {
    var t := s[i := v];
    if i == 0 {
      assert t[1..] == s[1..];
    } else {
      assert t[1..] == s[1..][i - 1 := v];
      ValUpdate(s[1..], i - 1, v, b);
      ScaledUpdate(b, Val(s[1..], b), v - s[i], Pow(b, i - 1));
    }
  }

  lemma ScaledUpdate(b: int, w: int, c: int, p: int)
    ensures b * (w + c * p) == b * w + c * (b * p)
  {
    MulDistrib(b, w, c * p);
    MulAssoc(b, c, p);
    MulAssoc(c, b, p);
  }

  lemma ValSnoc(s: seq<int>, d: int, b: int)
    ensures Val(s + [d], b) == Val(s, b) + d * Pow(b, |s|)
  {
    ValAppend(s, [d], b);
    assert Val([d], b) == d;
  }

  /** The value of the first `i + 1` digits in terms of the first `i`. */
  lemma ValPrefixStep(s: seq<int>, i: nat, b: int)
    requires i < |s|
    ensures Val(s[..i + 1], b) == Val(s[..i], b) + s[i] * Pow(b, i)
  {
    assert s[..i + 1] == s[..i] + [s[i]];
    ValSnoc(s[..i], s[i], b);
  }

  lemma ValSplit(s: seq<int>, i: nat, b: int)
    requires i <= |s|
    ensures Val(s, b) == Val(s[..i], b) + Pow(b, i) * Val(s[i..], b)
  {
    assert s == s[..i] + s[i..];
    ValAppend(s[..i], s[i..], b);
  }

  /** Values are linear in the digits. */
  lemma {:induction false} ValLinear(s: seq<int>, t: seq<int>, u: seq<int>, c: int, b: int)
    requires |s| == |t| == |u|
    requires forall k :: 0 <= k < |s| ==> u[k] == s[k] + c * t[k]
    ensures Val(u, b) == Val(s, b) + c * Val(t, b)
  {
    if |s| > 0 {
      ValLinear(s[1..], t[1..], u[1..], c, b);
      MulDistrib(b, Val(s[1..], b), c * Val(t[1..], b));
      MulDistrib(c, t[0], b * Val(t[1..], b));
      MulAssoc(b, c, Val(t[1..], b));
      MulAssoc(c, b, Val(t[1..], b));
    } else {
      assert c * 0 == 0;
    }
  }

  /** Two base-b digits make one digit of base b*b. */
  lemma {:induction false} ValPairs(s: seq<int>, t: seq<int>, b: int)
    requires |t| == 2 * |s|
    requires forall k :: 0 <= k < |s| ==> s[k] == t[2 * k] + b * t[2 * k + 1]
    ensures Val(t, b) == Val(s, b * b)
  {
    if |s| > 0 {
      var s', t' := s[1..], t[2..];
      assert forall k :: 0 <= k < |s'| ==> s'[k] == s[k + 1] && t'[2 * k] == t[2 * (k + 1)] && t'[2 * k + 1] == t[2 * (k + 1) + 1];
      ValPairs(s', t', b);
      assert s[0] == t[2 * 0] + b * t[2 * 0 + 1];
      assert t[1..][1..] == t';
      MulDistrib(b, t[1], b * Val(t', b));
      MulAssoc(b, b, Val(t', b));
    }
  }

  lemma {:induction false} ValZeros(s: seq<int>, b: int)
    requires forall k :: 0 <= k < |s| ==> s[k] == 0
    ensures Val(s, b) == 0
  {
    if |s| > 0 {
      ValZeros(s[1..], b);
    }
  }

  ghost predicate Digits(s: seq<int>, b: int) {
    forall k :: 0 <= k < |s| ==> 0 <= s[k] < b
  }

  lemma HornerBound(d: int, v: int, p: int, b: int)
    requires 0 <= d < b && 0 <= v < p
    ensures 0 <= d + b * v < b * p
  {
    MulLe(0, v, b);
    MulLe(v, p - 1, b);
    MulDistrib(b, p, 1);
  }

  lemma HornerAbsBound(d: int, v: int, p: int, b: int, lo: int, hi: int)
    requires b > 1 && lo <= d <= hi
    requires lo * (p - 1) <= (b - 1) * v <= hi * (p - 1)
    ensures lo * (b * p - 1) <= (b - 1) * (d + b * v) <= hi * (b * p - 1)
  {
    HornerAtLeast(d, v, p, b, lo);
    HornerAtMost(d, v, p, b, hi);
  }

  lemma HornerAtLeast(d: int, v: int, p: int, b: int, lo: int)
    requires b > 1 && lo <= d && lo * (p - 1) <= (b - 1) * v
    ensures lo * (b * p - 1) <= (b - 1) * (d + b * v)
  {
    MulDistrib(b - 1, d, b * v);
    MulAssoc(b - 1, b, v);
    MulAssoc(b, b - 1, v);
    MulLe(lo, d, b - 1);
    MulLe(lo * (p - 1), (b - 1) * v, b);
    HornerScale(lo, p, b);
  }

  lemma HornerAtMost(d: int, v: int, p: int, b: int, hi: int)
    requires b > 1 && d <= hi && (b - 1) * v <= hi * (p - 1)
    ensures (b - 1) * (d + b * v) <= hi * (b * p - 1)
  {
    MulDistrib(b - 1, d, b * v);
    MulAssoc(b - 1, b, v);
    MulAssoc(b, b - 1, v);
    MulLe(d, hi, b - 1);
    MulLe((b - 1) * v, hi * (p - 1), b);
    HornerScale(hi, p, b);
  }

  lemma HornerScale(c: int, p: int, b: int)
    ensures (c * (p - 1)) * b + c * (b - 1) == c * (b * p - 1)
  {
    MulAssoc(c, p - 1, b);
    MulDistrib(c, (p - 1) * b, b - 1);
    assert (p - 1) * b + (b - 1) == b * p - 1;
  }

  /** Digit extraction commutes with truncation. */
  lemma LowDigit(v: int, p: int)
    requires p > 0
    ensures v % (256 * p) % 256 == v % 256 && v % (256 * p) / 256 == v / 256 % p
  {
    var q, r := v / 256 / p, v / 256 % p;
    HornerBound(v % 256, r, p, 256);
    assert v == 256 * (v / 256) + v % 256;
    MulDistrib(256, q * p, r);
    MulAssoc(q, 256, p);
    DivModUnique(v, 256 * p, q, v % 256 + 256 * r);
  }

  lemma {:induction false} ValBound(s: seq<int>, b: int)
    requires b > 0 && Digits(s, b)
    ensures 0 <= Val(s, b) < Pow(b, |s|)
  {
    if |s| > 0 {
      ValBound(s[1..], b);
      HornerBound(s[0], Val(s[1..], b), Pow(b, |s| - 1), b);
    }
  }

  /** Digits in [0, b) are unique. */
  lemma {:induction false} ValInjective(s: seq<int>, t: seq<int>, b: int)
    requires b > 0 && |s| == |t| && Digits(s, b) && Digits(t, b)
    requires Val(s, b) == Val(t, b)
    ensures s == t
  {
    if |s| > 0 {
      DivModUnique(Val(s, b), b, Val(s[1..], b), s[0]);
      DivModUnique(Val(t, b), b, Val(t[1..], b), t[0]);
      ValInjective(s[1..], t[1..], b);
      assert s == [s[0]] + s[1..] && t == [t[0]] + t[1..];
    }
  }

  /** Scaling every digit bound scales the bound on the value. */
  lemma {:induction false} ValAbsBound(s: seq<int>, b: int, lo: int, hi: int)
    requires b > 1 && forall k :: 0 <= k < |s| ==> lo <= s[k] <= hi
    ensures lo * (Pow(b, |s|) - 1) <= (b - 1) * Val(s, b) <= hi * (Pow(b, |s|) - 1)
  {
    if |s| > 0 {
      ValAbsBound(s[1..], b, lo, hi);
      HornerAbsBound(s[0], Val(s[1..], b), Pow(b, |s| - 1), b, lo, hi);
    } else {
      assert lo * 0 == 0 && hi * 0 == 0 && (b - 1) * 0 == 0;
    }
  }

  lemma ValFour(s: seq<int>, b: int)
    requires |s| == 4
    ensures Val(s, b) == s[0] + b * (s[1] + b * (s[2] + b * s[3]))
  {
    var t := s[1..];
    var u := t[1..];
    var v := u[1..];
    assert Val(v, b) == v[0];
    assert Val(u, b) == u[0] + b * Val(v, b);
    assert Val(t, b) == t[0] + b * Val(u, b);
  }

  // ---------------------------------------------------------------- most significant digit first

  /** The number with these digits, the most significant first. */
  function Num(s: seq<int>, b: int): int {
    if |s| == 0 then 0 else Num(s[..|s| - 1], b) * b + s[|s| - 1]
  }

  lemma {:induction false} NumAppend(s: seq<int>, t: seq<int>, b: int)
    ensures Num(s + t, b) == Num(s, b) * Pow(b, |t|) + Num(t, b)
  {
    if |t| == 0 {
      assert s + t == s;
    } else {
      var u, d := t[..|t| - 1], t[|t| - 1];
      NumAppend(s, u, b);
      assert (s + t)[..|s + t| - 1] == s + u;
      Shifted(Num(s, b), Pow(b, |u|), Num(u, b), b, d);
    }
  }

  lemma Shifted(x: int, p: int, y: int, b: int, d: int)
    ensures (x * p + y) * b + d == x * (b * p) + (y * b + d)
  {
    MulAssoc(x, p, b);
    MulDistrib(x * p, y, b);
  }

  lemma NumSnoc(s: seq<int>, d: int, b: int)
    ensures Num(s + [d], b) == Num(s, b) * b + d
  {
    assert (s + [d])[..|s|] == s;
  }

  lemma {:induction false} NumInjective(s: seq<int>, t: seq<int>)
    requires Digits(s, 256) && Digits(t, 256) && |s| == |t| && Num(s, 256) == Num(t, 256)
    ensures s == t
  {
    if |s| > 0 {
      NumInjective(s[..|s| - 1], t[..|t| - 1]);
      assert s == s[..|s| - 1] + [s[|s| - 1]] && t == t[..|t| - 1] + [t[|t| - 1]];
    }
  }

  lemma NumOne(s: seq<int>, b: int)
    requires |s| == 1
    ensures Num(s, b) == s[0]
  {
    assert s[..0] == [];
  }

  lemma NumTwo(s: seq<int>, b: int)
    requires |s| == 2
    ensures Num(s, b) == s[0] * b + s[1]
  {
    NumOne(s[..1], b);
  }

  lemma NumThree(s: seq<int>, b: int)
    requires |s| == 3
    ensures Num(s, b) == (s[0] * b + s[1]) * b + s[2]
  {
    NumTwo(s[..2], b);
  }

  lemma NumFour(s: seq<int>, b: int)
    requires |s| == 4
    ensures Num(s, b) == ((s[0] * b + s[1]) * b + s[2]) * b + s[3]
  {
    NumThree(s[..3], b);
  }
}
