/**
  The modular polynomial hash (`calculateHash`, `computeH`, `recalculateHash`)
  with the Rabin-Karp constants BASE = 256 and PRIME = 101.
 */
module Hashing {
  import opened Text

  const Prime := 101
  const Base := 256

  /**
    The hash of a whole string: Horner's method over its code units, starting
    from 0 and reducing modulo `Prime` after every step.
   */
  function HashOf(s: JsString): (h: int)
    ensures 0 <= h < Prime
  {
    if s == [] then 0 else (HashOf(s[..|s| - 1]) * Base + s[|s| - 1]) % Prime
  }

  /** The same polynomial with no reduction: the sum of s[i] * Base^(|s|-1-i). */
  function Poly(s: JsString): nat {
    if s == [] then 0 else Poly(s[..|s| - 1]) * Base + s[|s| - 1]
  }

  /** Base^e. */
  function BasePow(e: nat): nat {
    if e == 0 then 1 else BasePow(e - 1) * Base
  }

  // Facts about remainders modulo `Prime`.

  lemma ModAddMultiple(k: int, x: int)
    ensures (k * Prime + x) % Prime == x % Prime
  {
    var q, r := x / Prime, x % Prime;
    assert x == q * Prime + r && 0 <= r < Prime;
    assert k * Prime + x == (k + q) * Prime + r;
  }

  lemma ModStep(x: int, y: int, c: int)
    requires x % Prime == y % Prime
    ensures (x * Base + c) % Prime == (y * Base + c) % Prime
  {
    var qx, qy, r := x / Prime, y / Prime, x % Prime;
    assert x == qx * Prime + r;
    assert y == qy * Prime + r;
    assert x * Base + c == (qx * Base) * Prime + (r * Base + c);
    assert y * Base + c == (qy * Base) * Prime + (r * Base + c);
    ModAddMultiple(qx * Base, r * Base + c);
    ModAddMultiple(qy * Base, r * Base + c);
  }

  lemma ModMul(a: int, b: int)
    ensures (a * (b % Prime)) % Prime == (a * b) % Prime
  {
    var q, r := b / Prime, b % Prime;
    assert b == q * Prime + r;
    calc {
      a * b;
      a * (q * Prime + r);
      a * (q * Prime) + a * r;
      (a * q) * Prime + a * r;
    }
    ModAddMultiple(a * q, a * r);
  }

  lemma ModSub(a: int, a': int, b: int, b': int)
    requires a % Prime == a' % Prime && b % Prime == b' % Prime
    ensures (a - b) % Prime == (a' - b') % Prime
  {
    var qa, qa', qb, qb' := a / Prime, a' / Prime, b / Prime, b' / Prime;
    assert a == qa * Prime + a % Prime && a' == qa' * Prime + a % Prime;
    assert b == qb * Prime + b % Prime && b' == qb' * Prime + b % Prime;
    assert a - b == (qa - qb) * Prime + (a % Prime - b % Prime);
    assert a' - b' == (qa' - qb') * Prime + (a % Prime - b % Prime);
    ModAddMultiple(qa - qb, a % Prime - b % Prime);
    ModAddMultiple(qa' - qb', a % Prime - b % Prime);
  }

  /** The hash is the polynomial reduced modulo `Prime`. */
  lemma {:induction false} HashIsPolyMod(s: JsString)
    ensures HashOf(s) == Poly(s) % Prime
  {
    if s != [] {
      var p := s[..|s| - 1];
      HashIsPolyMod(p);
      ModStep(HashOf(p), Poly(p), s[|s| - 1]);
    }
  }

  /** The first code unit contributes its value times Base^(|s|-1). */
  lemma {:induction false} PolyLeading(s: JsString)
    requires |s| >= 1
    ensures Poly(s) == s[0] * BasePow(|s| - 1) + Poly(s[1..])
  {
    var n := |s|;
    if n == 1 {
      assert s[..0] == [] && s[1..] == [];
    } else {
      var p := s[..n - 1];
      PolyLeading(p);
      assert p[1..] == s[1..][..n - 2];
      assert p[0] == s[0];
      calc {
        Poly(s);
        Poly(p) * Base + s[n - 1];
        (s[0] * BasePow(n - 2) + Poly(p[1..])) * Base + s[n - 1];
        s[0] * (BasePow(n - 2) * Base) + (Poly(s[1..][..n - 2]) * Base + s[n - 1]);
        s[0] * BasePow(n - 1) + (Poly(s[1..][..n - 2]) * Base + s[n - 1]);
        { assert s[1..][n - 2] == s[n - 1]; }
        s[0] * BasePow(n - 1) + Poly(s[1..]);
      }
    }
  }

  /** `calculateHash(str, length)`: the hash of the first `length` code units. */
  method CalculateHash(str: JsString, length: nat) returns (hash: int)
    requires length <= |str|
    ensures hash == HashOf(str[..length])
  {
    hash := 0;
    var i := 0;
    while i < length
      invariant 0 <= i <= length
      invariant hash == HashOf(str[..i])
    {
      assert str[..i + 1][..i] == str[..i];
      hash := (hash * Base + str[i]) % Prime;
      i := i + 1;
    }
  }

  /** `computeH(patternLength)`: Base^(patternLength-1) mod Prime, and 1 when patternLength <= 1. */
  method ComputeH(patternLength: int) returns (h: int)
    ensures h == BasePow(if patternLength >= 1 then patternLength - 1 else 0) % Prime
  {
    h := 1;
    var i := 0;
    while i < patternLength - 1
      invariant 0 <= i <= (if patternLength >= 1 then patternLength - 1 else 0)
      invariant h == BasePow(i) % Prime
    {
      ModStep(h, BasePow(i), 0);
      h := (h * Base) % Prime;
      i := i + 1;
    }
  }

  /** JavaScript's `x % PRIME`: the remainder takes the sign of the dividend. */
  function JsRem(a: int): (r: int)
    ensures r % Prime == a % Prime
    ensures -Prime < r < Prime
    ensures a >= 0 ==> r >= 0
    ensures a < 0 ==> r <= 0
  {
    if a >= 0 then a % Prime
    else
      var q, t := (-a) / Prime, (-a) % Prime;
      assert a == (-q) * Prime + (-t);
      ModAddMultiple(-q, -t);
      -t
  }

  /**
    `recalculateHash`: the two truncated remainders and the correction for a
    negative value give the residue of ((oldHash - oldChar * h) * Base + newChar).
    The pattern length is not used, as in the source.
   */
  function RecalculateHash(oldHash: int, oldChar: CodeUnit, newChar: CodeUnit, patternLength: int, h: int): (r: int)
    ensures 0 <= r < Prime
    ensures r == ((oldHash - oldChar * h) * Base + newChar) % Prime
  {
    var first := JsRem(oldHash - oldChar * h);
    var second := JsRem(first * Base + newChar);
    ModStep(first, oldHash - oldChar * h, newChar);
    if second < 0 then second + Prime else second
  }

  /**
    The rolling update: given the hash of `s` and h = Base^(|s|-1) mod Prime
    (what `ComputeH(|s|)` returns), it gives the hash of `s` with its first
    code unit dropped and `c` appended.
   */
  lemma RollingHash(s: JsString, c: CodeUnit, h: int)
    requires |s| >= 1 && h == BasePow(|s| - 1) % Prime
    ensures RecalculateHash(HashOf(s), s[0], c, |s|, h) == HashOf(s[1..] + [c])
  {
    HashAppend(s[1..], c);
    DropLeading(s, s[0], BasePow(|s| - 1), h);
    UpdateResidue(HashOf(s), s[0], c, |s|, h, HashOf(s[1..]));
  }

  /** Appending a code unit is one Horner step. */
  lemma HashAppend(u: JsString, c: CodeUnit)
    ensures HashOf(u + [c]) == (HashOf(u) * Base + c) % Prime
  {
    var t := u + [c];
    assert t[..|t| - 1] == u;
  }

  lemma UpdateResidue(hs: int, x: CodeUnit, c: CodeUnit, n: int, h: int, rest: int)
    requires (hs - x * h) % Prime == rest % Prime
    ensures RecalculateHash(hs, x, c, n, h) == (rest * Base + c) % Prime
  {
    var d := hs - x * h;
    ModStep(d, rest, c);
  }

  lemma DropLeading(s: JsString, x: int, big: int, h: int)
    requires |s| >= 1 && x == s[0] && big == BasePow(|s| - 1) && h == big % Prime
    ensures (HashOf(s) - x * h) % Prime == HashOf(s[1..]) % Prime
  {
    HashIsPolyMod(s);
    HashIsPolyMod(s[1..]);
    PolyLeading(s);
    ModMul(x, big);
    Residues(HashOf(s), Poly(s), HashOf(s[1..]), Poly(s[1..]), x * h, x * big);
  }

  lemma Residues(hs: int, p: int, h1: int, p1: int, xh: int, xb: int)
    requires hs == p % Prime && h1 == p1 % Prime && p == xb + p1 && xh % Prime == xb % Prime
    ensures (hs - xh) % Prime == h1 % Prime
  {
    var q, q1, qh, qb := p / Prime, p1 / Prime, xh / Prime, xb / Prime;
    assert p == q * Prime + hs && p1 == q1 * Prime + h1;
    assert xh == qh * Prime + xh % Prime && xb == qb * Prime + xh % Prime;
    assert hs - xh == (q1 + qb - q - qh) * Prime + h1;
    ModAddMultiple(q1 + qb - q - qh, h1);
  }
}
