/**
 * Gödel numbering of word sequences: a table giving each word a numeric code, a
 * trial-division prime generator, and an encoder and decoder between word
 * sequences and natural numbers built from prime powers.
 */
module Godel {

  datatype Option<T> = None | Some(value: T)

  datatype WordEncoderError = Overflow

  datatype Result<T> = Ok(value: T) | Err(error: WordEncoderError)

  // ---------------------------------------------------------------------------
  // Arithmetic
  // ---------------------------------------------------------------------------

  lemma {:induction false} MulAtLeast(p: int, d: int)
    requires p > 0 && d >= 1
    ensures p * d >= p
    decreases d
  {
    if d > 1 {
      MulAtLeast(p, d - 1);
      assert p * d == p * (d - 1) + p;
    }
  }

  lemma MulBounds(p: int, d: int)
    requires p > 0
    ensures d >= 1 ==> p * d >= p
    ensures d <= -1 ==> p * d <= -p
  {
    if d >= 1 {
      MulAtLeast(p, d);
    } else if d <= -1 {
      MulAtLeast(p, -d);
      assert p * (-d) == -(p * d);
    }
  }

  /** Quotient and remainder are determined by any decomposition with a remainder in range. */
  lemma DivUnique(x: int, p: int, q: int, r: int)
    requires p > 0 && 0 <= r < p && x == p * q + r
    ensures x / p == q && x % p == r
  {
    var d := q - x / p;
    assert p * d == x % p - r;
    MulBounds(p, d);
  }

  lemma MulMod(p: nat, m: nat)
    requires p > 0
    ensures (p * m) % p == 0 && (p * m) / p == m
  {
    DivUnique(p * m, p, m, 0);
  }

  /** A multiple of a multiple of `q` is a multiple of `q`. */
  lemma DividesMultiple(q: nat, a: nat, b: nat)
    requires q > 0 && a % q == 0
    ensures (a * b) % q == 0 && (b * a) % q == 0
  {
    var k := a / q;
    assert a == q * k;
    assert a * b == q * (k * b);
    MulMod(q, k * b);
  }

  lemma DividesTransitive(q: nat, d: nat, n: nat)
    requires q > 0 && d > 0 && d % q == 0 && n % d == 0
    ensures n % q == 0
  {
    assert n == d * (n / d);
    DividesMultiple(q, d, n / d);
  }

  function Pow(b: nat, e: nat): nat
  {
    if e == 0 then 1 else b * Pow(b, e - 1)
  }

  lemma {:induction false} PowPositive(b: nat, e: nat)
    requires b >= 1
    ensures Pow(b, e) >= 1
  {
    if e > 0 {
      PowPositive(b, e - 1);
      MulAtLeast(Pow(b, e - 1), b);
    }
  }

  // ---------------------------------------------------------------------------
  // Primes
  // ---------------------------------------------------------------------------

  predicate IsPrime(n: nat)
  {
    n >= 2 && forall d :: 2 <= d < n ==> n % d != 0
  }

  /** Every number from 2 up has a prime factor no larger than itself. */
  lemma {:induction false} PrimeFactor(n: nat) returns (q: nat)
    requires n >= 2
    ensures IsPrime(q) && q <= n && n % q == 0
    decreases n
  {
    if IsPrime(n) {
      MulMod(n, 1);
      q := n;
    } else {
      var d :| 2 <= d < n && n % d == 0;
      q := PrimeFactor(d);
      DividesTransitive(q, d, n);
    }
  }

  /** The only divisor from 2 up of a prime is the prime itself. */
  lemma PrimeDivisor(q: nat, r: nat)
    requires IsPrime(q) && r >= 2 && q % r == 0
    ensures r == q
  {
    if r > q {
      DivUnique(q, r, 0, q);
    }
  }

  /** `ps` lists primes in increasing order without skipping any: it is a prefix of 2, 3, 5, 7, ... */
  ghost predicate FirstPrimes(ps: seq<nat>)
  {
    && (forall i :: 0 <= i < |ps| ==> IsPrime(ps[i]))
    && (forall i, j :: 0 <= i < j < |ps| ==> ps[i] < ps[j])
    && (forall q :: IsPrime(q) && 0 < |ps| && q <= ps[|ps| - 1] ==> q in ps)
  }

  /** No prime of `ps` divides `n`. */
  predicate NoneDivides(ps: seq<nat>, n: nat)
  {
    forall i :: 0 <= i < |ps| ==> ps[i] > 0 && n % ps[i] != 0
  }

  function Product(ps: seq<nat>): nat
  {
    if ps == [] then 1 else ps[0] * Product(ps[1..])
  }

  lemma {:induction false} ProductFacts(ps: seq<nat>)
    requires forall i :: 0 <= i < |ps| ==> ps[i] >= 1
    ensures Product(ps) >= 1
    ensures forall i :: 0 <= i < |ps| ==> Product(ps) >= ps[i] && Product(ps) % ps[i] == 0
  {
    if ps != [] {
      var rest := Product(ps[1..]);
      ProductFacts(ps[1..]);
      MulAtLeast(ps[0], rest);
      MulAtLeast(rest, ps[0]);
      assert Product(ps) == ps[0] * rest;
      MulMod(ps[0], rest);
      forall i | 1 <= i < |ps|
        ensures Product(ps) % ps[i] == 0
      {
        assert ps[1..][i - 1] == ps[i];
        DividesMultiple(ps[i], rest, ps[0]);
      }
    }
  }

  /** Euclid: one more than the product of some primes is divisible by none of them. */
  lemma ProductSuccessor(ps: seq<nat>)
    requires AtLeastTwo(ps)
    ensures NoneDivides(ps, Product(ps) + 1)
  {
    ProductFacts(ps);
    forall i | 0 <= i < |ps|
      ensures (Product(ps) + 1) % ps[i] == 1
    {
      DivUnique(Product(ps) + 1, ps[i], Product(ps) / ps[i], 1);
    }
  }

  /** Every number above `last` that a recorded prime divides is composite. */
  lemma DividedNotPrime(ps: seq<nat>, last: nat, q: nat)
    requires forall i :: 0 <= i < |ps| ==> 2 <= ps[i] <= last
    requires last < q && !NoneDivides(ps, q)
    ensures !IsPrime(q)
  {
    var i :| 0 <= i < |ps| && !(ps[i] > 0 && q % ps[i] != 0);
    assert 2 <= ps[i] < q && q % ps[i] == 0;
  }

  lemma RecordedBelowLast(ps: seq<nat>, last: nat)
    requires FirstPrimes(ps)
    requires (ps == [] && last == 1) || (ps != [] && last == ps[|ps| - 1])
    ensures forall i :: 0 <= i < |ps| ==> 2 <= ps[i] <= last
  {
    forall i | 0 <= i < |ps|
      ensures 2 <= ps[i] <= last
    {
      if i < |ps| - 1 {
        assert ps[i] < ps[|ps| - 1];
      }
    }
  }

  /**
   * The trial-division step: after the recorded primes, whose largest is `last`, the
   * first number that none of them divides is the next prime.
   */
  lemma NextCandidatePrime(ps: seq<nat>, last: nat, c: nat)
    requires FirstPrimes(ps)
    requires (ps == [] && last == 1) || (ps != [] && last == ps[|ps| - 1])
    requires last < c && NoneDivides(ps, c)
    requires forall q :: last < q < c ==> !NoneDivides(ps, q)
    ensures IsPrime(c)
    ensures forall q :: last < q < c ==> !IsPrime(q)
    ensures FirstPrimes(ps + [c])
  {
    RecordedBelowLast(ps, last);
    forall q | last < q < c
      ensures !IsPrime(q)
    {
      DividedNotPrime(ps, last, q);
    }
    CandidatePrime(ps, last, c);
    var ext := ps + [c];
    forall q: nat | IsPrime(q) && q <= c
      ensures q in ext
    {
    }
  }

  lemma CandidatePrime(ps: seq<nat>, last: nat, c: nat)
    requires FirstPrimes(ps)
    requires (ps == [] && last == 1) || (ps != [] && last == ps[|ps| - 1])
    requires last < c && NoneDivides(ps, c)
    requires forall q :: last < q < c ==> !IsPrime(q)
    ensures IsPrime(c)
  {
    forall d | 2 <= d < c
      ensures c % d != 0
    {
      if c % d == 0 {
        var q := PrimeFactor(d);
        DividesTransitive(q, d, c);
      }
    }
  }

  /** Two prime listings without gaps agree on their common length. */
  lemma {:induction false} FirstPrimesUnique(a: seq<nat>, b: seq<nat>, i: nat)
    requires FirstPrimes(a) && FirstPrimes(b) && i < |a| && i < |b|
    ensures a[i] == b[i]
    decreases i
  {
    forall j | 0 <= j < i
      ensures a[j] == b[j]
    {
      FirstPrimesUnique(a, b, j);
    }
  }

  /** The iterator of primes by trial division. */
  class Primes {
    var primes: seq<nat>
    var current: nat

    /** `primes` is every prime so far and `current` the last one yielded (1 before the first). */
    ghost predicate Valid()
      reads this
    {
      && FirstPrimes(primes)
      && (primes == [] ==> current == 1)
      && (primes != [] ==> current == primes[|primes| - 1])
    }

    constructor()
      ensures Valid() && primes == [] && current == 1
    {
      primes := [];
      current := 1;
    }

    /** Yields the least prime above the last one, and records it. */
    method Next() returns (p: nat)
      requires Valid()
      modifies this
      ensures Valid()
      ensures primes == old(primes) + [p] && current == p
      ensures IsPrime(p) && old(current) < p
      ensures forall q :: old(current) < q < p ==> !IsPrime(q)
    {
      ghost var last := current;
      ProductFacts(primes);
      ProductSuccessor(primes);
      while true
        invariant primes == old(primes) && current == old(current) + (current - last)
        invariant last <= current <= Product(primes)
        invariant forall q :: last < q <= current ==> !NoneDivides(primes, q)
        decreases Product(primes) - current
      {
        current := current + 1;
        if NoneDivides(primes, current) {
          NextCandidatePrime(primes, last, current);
          primes := primes + [current];
          return current;
        }
      }
    }
  }

  // ---------------------------------------------------------------------------
  // The word table
  // ---------------------------------------------------------------------------

  /** The largest number of words a table may hold. */
  const MaxWords := 100

  /** The words, in order, and the code of each: the 1-based position of its last occurrence. */
  datatype WordEncoder<T(==)> = WordEncoder(words: seq<T>, encodes: map<T, nat>)

  predicate LastPosition<T(==)>(v: seq<T>, w: T, code: nat)
  {
    1 <= code <= |v| && v[code - 1] == w && forall j :: code <= j < |v| ==> v[j] != w
  }

  /** Builds the table for `v`, refusing more than `MaxWords` words. */
  method TryFrom<T(==)>(v: seq<T>) returns (r: Result<WordEncoder<T>>)
    ensures r.Err? <==> |v| > MaxWords
    ensures r.Ok? ==> r.value.words == v
    ensures r.Ok? ==> forall w :: w in r.value.encodes <==> w in v
    ensures r.Ok? ==> forall w :: w in r.value.encodes ==> LastPosition(v, w, r.value.encodes[w])
    ensures r.Ok? ==> Table(r.value)
  {
    if |v| > MaxWords {
      return Err(Overflow);
    }
    var encodes: map<T, nat> := map[];
    for i := 0 to |v|
      invariant forall w :: w in encodes <==> w in v[..i]
      invariant forall w :: w in encodes ==> LastPosition(v[..i], w, encodes[w])
    {
      encodes := encodes[v[i] := i + 1];
    }
    assert v[..|v|] == v;
    return Ok(WordEncoder(v, encodes));
  }

  // ---------------------------------------------------------------------------
  // Encoding
  // ---------------------------------------------------------------------------

  /** The codes of the words of `v` the table knows, in order; unknown words are skipped. */
  function Codes<T(==)>(enc: WordEncoder<T>, v: seq<T>): (cs: seq<nat>)
    ensures |cs| <= |v|
    ensures forall i :: 0 <= i < |cs| ==> cs[i] in enc.encodes.Values
  {
    if v == [] then []
    else
      var rest := Codes(enc, v[..|v| - 1]);
      if v[|v| - 1] in enc.encodes then rest + [enc.encodes[v[|v| - 1]]] else rest
  }

  /** The product of each `ps[i]` raised to `es[i]`. */
  function PowProduct(ps: seq<nat>, es: seq<nat>): nat
    requires |ps| == |es|
  {
    if ps == [] then 1 else PowProduct(ps[..|ps| - 1], es[..|es| - 1]) * Pow(ps[|ps| - 1], es[|es| - 1])
  }

  /** The number whose exponent of the k-th prime is the code of the k-th known word of `v`. */
  method Encode<T(==)>(enc: WordEncoder<T>, v: seq<T>) returns (res: nat)
    ensures exists ps :: FirstPrimes(ps) && |ps| == |Codes(enc, v)| && res == PowProduct(ps, Codes(enc, v))
  {
    var primes := new Primes();
    res := 1;
    for i := 0 to |v|
      invariant primes.Valid()
      invariant |primes.primes| == |Codes(enc, v[..i])|
      invariant res == PowProduct(primes.primes, Codes(enc, v[..i]))
    {
      assert v[..i + 1][..i] == v[..i];
      if v[i] in enc.encodes {
        var n := enc.encodes[v[i]];
        var p := primes.Next();
        res := res * Pow(p, n);
      }
    }
    assert v[..|v|] == v;
  }

  // ---------------------------------------------------------------------------
  // Decoding
  // ---------------------------------------------------------------------------

  /** `s` repeated `c` times. */
  function Repeat(s: string, c: nat): (r: string)
    ensures |r| == c * |s|
  {
    if c == 0 then "" else Repeat(s, c - 1) + s
  }

  /** How many times `p` divides `n`, and what is left once every factor `p` is divided out. */
  function Strip(n: nat, p: nat): (r: (nat, nat))
    requires n >= 1 && p >= 2
    ensures r.1 >= 1 && r.1 % p != 0
    decreases n
  {
    if n % p == 0 then
      DivideOnce(n, p);
      var s := Strip(n / p, p);
      (s.0 + 1, s.1)
    else
      (0, n)
  }

  /** Dividing a multiple of `p` by `p` leaves a smaller positive number. */
  lemma DivideOnce(n: nat, p: nat)
    requires n >= 1 && p >= 2 && n % p == 0
    ensures 1 <= n / p < n && n == p * (n / p)
  {
    var d := n / p;
    assert n == p * d;
    MulBounds(p, d);
    assert d >= 1;
    MulAtLeast(d, p - 1);
    assert p * d == d * (p - 1) + d;
  }

  /** What `Strip` takes out and what it leaves multiply back to `n`. */
  lemma {:induction false} StripDecomposes(n: nat, p: nat)
    requires n >= 1 && p >= 2
    ensures n == Pow(p, Strip(n, p).0) * Strip(n, p).1
    decreases n
  {
    if n % p == 0 {
      DivideOnce(n, p);
      var s := Strip(n / p, p);
      StripDecomposes(n / p, p);
      assert n == p * (Pow(p, s.0) * s.1);
      assert p * (Pow(p, s.0) * s.1) == (p * Pow(p, s.0)) * s.1;
    }
  }

  /** Divides `p` out of `n` for as long as it divides, counting the divisions. */
  method StripOut(n: nat, p: nat) returns (count: nat, rest: nat)
    requires n >= 1 && p >= 2
    ensures (count, rest) == Strip(n, p)
  {
    count, rest := 0, n;
    while rest % p == 0
      invariant rest >= 1
      invariant Strip(n, p) == (count + Strip(rest, p).0, Strip(rest, p).1)
      decreases rest
    {
      DivideOnce(rest, p);
      rest := rest / p;
      count := count + 1;
    }
  }

  /** Every entry of `ps` is a possible prime, so it can be divided out. */
  predicate AtLeastTwo(ps: seq<nat>)
  {
    forall i :: 0 <= i < |ps| ==> ps[i] >= 2
  }

  lemma FirstPrimesAtLeastTwo(ps: seq<nat>)
    requires FirstPrimes(ps)
    ensures AtLeastTwo(ps)
  {
    forall i | 0 <= i < |ps|
      ensures ps[i] >= 2
    {
      assert IsPrime(ps[i]);
    }
  }

  /** The text decoded and what is left of `n` after dividing out each prime of `ps` in turn. */
  function Peel<T>(show: T -> string, words: seq<T>, ps: seq<nat>, n: nat): (r: (string, nat))
    requires |ps| <= |words| && n >= 1
    requires AtLeastTwo(ps)
    ensures r.1 >= 1
  {
    if ps == [] then ("", n)
    else
      var k := |ps| - 1;
      var before := Peel(show, words, ps[..k], n);
      var s := Strip(before.1, ps[k]);
      (before.0 + Repeat(show(words[k]), s.0), s.1)
  }

  lemma PeelSnoc<T>(show: T -> string, words: seq<T>, ps: seq<nat>, p: nat, n: nat)
    requires |ps| < |words| && n >= 1 && p >= 2
    requires AtLeastTwo(ps)
    ensures var before := Peel(show, words, ps, n);
            var s := Strip(before.1, p);
            Peel(show, words, ps + [p], n) == (before.0 + Repeat(show(words[|ps|]), s.0), s.1)
  {
    assert (ps + [p])[..|ps|] == ps;
  }

  /** Decoding with the primes `ps`: the text when nothing but those primes divides `n`. */
  function DecodeWith<T>(show: T -> string, words: seq<T>, ps: seq<nat>, n: nat): (d: Option<string>)
    requires |ps| <= |words| && n >= 1
    requires AtLeastTwo(ps)
    ensures n == 1 ==> d == Some("")
  {
    PeelOne(show, words, ps);
    var r := Peel(show, words, ps, n);
    if r.1 == 1 then Some(r.0) else None
  }

  /**
   * Divides each of the first `|words|` primes out of `n` completely, appending the
   * i-th word once for every factor of the i-th prime; `show` renders a word as text.
   */
  method Decode<T(==)>(enc: WordEncoder<T>, show: T -> string, n: nat) returns (r: Option<string>)
    requires n >= 1 || enc.words == []
    ensures n >= 1 ==> exists ps :: FirstPrimes(ps) && |ps| == |enc.words| && r == DecodeWith(show, enc.words, ps, n)
    ensures n == 0 ==> r == None
  {
    var primes := new Primes();
    var res := "";
    var m := n;
    for i := 0 to |enc.words|
      invariant primes.Valid() && |primes.primes| == i
      invariant AtLeastTwo(primes.primes)
      invariant n == 0 ==> m == 0
      invariant n >= 1 ==> (res, m) == Peel(show, enc.words, primes.primes, n)
    {
      ghost var before := primes.primes;
      var p := primes.Next();
      assert p >= 2;
      assert AtLeastTwo(before + [p]);
      PeelSnoc(show, enc.words, before, p, n);
      var count, rest := StripOut(m, p);
      m := rest;
      assert (count, rest) == Strip(Peel(show, enc.words, before, n).1, p);
      if count > 0 {
        res := res + Repeat(show(enc.words[i]), count);
      } else {
        assert Repeat(show(enc.words[i]), count) == "";
        assert res + "" == res;
      }
      assert (res, m) == Peel(show, enc.words, before + [p], n);
    }
    r := if m == 1 then Some(res) else None;
    if n >= 1 {
      assert r == DecodeWith(show, enc.words, primes.primes, n);
    }
  }

  /** Decoding 1 gives the empty text: no prime divides it and nothing is left over. */
  lemma {:induction false} PeelOne<T>(show: T -> string, words: seq<T>, ps: seq<nat>)
    requires |ps| <= |words| && AtLeastTwo(ps)
    ensures Peel(show, words, ps, 1) == ("", 1)
  {
    if ps != [] {
      var k := |ps| - 1;
      PeelOne(show, words, ps[..k]);
      assert Strip(1, ps[k]) == (0, 1);
      assert Repeat(show(words[k]), 0) == "";
      assert "" + "" == "";
    }
  }

  // ---------------------------------------------------------------------------
  // Exponents of distinct primes
  // ---------------------------------------------------------------------------

  /** A remainder modulo `p` of a product depends only on the factors' remainders. */
  lemma MulModReduce(x: nat, y: nat, p: nat)
    requires p > 0
    ensures (x * y) % p == ((x % p) * (y % p)) % p
  {
    var a, b := x % p, y % p;
    var qx, qy := x / p, y / p;
    assert x == p * qx + a;
    assert y == p * qy + b;
    assert x * y == p * qx * y + a * y;
    assert a * y == p * (a * qy) + a * b;
    var k, m := (a * b) / p, (a * b) % p;
    assert a * b == p * k + m;
    assert x * y == p * (qx * y + a * qy + k) + m;
    DivUnique(x * y, p, qx * y + a * qy + k, m);
  }

  /** If `p` divides `a * b`, then it divides `(p % a) * b` as well. */
  lemma RemainderKeepsDivisor(p: nat, a: nat, b: nat)
    requires 0 < a < p
    ensures (a * b) % p == 0 ==> ((p % a) * b) % p == 0
  {
    if (a * b) % p == 0 {
      var q, r := p / a, p % a;
      var k := (a * b) / p;
      assert a * b == p * k;
      assert p == a * q + r;
      assert r * b == p * b - q * (a * b);
      assert r * b == p * (b - q * k);
      DivUnique(r * b, p, b - q * k, 0);
    }
  }

  /** A prime divides no product of two positive numbers below it. */
  lemma {:induction false} EuclidBelow(p: nat, a: nat, b: nat)
    requires IsPrime(p) && 1 <= a < p && 1 <= b < p
    ensures (a * b) % p != 0
    decreases a
  {
    if a > 1 {
      assert p % a != 0;
      EuclidBelow(p, p % a, b);
      RemainderKeepsDivisor(p, a, b);
    }
  }

  /** Euclid's lemma: a prime that divides neither factor does not divide the product. */
  lemma Euclid(p: nat, x: nat, y: nat)
    requires IsPrime(p) && x % p != 0 && y % p != 0
    ensures (x * y) % p != 0
  {
    MulModReduce(x, y, p);
    EuclidBelow(p, x % p, y % p);
  }

  /** A prime does not divide any power of a different prime. */
  lemma {:induction false} PrimeNotDividesPow(p: nat, q: nat, e: nat)
    requires IsPrime(p) && IsPrime(q) && p != q
    ensures Pow(q, e) % p != 0
  {
    if e == 0 {
      DivUnique(1, p, 0, 1);
    } else {
      PrimeNotDividesPow(p, q, e - 1);
      if p < q {
        assert q % p != 0;
      } else {
        DivUnique(q, p, 0, q);
      }
      Euclid(p, q, Pow(q, e - 1));
    }
  }

  lemma {:induction false} PowProductPositive(ps: seq<nat>, es: seq<nat>)
    requires |ps| == |es| && AtLeastTwo(ps)
    ensures PowProduct(ps, es) >= 1
  {
    if ps != [] {
      var k := |ps| - 1;
      PowProductPositive(ps[..k], es[..k]);
      PowPositive(ps[k], es[k]);
      MulAtLeast(PowProduct(ps[..k], es[..k]), Pow(ps[k], es[k]));
    }
  }

  /** A prime outside `ps` does not divide a product of powers of the primes in `ps`. */
  lemma {:induction false} PrimeNotDividesProduct(p: nat, ps: seq<nat>, es: seq<nat>)
    requires IsPrime(p) && |ps| == |es|
    requires forall i :: 0 <= i < |ps| ==> IsPrime(ps[i]) && ps[i] != p
    ensures PowProduct(ps, es) % p != 0
  {
    if ps != [] {
      var k := |ps| - 1;
      PrimeNotDividesProduct(p, ps[..k], es[..k]);
      PrimeNotDividesPow(p, ps[k], es[k]);
      Euclid(p, PowProduct(ps[..k], es[..k]), Pow(ps[k], es[k]));
    }
  }

  /** Distinct primes, listed in any order. */
  predicate DistinctPrimes(ps: seq<nat>)
  {
    && (forall i :: 0 <= i < |ps| ==> IsPrime(ps[i]))
    && (forall i, j :: 0 <= i < j < |ps| ==> ps[i] != ps[j])
  }

  /** Splits the power of the `k`-th prime off a product of powers of distinct primes. */
  lemma {:induction false} SplitPower(ps: seq<nat>, es: seq<nat>, k: nat) returns (rest: nat)
    requires |ps| == |es| && k < |ps| && DistinctPrimes(ps)
    ensures rest >= 1 && rest % ps[k] != 0
    ensures PowProduct(ps, es) == Pow(ps[k], es[k]) * rest
  {
    var n := |ps| - 1;
    assert DistinctPrimes(ps[..n]);
    if k == n {
      rest := SplitLast(ps, es);
    } else {
      var r0 := SplitPower(ps[..n], es[..n], k);
      rest := SplitEarlier(ps, es, k, r0);
    }
  }

  lemma SplitLast(ps: seq<nat>, es: seq<nat>) returns (rest: nat)
    requires |ps| == |es| && 0 < |ps| && DistinctPrimes(ps)
    ensures rest >= 1 && rest % ps[|ps| - 1] != 0
    ensures PowProduct(ps, es) == Pow(ps[|ps| - 1], es[|es| - 1]) * rest
  {
    var n := |ps| - 1;
    var init, inits := ps[..n], es[..n];
    rest := PowProduct(init, inits);
    assert AtLeastTwo(init);
    PowProductPositive(init, inits);
    PrimeNotDividesProduct(ps[n], init, inits);
  }

  lemma SplitEarlier(ps: seq<nat>, es: seq<nat>, k: nat, r0: nat) returns (rest: nat)
    requires |ps| == |es| && k < |ps| - 1 && DistinctPrimes(ps)
    requires r0 >= 1 && r0 % ps[k] != 0
    requires PowProduct(ps[..|ps| - 1], es[..|es| - 1]) == Pow(ps[k], es[k]) * r0
    ensures rest >= 1 && rest % ps[k] != 0
    ensures PowProduct(ps, es) == Pow(ps[k], es[k]) * rest
  {
    var n := |ps| - 1;
    var last := Pow(ps[n], es[n]);
    var pk := Pow(ps[k], es[k]);
    rest := r0 * last;
    PowPositive(ps[n], es[n]);
    MulAtLeast(r0, last);
    PrimeNotDividesPow(ps[k], ps[n], es[n]);
    Euclid(ps[k], r0, last);
    assert PowProduct(ps, es) == (pk * r0) * last;
    MulAssociates(pk, r0, last);
  }

  lemma MulAssociates(a: nat, b: nat, c: nat)
    ensures (a * b) * c == a * (b * c)
  {
  }

  /** Dividing `p` out of `Pow(p, e) * m` counts `e` divisions when `p` does not divide `m`. */
  lemma {:induction false} StripPower(p: nat, e: nat, m: nat)
    requires p >= 2 && m >= 1 && m % p != 0
    ensures Pow(p, e) * m >= 1
    ensures Strip(Pow(p, e) * m, p) == (e, m)
  {
    PowTimesPositive(p, e, m);
    if e > 0 {
      StripPower(p, e - 1, m);
      var below := Pow(p, e - 1) * m;
      var n := Pow(p, e) * m;
      PowTimesStep(p, e, m);
      assert n == p * below;
      MulMod(p, below);
      StripDivisible(n, p);
    }
  }

  /** One division step of `Strip`. */
  lemma StripDivisible(n: nat, p: nat)
    requires n >= 1 && p >= 2 && n % p == 0
    ensures n / p >= 1
    ensures Strip(n, p) == (Strip(n / p, p).0 + 1, Strip(n / p, p).1)
  {
    DivideOnce(n, p);
  }

  lemma PowTimesPositive(p: nat, e: nat, m: nat)
    requires p >= 1 && m >= 1
    ensures Pow(p, e) * m >= 1
  {
    PowPositive(p, e);
    MulAtLeast(Pow(p, e), m);
  }

  lemma PowTimesStep(p: nat, e: nat, m: nat)
    requires e >= 1
    ensures Pow(p, e) * m == p * (Pow(p, e - 1) * m)
  {
    MulAssociates(p, Pow(p, e - 1), m);
  }

  /** In a product of powers of distinct primes, the exponent of each prime is its own. */
  lemma ExponentOf(ps: seq<nat>, es: seq<nat>, k: nat)
    requires |ps| == |es| && k < |ps| && DistinctPrimes(ps)
    ensures ps[k] >= 2 && PowProduct(ps, es) >= 1
    ensures Strip(PowProduct(ps, es), ps[k]).0 == es[k]
  {
    var rest := SplitPower(ps, es, k);
    StripPower(ps[k], es[k], rest);
  }

  /** Gap-free prime listings hold distinct primes. */
  lemma FirstPrimesDistinct(ps: seq<nat>)
    requires FirstPrimes(ps)
    ensures DistinctPrimes(ps) && AtLeastTwo(ps)
  {
    FirstPrimesAtLeastTwo(ps);
  }

  /** The exponent of the k-th prime in an encoding is the code of the k-th known word. */
  lemma EncodeExponent<T>(enc: WordEncoder<T>, v: seq<T>, ps: seq<nat>, k: nat)
    requires FirstPrimes(ps) && |ps| == |Codes(enc, v)| && k < |ps|
    ensures PowProduct(ps, Codes(enc, v)) >= 1 && ps[k] >= 2
    ensures Strip(PowProduct(ps, Codes(enc, v)), ps[k]).0 == Codes(enc, v)[k]
  {
    FirstPrimesDistinct(ps);
    ExponentOf(ps, Codes(enc, v), k);
  }

  // ---------------------------------------------------------------------------
  // Decoding by codes
  // ---------------------------------------------------------------------------

  /** Every word of the table maps to its last 1-based position in `words`. */
  ghost predicate Table<T>(enc: WordEncoder<T>)
  {
    forall w :: w in enc.encodes ==> LastPosition(enc.words, w, enc.encodes[w])
  }

  /** The rendered text of the words of `v` the table knows, in order. */
  function KnownText<T(==)>(enc: WordEncoder<T>, show: T -> string, v: seq<T>): string
  {
    if v == [] then ""
    else
      var rest := KnownText(enc, show, v[..|v| - 1]);
      if v[|v| - 1] in enc.encodes then rest + show(v[|v| - 1]) else rest
  }

  /** The exponent of each prime of `ps` in `n`. */
  function Exponents(ps: seq<nat>, n: nat): (es: seq<nat>)
    requires n >= 1 && AtLeastTwo(ps)
    ensures |es| == |ps|
  {
    seq(|ps|, i requires 0 <= i < |ps| => Strip(n, ps[i]).0)
  }

  /** The words whose codes are `es`, rendered and joined; None when an entry is not a code. */
  function CodesText<T>(show: T -> string, words: seq<T>, es: seq<nat>): (t: Option<string>)
    ensures t.Some? <==> forall i :: 0 <= i < |es| ==> 1 <= es[i] <= |words|
  {
    if es == [] then Some("")
    else
      var e := es[|es| - 1];
      var before := CodesText(show, words, es[..|es| - 1]);
      if before.Some? && 1 <= e <= |words| then Some(before.value + show(words[e - 1])) else None
  }

  /**
   * Decoding as the comment on `decode` describes it: the exponent of the i-th prime is
   * the code of the i-th word. Fails when an exponent is not a code or `n` has a prime
   * factor outside `ps`.
   */
  function DecodeCodes<T>(show: T -> string, words: seq<T>, ps: seq<nat>, n: nat): (d: Option<string>)
    requires n >= 1 && AtLeastTwo(ps)
    ensures d.Some? <==> PowProduct(ps, Exponents(ps, n)) == n && forall i :: 0 <= i < |ps| ==> 1 <= Exponents(ps, n)[i] <= |words|
  {
    var es := Exponents(ps, n);
    if PowProduct(ps, es) == n then CodesText(show, words, es) else None
  }

  /** With a well-formed table, the codes of the known words of `v` read back as their text. */
  lemma {:induction false} CodesTextOfCodes<T>(enc: WordEncoder<T>, show: T -> string, v: seq<T>)
    requires Table(enc)
    ensures CodesText(show, enc.words, Codes(enc, v)) == Some(KnownText(enc, show, v))
  {
    if v != [] {
      var init := v[..|v| - 1];
      var w := v[|v| - 1];
      CodesTextOfCodes(enc, show, init);
      if w in enc.encodes {
        var es := Codes(enc, v);
        assert es == Codes(enc, init) + [enc.encodes[w]];
        assert es[..|es| - 1] == Codes(enc, init);
        assert LastPosition(enc.words, w, enc.encodes[w]);
      }
    }
  }

  /** Decoding by codes inverts `Encode`: the encoding of `v` decodes to its known words. */
  lemma DecodeCodesOfEncode<T>(enc: WordEncoder<T>, show: T -> string, v: seq<T>, ps: seq<nat>)
    requires Table(enc)
    requires FirstPrimes(ps) && |ps| == |Codes(enc, v)|
    ensures AtLeastTwo(ps) && PowProduct(ps, Codes(enc, v)) >= 1
    ensures DecodeCodes(show, enc.words, ps, PowProduct(ps, Codes(enc, v))) == Some(KnownText(enc, show, v))
  {
    var es := Codes(enc, v);
    FirstPrimesDistinct(ps);
    PowProductPositive(ps, es);
    var n := PowProduct(ps, es);
    forall k | 0 <= k < |ps|
      ensures Exponents(ps, n)[k] == es[k]
    {
      ExponentOf(ps, es, k);
    }
    assert Exponents(ps, n) == es;
    CodesTextOfCodes(enc, show, v);
  }

  // ---------------------------------------------------------------------------
  // Decoding as written, for every input
  // ---------------------------------------------------------------------------

  /** The i-th word rendered and repeated `es[i]` times, for each i in order. */
  function RepeatedWords<T>(show: T -> string, words: seq<T>, es: seq<nat>): string
    requires |es| <= |words|
  {
    if es == [] then ""
    else RepeatedWords(show, words, es[..|es| - 1]) + Repeat(show(words[|es| - 1]), es[|es| - 1])
  }

  /** A cofactor that a prime does not divide changes neither the count nor, up to itself, the rest. */
  lemma StripCofactor(a: nat, m: nat, p: nat)
    requires IsPrime(p) && a >= 1 && m >= 1 && a % p != 0
    ensures a * m >= 1
    ensures Strip(a * m, p) == (Strip(m, p).0, a * Strip(m, p).1)
  {
    var (e, r) := Strip(m, p);
    StripDecomposes(m, p);
    MulAtLeast(a, r);
    Euclid(p, a, r);
    StripPower(p, e, a * r);
    calc {
      a * m;
      a * (Pow(p, e) * r);
      { MulAssociates(a, Pow(p, e), r); }
      (a * Pow(p, e)) * r;
      (Pow(p, e) * a) * r;
      { MulAssociates(Pow(p, e), a, r); }
      Pow(p, e) * (a * r);
    }
  }

  /**
   * After dividing out the primes `ps` in turn, the text repeats the i-th word as often as
   * the i-th prime divides `n`, and `n` is the product of those prime powers times the rest.
   */
  lemma {:induction false} PeelFactors<T>(show: T -> string, words: seq<T>, ps: seq<nat>, n: nat)
    requires |ps| <= |words| && n >= 1 && DistinctPrimes(ps) && AtLeastTwo(ps)
    ensures Peel(show, words, ps, n).0 == RepeatedWords(show, words, Exponents(ps, n))
    ensures n == PowProduct(ps, Exponents(ps, n)) * Peel(show, words, ps, n).1
  {
    if ps != [] {
      var k := |ps| - 1;
      var p, init := ps[k], ps[..k];
      assert DistinctPrimes(init) && AtLeastTwo(init);
      PeelFactors(show, words, init, n);
      var es := Exponents(ps, n);
      assert es[..k] == Exponents(init, n);
      var product := PowProduct(init, es[..k]);
      var r := Peel(show, words, init, n).1;
      PowProductPositive(init, es[..k]);
      PrimeNotDividesProduct(p, init, es[..k]);
      StripCofactor(product, r, p);
      var (e, rest) := Strip(r, p);
      assert es[k] == e;
      StripDecomposes(r, p);
      MulAssociates(product, Pow(p, e), rest);
    }
  }

  /**
   * `decode` with the primes `ps`, for every `n`: the i-th word repeated as often as the
   * i-th prime divides `n`, present exactly when those prime powers multiply back to `n`.
   */
  lemma DecodeWithExponents<T>(show: T -> string, words: seq<T>, ps: seq<nat>, n: nat)
    requires FirstPrimes(ps) && |ps| <= |words| && n >= 1
    ensures AtLeastTwo(ps)
    ensures Peel(show, words, ps, n).0 == RepeatedWords(show, words, Exponents(ps, n))
    ensures Peel(show, words, ps, n).1 == 1 <==> PowProduct(ps, Exponents(ps, n)) == n
    ensures DecodeWith(show, words, ps, n) ==
              if PowProduct(ps, Exponents(ps, n)) == n
              then Some(RepeatedWords(show, words, Exponents(ps, n))) else None
  {
    FirstPrimesDistinct(ps);
    PeelFactors(show, words, ps, n);
    PowProductPositive(ps, Exponents(ps, n));
    UnitCofactor(PowProduct(ps, Exponents(ps, n)), Peel(show, words, ps, n).1, n);
  }

  /** A factorisation `n = a * b` into positive numbers has `b == 1` exactly when `a == n`. */
  lemma UnitCofactor(a: nat, b: nat, n: nat)
    requires a >= 1 && b >= 1 && n == a * b
    ensures b == 1 <==> a == n
  {
    if b != 1 {
      MulAtLeast(a, b - 1);
      assert n == a + a * (b - 1);
    }
  }

  /** The table of the words a and b, with codes 1 and 2, each rendered as itself. */
  function AbTable(): WordEncoder<string>
  {
    WordEncoder(["a", "b"], map["a" := 1, "b" := 2])
  }

  function Verbatim(s: string): string
  {
    s
  }

  lemma SmallPrimes()
    ensures FirstPrimes([2]) && FirstPrimes([2, 3])
  {
    assert IsPrime(2) && IsPrime(3);
  }

  lemma AbEncoding()
    ensures Table(AbTable())
    ensures Codes(AbTable(), ["b"]) == [2] && PowProduct([2], [2]) == 4
  {
    assert ["b"][..0] == [];
    assert [2][..0] == [];
  }

  lemma StripFour()
    ensures Strip(4, 2) == (2, 1) && Strip(1, 3) == (0, 1)
  {
    assert Strip(1, 2) == (0, 1);
    assert Strip(2, 2) == (1, 1);
  }

  /** An instance of `DecodeWithExponents`: 4 is 2^2 * 3^0, so a is repeated twice and b not at all. */
  lemma AbDecode()
    ensures DecodeWith(Verbatim, AbTable().words, [2, 3], 4) == Some("aa")
  {
    var words := AbTable().words;
    SmallPrimes();
    DecodeWithExponents(Verbatim, words, [2, 3], 4);
    assert Strip(4, 2) == (2, 1) by { StripFour(); }
    assert Exponents([2, 3], 4) == [2, 0];
    assert PowProduct([2, 3], [2, 0]) == 4 by {
      assert [2, 3][..1] == [2] && [2, 0][..1] == [2] && [2][..0] == [];
    }
    assert RepeatedWords(Verbatim, words, [2, 0]) == "aa" by {
      assert [2, 0][..1] == [2] && [2][..0] == [];
      assert Repeat("a", 2) == "aa";
      assert "" + "aa" + "" == "aa";
    }
  }

  lemma AbExponents()
    ensures Exponents([2], 4) == [2] && PowProduct([2], [2]) == 4
  {
    StripFour();
    assert [2][..0] == [];
  }

  lemma AbCodesText()
    ensures CodesText(Verbatim, AbTable().words, [2]) == Some("b")
  {
    assert [2][..0] == [];
    assert "" + "b" == "b";
  }

  lemma AbDecodeCodes()
    ensures DecodeCodes(Verbatim, AbTable().words, [2], 4) == Some("b")
  {
    AbExponents();
    AbCodesText();
  }

  /**
   * `decode` is not the inverse of `encode`: with words a, b (codes 1, 2), the sequence
   * [b] encodes as 2^2 = 4, which `decode` reads as a repeated twice, while decoding by
   * codes gives back b.
   */
  lemma DecodeIsNotInverse()
    ensures Table(AbTable()) && FirstPrimes([2]) && FirstPrimes([2, 3])
    ensures PowProduct([2], Codes(AbTable(), ["b"])) == 4
    ensures KnownText(AbTable(), Verbatim, ["b"]) == "b"
    ensures DecodeWith(Verbatim, AbTable().words, [2, 3], 4) == Some("aa")
    ensures DecodeCodes(Verbatim, AbTable().words, [2], 4) == Some("b")
  {
    SmallPrimes();
    AbEncoding();
    AbDecode();
    AbDecodeCodes();
    assert ["b"][..0] == [];
    assert "" + "b" == "b";
  }
}
