/** Polynomials over two elements, highest power first, and the register that divides by one of them. */
module Polynomials {
  /** The coefficient of x^n. */
  predicate Coeff(p: seq<bool>, n: int) {
    0 <= n < |p| && p[|p| - 1 - n]
  }

  /** The coefficient of x^n in the product of two polynomials. */
  predicate Product(q: seq<bool>, d: seq<bool>, n: int)
    decreases |d|
  {
    d != [] && ((d[0] && Coeff(q, n - (|d| - 1))) != Product(q, d[1..], n))
  }

  /**
   * The message times x^|r|, with `first` added to its highest powers, is `q` times the divisor and `r` as the rest.
   */
  ghost predicate Leaves(message: seq<bool>, first: seq<bool>, divisor: seq<bool>, q: seq<bool>, r: seq<bool>) {
    forall n: int ::
      (Coeff(message, n - |r|) != Coeff(first, n - |message|)) == (Product(q, divisor, n) != Coeff(r, n))
  }

  /** One step of the register: times x plus the bit, less the divisor if its highest power comes out. */
  function Next(r: seq<bool>, bit: bool, divisor: seq<bool>): (s: seq<bool>)
    requires |divisor| == |r| + 1
    ensures |s| == |r|
  {
    var out := Coeff(r, |r| - 1) != bit;
    seq(|r|, i requires 0 <= i < |r| => (i + 1 < |r| && r[i + 1]) != (out && divisor[i + 1]))
  }

  /** The register after all bits of a message. */
  function Rest(r: seq<bool>, message: seq<bool>, divisor: seq<bool>): (s: seq<bool>)
    requires |divisor| == |r| + 1
    ensures |s| == |r|
    decreases |message|
  {
    if message == [] then r else Rest(Next(r, message[0], divisor), message[1..], divisor)
  }

  lemma {:induction false} RestCat(r: seq<bool>, a: seq<bool>, b: seq<bool>, divisor: seq<bool>)
    requires |divisor| == |r| + 1
    ensures Rest(r, a + b, divisor) == Rest(Rest(r, a, divisor), b, divisor)
    decreases |a|
  {
    hide Next;
    if a == [] {
      assert a + b == b;
    } else {
      assert (a + b)[0] == a[0] && (a + b)[1..] == a[1..] + b;
      RestCat(Next(r, a[0], divisor), a[1..], b, divisor);
    }
  }

  lemma CoeffSnoc(p: seq<bool>, bit: bool, n: int)
    ensures Coeff(p + [bit], n) == (if n == 0 then bit else Coeff(p, n - 1)) && !Coeff(p, -1)
  {
  }

  lemma CoeffTail(d: seq<bool>, n: int)
    requires d != []
    ensures Coeff(d, n) == if n == |d| - 1 then d[0] else Coeff(d[1..], n)
  {
  }

  lemma {:induction false} ProductSnoc(q: seq<bool>, bit: bool, d: seq<bool>, n: int)
    ensures Product(q + [bit], d, n) == (Product(q, d, n - 1) != (bit && Coeff(d, n)))
    decreases |d|
  {
    hide Coeff;
    if d == [] {
      NoCoeff(n);
    } else {
      CoeffSnoc(q, bit, n - (|d| - 1));
      CoeffTail(d, n);
      ProductSnoc(q, bit, d[1..], n);
      Short(d[1..], |d| - 1);
    }
  }

  lemma NoCoeff(n: int)
    ensures !Coeff([], n)
  {
  }

  lemma Short(d: seq<bool>, n: int)
    requires n >= |d|
    ensures !Coeff(d, n)
  {
  }

  lemma NextCoeff(r: seq<bool>, bit: bool, divisor: seq<bool>, n: int)
    requires |divisor| == |r| + 1
    ensures Coeff(Next(r, bit, divisor), n) == ((n < |r| && Coeff(r, n - 1))
      != ((Coeff(r, |r| - 1) != bit) && n < |r| && Coeff(divisor, n)))
  {
  }

  lemma {:induction false} NothingTimes(d: seq<bool>, n: int)
    ensures !Product([], d, n)
    decreases |d|
  {
    if d != [] {
      NothingTimes(d[1..], n);
    }
  }

  lemma NextLeaves(message: seq<bool>, first: seq<bool>, divisor: seq<bool>, q: seq<bool>, r: seq<bool>, bit: bool)
    requires |r| > 0 && |divisor| == |r| + 1 && divisor[0] && Leaves(message, first, divisor, q, r)
    ensures Leaves(message + [bit], first, divisor, q + [Coeff(r, |r| - 1) != bit], Next(r, bit, divisor))
  {
    var out, w := Coeff(r, |r| - 1) != bit, |r|;
    assert Coeff(divisor, w);
    hide Coeff, Product, Next;
    forall n: int
      ensures (Coeff(message + [bit], n - w) != Coeff(first, n - |message + [bit]|))
        == (Product(q + [out], divisor, n) != Coeff(Next(r, bit, divisor), n))
    {
      CoeffSnoc(message, bit, n - w);
      ProductSnoc(q, out, divisor, n);
      NextCoeff(r, bit, divisor, n);
      if n > w {
        Short(r, n - 1);
        Short(divisor, n);
      }
      assert (Coeff(message, n - 1 - w) != Coeff(first, n - 1 - |message|))
        == (Product(q, divisor, n - 1) != Coeff(r, n - 1));
    }
  }

  /** The register holds the rest of the division. */
  lemma {:induction false} RestLeft(first: seq<bool>, message: seq<bool>, divisor: seq<bool>) returns (q: seq<bool>)
    requires first != [] && |divisor| == |first| + 1 && divisor[0]
    ensures Leaves(message, first, divisor, q, Rest(first, message, divisor))
    decreases |message|
  {
    if message == [] {
      q := [];
      forall n: int ensures !Product(q, divisor, n) {
        NothingTimes(divisor, n);
      }
    } else {
      var front, bit := message[..|message| - 1], message[|message| - 1];
      var p := RestLeft(first, front, divisor);
      hide Leaves, Next;
      var r := Rest(first, front, divisor);
      NextLeaves(front, first, divisor, p, r, bit);
      assert message == front + [bit];
      RestCat(first, front, [bit], divisor);
      assert [bit][1..] == [];
      q := p + [Coeff(r, |r| - 1) != bit];
    }
  }

  lemma {:induction false} SameProduct(q: seq<bool>, p: seq<bool>, d: seq<bool>, n: int, from: int)
    requires n - (|d| - 1) >= from && forall k: int | k >= from :: Coeff(q, k) == Coeff(p, k)
    ensures Product(q, d, n) == Product(p, d, n)
    decreases |d|
  {
    hide Coeff;
    if d != [] {
      SameProduct(q, p, d[1..], n, from);
    }
  }

  lemma {:induction false} QuotientUnique(message: seq<bool>, first: seq<bool>, divisor: seq<bool>,
                                          q: seq<bool>, r: seq<bool>, p: seq<bool>, s: seq<bool>, n: nat, top: nat)
    requires |r| == |s| && |divisor| == |r| + 1 && divisor[0] && |q| <= top && |p| <= top
    requires Leaves(message, first, divisor, q, r) && Leaves(message, first, divisor, p, s)
    ensures forall k: int | k >= n :: Coeff(q, k) == Coeff(p, k)
    decreases if n < top then top - n else 0
  {
    if n < top {
      QuotientUnique(message, first, divisor, q, r, p, s, n + 1, top);
      hide Coeff;
      var w := |r|;
      Short(r, n + w);
      Short(s, n + w);
      SameProduct(q, p, divisor[1..], n + w, n + 1);
      assert (Coeff(message, n + w - w) != Coeff(first, n + w - |message|))
        == (Product(q, divisor, n + w) != Coeff(r, n + w));
      assert (Coeff(message, n + w - w) != Coeff(first, n + w - |message|))
        == (Product(p, divisor, n + w) != Coeff(s, n + w));
    }
  }

  /** There is only one rest: a multiple of the divisor that is shorter than the divisor is zero. */
  lemma RestUnique(message: seq<bool>, first: seq<bool>, divisor: seq<bool>,
                   q: seq<bool>, r: seq<bool>, p: seq<bool>, s: seq<bool>)
    requires |r| == |s| && |divisor| == |r| + 1 && divisor[0]
    requires Leaves(message, first, divisor, q, r) && Leaves(message, first, divisor, p, s)
    ensures r == s
  {
    QuotientUnique(message, first, divisor, q, r, p, s, 0, if |q| > |p| then |q| else |p|);
    forall i | 0 <= i < |r| ensures r[i] == s[i] {
      var n := |r| - 1 - i;
      SameProduct(q, p, divisor, n, -|r|);
      assert (Coeff(message, n - |r|) != Coeff(first, n - |message|)) == (Product(q, divisor, n) != Coeff(r, n));
      assert (Coeff(message, n - |r|) != Coeff(first, n - |message|)) == (Product(p, divisor, n) != Coeff(s, n));
    }
  }
}
