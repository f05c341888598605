/** Multiplication and division facts the proofs share. */
module Arith {
  lemma MulMono(a: int, b: int, c: nat)
    requires a <= b
    ensures a * c <= b * c
  {
    assert (b - a) * c >= 0;
  }

  lemma MulLess(a: int, b: int, c: nat)
    requires a * c < b * c
    ensures a < b
  {
    if b <= a {
      MulMono(b, a, c);
    }
  }

  lemma DivUnique(x: nat, c: nat, q: nat, r: nat)
    requires c > 0 && x == q * c + r && r < c
    ensures x / c == q && x % c == r
  {
    var q', r' := x / c, x % c;
    assert c * q' + r' == x;
    assert (q' + 1) * c == q' * c + c && (q + 1) * c == q * c + c;
    if q' < q {
      MulMono(q' + 1, q, c);
    } else if q' > q {
      MulMono(q + 1, q', c);
    }
  }

  lemma DivStep(len: nat, c: nat)
    requires 0 < c <= len
    ensures len / c == (len - c) / c + 1 && len % c == (len - c) % c
  {
    var q, r := (len - c) / c, (len - c) % c;
    assert len == (q + 1) * c + r;
    DivUnique(len, c, q + 1, r);
  }

  /** The remainder, moved on by less than one turn. */
  lemma ModAdd(n: nat, k: nat, d: nat)
    requires d <= n && n > 0
    ensures (k + d) % n == if k % n + d < n then k % n + d else k % n + d - n
  {
    var q, r := k / n, k % n;
    assert k == q * n + r;
    if r + d < n {
      DivUnique(k + d, n, q, r + d);
    } else {
      assert (q + 1) * n == q * n + n;
      if r + d - n < n {
        DivUnique(k + d, n, q + 1, r + d - n);
      }
    }
  }

  /** One step round a ring of `n`. */
  lemma ModNext(n: nat, k: nat)
    requires n > 0
    ensures (k + 1) % n == (k % n + 1) % n == if k % n + 1 < n then k % n + 1 else 0
  {
    ModAdd(n, k, 1);
    if k % n + 1 < n {
      DivUnique(k % n + 1, n, 0, k % n + 1);
    } else {
      DivUnique(n, n, 1, 0);
    }
  }
}
