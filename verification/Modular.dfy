/** Residues, and the kernel's wrapping clock. */
module Modular {

  lemma WrapOnce(x: int, m: int)
    requires m > 0 && -m <= x < m
    ensures x % m == if x >= 0 then x else x + m
  {
  }

  lemma ResidueIsUnique(r: int, s: int, m: int)
    requires m > 0 && r % m == s % m && -m < r - s < m
    ensures r == s
  {
    var k := r / m - s / m;
    assert r - s == k * m by {
      assert r == r / m * m + r % m && s == s / m * m + s % m;
    }
    assert (k >= 1 ==> k * m >= m) && (k <= -1 ==> k * m <= -m);
  }

  /** The kernel's `time_after(a, b)` on a counter that wraps at `word`: the signed difference is negative. */
  predicate TimeAfter(word: nat, a: int, b: int)
    requires word > 0
  {
    (b - a) % word >= word / 2
  }

  lemma ResidueOfSum(x: int, y: int, m: int)
    requires m > 0
    ensures (x % m + y) % m == (x + y) % m
  {
    var a, b := (x % m + y) % m, (x + y) % m;
    var k := (x % m + y) / m + x / m - (x + y) / m;
    assert b - a == k * m by {
      assert x == x / m * m + x % m;
      assert x % m + y == (x % m + y) / m * m + a;
      assert x + y == (x + y) / m * m + b;
    }
    assert (k >= 1 ==> k * m >= m) && (k <= -1 ==> k * m <= -m);
  }

  /** Of two moments less than half a turn of the clock apart, the comparison finds the later one. */
  lemma TimeAfterMeaning(word: nat, t: nat, limit: nat)
    requires word > 0 && -(word / 2) < limit - t < word / 2
    ensures TimeAfter(word, t % word, limit % word) <==> t > limit
  {
    ResidueOfSum(limit, -(t % word), word);
    var q := t / word;
    assert t == q * word + t % word;
    ResidueOfMultiple(limit - t, q, word);
    WrapOnce(limit - t, word);
  }

  lemma ResidueOfMultiple(x: int, q: int, m: int)
    requires m > 0
    ensures (x + q * m) % m == x % m
  {
    var a, b := (x + q * m) % m, x % m;
    var k := x / m + q - (x + q * m) / m;
    assert a - b == k * m by {
      assert x == x / m * m + b;
      assert x + q * m == (x + q * m) / m * m + a;
    }
    assert (k >= 1 ==> k * m >= m) && (k <= -1 ==> k * m <= -m);
  }
}
