/** Repetition of a string, the specification of HelloController.greeting. */
module Text {

  /** `n` back-to-back copies of `s`, each new copy appended at the end. */
  function Repeat(s: string, n: nat): (r: string)
    ensures |r| == n * |s|
  {
    if n == 0 then [] else Repeat(s, n - 1) + s
  }

  /** The `k`-th block of width `w` in `s`. */
  function Chunk(s: string, w: nat, k: nat): string
    requires (k + 1) * w <= |s|
  {
    s[k * w .. (k + 1) * w]
  }

  /** `r` consists of exactly `n` blocks, each equal to `s`: an independent
      description of repetition by indexing rather than by recursion. */
  ghost predicate IsRepetition(r: string, s: string, n: nat)
  {
    && |r| == n * |s|
    && forall k: nat :: k < n ==> (k + 1) * |s| <= |r| && Chunk(r, |s|, k) == s
  }

  /** Repeating `m + n` times is repeating `m` times, then `n` times. */
  lemma {:induction false} RepeatAdd(s: string, m: nat, n: nat)
    ensures Repeat(s, m + n) == Repeat(s, m) + Repeat(s, n)
  {
    if n > 0 {
      calc {
        Repeat(s, m + n);
        Repeat(s, m + n - 1) + s;
        { RepeatAdd(s, m, n - 1); }
        (Repeat(s, m) + Repeat(s, n - 1)) + s;
        Repeat(s, m) + (Repeat(s, n - 1) + s);
      }
    } else {
      assert Repeat(s, m) + Repeat(s, 0) == Repeat(s, m);
    }
  }

  /** Every block of `Repeat(s, n)` is a copy of `s`. */
  lemma RepeatIsRepetition(s: string, n: nat)
    ensures IsRepetition(Repeat(s, n), s, n)
  {
    forall k: nat | k < n
      ensures (k + 1) * |s| <= |Repeat(s, n)| && Chunk(Repeat(s, n), |s|, k) == s
    {
      BlockOfRepeat(s, n, k);
    }
  }

  /** The `k`-th block of `Repeat(s, n)` is a copy of `s`. */
  lemma {:induction false} BlockOfRepeat(s: string, n: nat, k: nat)
    requires k < n
    ensures (k + 1) * |s| <= |Repeat(s, n)| && Chunk(Repeat(s, n), |s|, k) == s
  {
    var front := Repeat(s, n - 1);
    assert Repeat(s, n) == front + s;
    MulSucc(k, |s|);
    if k < n - 1 {
      BlockOfRepeat(s, n - 1, k);
      assert Chunk(front + s, |s|, k) == Chunk(front, |s|, k);
    } else {
      assert (front + s)[|front|..] == s;
    }
  }

  /** One more factor of `w` adds `w`. */
  lemma MulSucc(k: nat, w: nat)
    ensures (k + 1) * w == k * w + w
  {
  }

  /** Conversely, a string made of `n` blocks equal to `s` is `Repeat(s, n)`. */
  lemma {:induction false} RepetitionIsRepeat(r: string, s: string, n: nat)
    requires IsRepetition(r, s, n)
    ensures r == Repeat(s, n)
  {
    if n > 0 {
      var cut := (n - 1) * |s|;
      SplitLastBlock(r, s, n);
      RepetitionIsRepeat(r[..cut], s, n - 1);
      assert r == r[..cut] + r[cut..];
    }
  }

  /** Dropping the last block of `n` copies of `s` leaves `n - 1` copies. */
  lemma SplitLastBlock(r: string, s: string, n: nat)
    requires n > 0 && IsRepetition(r, s, n)
    ensures (n - 1) * |s| <= |r|
    ensures IsRepetition(r[..(n - 1) * |s|], s, n - 1)
    ensures r[(n - 1) * |s|..] == s
  {
    var w := |s|;
    var cut := (n - 1) * w;
    assert cut + w == |r|;
    var front := r[..cut];
    forall k: nat | k < n - 1
      ensures (k + 1) * w <= |front| && Chunk(front, w, k) == s
    {
      BlockInPrefix(r, w, k, n - 1);
    }
    assert r[cut..] == Chunk(r, w, n - 1);
  }

  /** A block that ends within the first `m` blocks is also a block of that prefix. */
  lemma BlockInPrefix(r: string, w: nat, k: nat, m: nat)
    requires k < m && m * w <= |r|
    ensures (k + 1) * w <= m * w
    ensures Chunk(r[..m * w], w, k) == Chunk(r, w, k)
  {
    MulMonotone(k + 1, m, w);
  }

  /** Multiplying by `w` keeps `a <= b`. */
  lemma {:induction false} MulMonotone(a: nat, b: nat, w: nat)
    requires a <= b
    ensures a * w <= b * w
  {
    if a < b {
      MulMonotone(a, b - 1, w);
      assert b * w == (b - 1) * w + w;
    }
  }
}
