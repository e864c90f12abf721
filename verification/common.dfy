/** Small helpers shared by every puzzle model: an optional value for the
    places where the programs return `Option` or abort, and integer sums. */
module Common {

  /** `None` stands for an absent value; where a program aborts (`unwrap`,
      `expect`, `assert!`) the model returns `None` as well. */
  datatype Option<+T> = None | Some(value: T)

  /** Sum of a sequence of integers, left to right. */
  function Sum(s: seq<int>): int
  {
    if |s| == 0 then 0 else Sum(s[..|s| - 1]) + s[|s| - 1]
  }

  /** Sums distribute over concatenation. */
  lemma {:induction false} SumAppend(a: seq<int>, b: seq<int>)
    ensures Sum(a + b) == Sum(a) + Sum(b)
    decreases |b|
  {
    if |b| == 0 {
      assert a + b == a;
    } else {
      assert (a + b)[..|a + b| - 1] == a + b[..|b| - 1];
      SumAppend(a, b[..|b| - 1]);
    }
  }

  /** A sum of non-negative terms is non-negative, and a sum of zeros is
      zero. */
  lemma {:induction false} SumNonNegative(s: seq<int>)
    ensures (forall i :: 0 <= i < |s| ==> s[i] >= 0) ==> Sum(s) >= 0
    ensures (forall i :: 0 <= i < |s| ==> s[i] == 0) ==> Sum(s) == 0
  {
    if |s| > 0 {
      SumNonNegative(s[..|s| - 1]);
    }
  }

  /** Absolute difference of two integers (`abs_diff`). */
  function AbsDiff(a: int, b: int): nat
  {
    if a >= b then a - b else b - a
  }

  function Min(a: int, b: int): int
  {
    if a <= b then a else b
  }

  lemma MulMono(a: nat, b: nat, c: nat)
    requires a <= b
    ensures a * c <= b * c
  {
  }

  lemma MulSucc(a: nat, c: nat)
    ensures (a + 1) * c == a * c + c
  {
  }

  /** Concatenation of strings, first to last. */
  function Flatten(ps: seq<string>): string
  {
    if |ps| == 0 then [] else ps[0] + Flatten(ps[1..])
  }

  lemma {:induction false} FlattenAppend(ps: seq<string>, qs: seq<string>)
    ensures Flatten(ps + qs) == Flatten(ps) + Flatten(qs)
  {
    if |ps| > 0 {
      assert (ps + qs)[1..] == ps[1..] + qs;
      FlattenAppend(ps[1..], qs);
    } else {
      assert ps + qs == qs;
    }
  }

  /** Pieces of one length `w` lay out as a `|ps|` by `w` block. */
  lemma {:induction false} FlattenUniformLength(ps: seq<string>, w: nat)
    requires forall i :: 0 <= i < |ps| ==> |ps[i]| == w
    ensures |Flatten(ps)| == |ps| * w
  {
    if |ps| > 0 {
      FlattenUniformLength(ps[1..], w);
      MulSucc(|ps| - 1, w);
    }
  }

  lemma {:induction false} FlattenUniformAt(ps: seq<string>, w: nat, i: nat, j: nat)
    requires forall k :: 0 <= k < |ps| ==> |ps[k]| == w
    requires i < |ps| && j < w
    ensures i * w + j < |Flatten(ps)| && Flatten(ps)[i * w + j] == ps[i][j]
  {
    FlattenUniformLength(ps, w);
    if i > 0 {
      FlattenUniformAt(ps[1..], w, i - 1, j);
      MulSucc(i - 1, w);
    }
  }

  /** Pieces of at most `m` letters make at most `|ps| * m` letters. */
  lemma {:induction false} FlattenBounded(ps: seq<string>, m: nat)
    requires forall i :: 0 <= i < |ps| ==> |ps[i]| <= m
    ensures |Flatten(ps)| <= |ps| * m
  {
    if |ps| > 0 {
      FlattenBounded(ps[1..], m);
    }
  }

  /** Cell `(x, y)` of a `w`-wide, `h`-high grid stored row by row lies
      inside the `w * h` cells. */
  lemma CellIndex(x: nat, y: nat, w: nat, h: nat)
    requires x < w && y < h
    ensures x + y * w < w * h
  {
    MulMono(y + 1, h, w);
  }

  /** Position `y * n + x` of row-major order, counted out row by row. */
  function RowMajor(y: nat, n: nat, x: nat): nat
  {
    if y == 0 then x else n + RowMajor(y - 1, n, x)
  }

  /** Entry `(x, y)` of rows `n` long sits at `y * n + x`. */
  lemma {:induction false} RowMajorIndex(y: nat, n: nat, x: nat)
    ensures RowMajor(y, n, x) == y * n + x
  {
    if y > 0 {
      RowMajorIndex(y - 1, n, x);
      MulSucc(y - 1, n);
    }
  }

  /** Quotient and remainder are the only way to write `i` as `q * w + r`
      with `0 <= r < w`. */
  lemma DivModUnique(i: nat, w: nat, q: nat, r: nat)
    requires w > 0 && r < w && i == r + q * w
    ensures i / w == q && i % w == r
  {
    var q', r' := i / w, i % w;
    assert i == r' + q' * w;
    if q' > q {
      MulMono(q + 1, q', w);
    } else if q' < q {
      MulMono(q' + 1, q, w);
    }
  }

  /** No element occurs twice. */
  predicate Distinct<T(==)>(s: seq<T>)
  {
    forall i, j :: 0 <= i < j < |s| ==> s[i] != s[j]
  }

  /** A non-empty sequence is its first element followed by the rest. */
  lemma HeadTail<T>(s: seq<T>)
    requires |s| > 0
    ensures s == [s[0]] + s[1..]
  {
  }

  /** A sequence is its first `k` elements followed by the rest. */
  lemma TakeDrop<T>(s: seq<T>, k: nat)
    requires k <= |s|
    ensures s == s[..k] + s[k..]
  {
  }

  /** Prefixes of a prefix are prefixes. */
  lemma PrefixOfPrefix<T>(s: seq<T>, n: nat)
    requires n <= |s|
    ensures forall k :: 0 <= k <= n ==> s[..n][..k] == s[..k]
  {
  }

  /** The suffix from `i` is element `i` followed by the suffix from `i + 1`. */
  lemma DropOne<T>(s: seq<T>, i: nat)
    requires i < |s|
    ensures s[i..] == [s[i]] + s[i + 1..]
    ensures s[i..][..1] == [s[i]] && s[i..][1..] == s[i + 1..]
  {
  }

  /** The last element of `a + [x]` is `x`, and the ones before it are `a`. */
  lemma Snoc<T>(a: seq<T>, x: T)
    ensures (a + [x])[..|a|] == a && (a + [x])[|a|] == x
  {
  }
}
