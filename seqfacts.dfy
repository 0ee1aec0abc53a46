/**
 * Small facts about concatenating and slicing sequences. Each holds by
 * Dafny's sequence axioms alone; the proofs about the model cite them by
 * name so that the solver is handed the exact regrouping or slice it needs
 * instead of searching for it, which keeps those proofs cheap and stable.
 */
module SeqFacts {
  // ---------------------------------------------------------------------
  // Regrouping a concatenation

  lemma Assoc<T>(a: seq<T>, b: seq<T>, c: seq<T>)
    ensures a + (b + c) == a + b + c
  {
  }

  /** The shape the walk's loop invariant needs after one turn. */
  lemma AppendStep<T>(before: seq<T>, line: seq<T>, sub: seq<T>, rest: seq<T>)
    ensures before + (line + sub + rest) == before + line + sub + rest
  {
  }

  lemma Regroup<T>(a: seq<T>, b: seq<T>, c: seq<T>, d: seq<T>)
    ensures a + b + c + d == a + (b + c) + d
  {
  }

  lemma Regroup3<T>(a: seq<T>, b: seq<T>, c: seq<T>, d: seq<T>)
    ensures a + (b + c + d) == (a + b) + c + d
  {
  }

  /** An empty part can change places with its neighbour. */
  lemma SwapEmpty<T>(a: seq<T>, b: seq<T>, c: seq<T>)
    requires a == [] || b == []
    ensures a + (b + c) == b + (a + c)
  {
    if a == [] {
      assert a + (b + c) == b + c;
      assert a + c == c;
    } else {
      assert b + c == c;
      assert b + (a + c) == a + c;
    }
  }

  // ---------------------------------------------------------------------
  // Slices of a concatenation

  lemma SliceCons<T>(s: seq<T>, i: nat)
    requires i < |s|
    ensures s[i..] == [s[i]] + s[i + 1..]
  {
  }

  /** What is left of `w` from `o` on, after a known `head` that ends at `next`. */
  lemma DropPrefix<T>(w: seq<T>, o: nat, next: nat, whole: seq<T>, head: seq<T>, tail: seq<T>)
    requires o <= |w| && w[o..] == whole && whole == head + tail && next == o + |head|
    ensures next <= |w| && w[next..] == tail
  {
    assert w[next..] == w[o..][|head|..];
  }

  /** A block `[x] + b` found at offset `o` of `w` and ending at `next`. */
  lemma BlockAt<T>(w: seq<T>, o: nat, next: nat, block: seq<T>, x: T, b: seq<T>, tail: seq<T>)
    requires o <= |w| && w[o..] == block + tail
    requires block == [x] + b && next == o + |block|
    ensures o < next <= |w| && w[o] == x && w[o + 1 .. next] == b
  {
    assert w[o] == w[o..][0];
    assert w[o + 1 .. next] == w[o..][1 .. 1 + |b|];
  }

  lemma MiddleSlice<T>(a: seq<T>, b: seq<T>, c: seq<T>)
    ensures |a| + |b| <= |a + b + c| && (a + b + c)[|a| .. |a| + |b|] == b
  {
  }

  /** A slice that lies within `a` is not affected by what follows `a`. */
  lemma SliceBefore<T>(a: seq<T>, b: seq<T>, lo: nat, hi: nat)
    requires lo <= hi <= |a|
    ensures (a + b)[lo..hi] == a[lo..hi]
  {
  }

  lemma LastOfConcat<T>(a: seq<T>, t: seq<T>)
    requires |t| > 0
    ensures |a + t| > 0 && (a + t)[|a + t| - 1] == t[|t| - 1]
  {
  }

  /** Two sequences of three elements that agree at every position. */
  lemma ThreeEqual<T>(xs: seq<T>, ys: seq<T>)
    requires |xs| == 3 && |ys| == 3
    requires xs[0] == ys[0] && xs[1] == ys[1] && xs[2] == ys[2]
    ensures xs == ys
  {
  }

  // ---------------------------------------------------------------------
  // Offsets

  /** One more fragment of width `w`: kept apart so that no proof multiplies two unknowns. */
  lemma MulSucc(w: nat, j: nat)
    ensures w * (j + 1) == w * j + w
  {
  }
}
