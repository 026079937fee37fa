/** Facts about sequences in general, kept free of the texts they are applied to. */
module Seqs {
  /** t is a suffix of s. */
  predicate EndsWith<T(==)>(s: seq<T>, t: seq<T>) {
    |t| <= |s| && s[|s| - |t|..] == t
  }

  lemma EndsWithJoin<T>(x: seq<T>, r: seq<T>, q: seq<T>)
    ensures EndsWith(x + r + q, r + q)
  {
    assert x + r + q == x + (r + q);
  }

  /** A text that ends with `m + q`, where m ends with r, ends with `r + q`. */
  lemma EndsWithSplit<T>(x: seq<T>, m0: seq<T>, r: seq<T>, q: seq<T>)
    ensures EndsWith(x + (m0 + r) + q, r + q)
  {
    assert x + (m0 + r) + q == (x + m0) + (r + q);
  }

  /** Appending to a sequence keeps its first n elements. */
  lemma PrefixGrow<T>(s: seq<T>, y: seq<T>, n: nat)
    requires n <= |s|
    ensures (s + y)[..n] == s[..n]
  {
  }

  /** An element in none of three sequences is not in their concatenation. */
  lemma NotInJoin<T>(x: T, a: seq<T>, b: seq<T>, c: seq<T>)
    requires x !in a && x !in b && x !in c
    ensures x !in a + b + c
  {
  }

  /** Regrouping a concatenation of four sequences to the left. */
  lemma Regroup4<T>(a: seq<T>, b: seq<T>, c: seq<T>, d: seq<T>)
    ensures a + (b + c + d) == a + b + c + d
  {
  }

  /** Regrouping `p + (x1 + a + x3) + s` when `p + x1` and `x3 + s` are known by other names. */
  lemma FrameRegroupShort<T>(p: seq<T>, x1: seq<T>, a: seq<T>, x3: seq<T>, s: seq<T>, l1: seq<T>, l2: seq<T>)
    requires p + x1 == l1 && x3 + s == l2
    ensures p + (x1 + a + x3) + s == l1 + a + l2
  {
  }

  /** Regrouping `p + (x1 + a + x2 + b + x3) + s` when `p + x1` and `x3 + s` are known by other names. */
  lemma FrameRegroup<T>(p: seq<T>, x1: seq<T>, a: seq<T>, x2: seq<T>, b: seq<T>, x3: seq<T>, s: seq<T>, l1: seq<T>, l2: seq<T>)
    requires p + x1 == l1 && x3 + s == l2
    ensures p + (((x1 + a) + x2) + (b + x3)) + s == l1 + a + x2 + b + l2
  {
  }

  /** Behind one leading element, the pair at positions 2i and 2i + 1 of the rest moves to 1 + 2i and 2 + 2i. */
  lemma ConsPairs<T>(x: T, s: seq<T>, n: nat)
    requires |s| == 2 * n
    ensures forall i :: 0 <= i < n ==> ([x] + s)[1 + 2 * i] == s[2 * i] && ([x] + s)[2 + 2 * i] == s[2 * i + 1]
  {
  }

  lemma AppendAssoc<T>(a: seq<T>, b: seq<T>, c: seq<T>)
    ensures a + (b + c) == (a + b) + c
  {
  }

  /** Each element mapped to a block, the blocks laid end to end. */
  function Flat<A, T>(f: A -> seq<T>, xs: seq<A>): seq<T>
    decreases |xs|
  {
    if xs == [] then [] else f(xs[0]) + Flat(f, xs[1..])
  }

  /** With two-element blocks, element i's block sits at positions 2i and 2i + 1. */
  lemma {:induction false} FlatIndex<A, T>(f: A -> seq<T>, xs: seq<A>, i: nat)
    requires forall j :: 0 <= j < |xs| ==> |f(xs[j])| == 2
    requires i < |xs|
    ensures |Flat(f, xs)| == 2 * |xs|
    ensures Flat(f, xs)[2 * i] == f(xs[i])[0] && Flat(f, xs)[2 * i + 1] == f(xs[i])[1]
    decreases |xs|
  {
    FlatLength(f, xs);
    assert |f(xs[0])| == 2;
    if i > 0 {
      FlatIndex(f, xs[1..], i - 1);
      assert xs[1..][i - 1] == xs[i];
    }
  }

  lemma {:induction false} FlatLength<A, T>(f: A -> seq<T>, xs: seq<A>)
    requires forall j :: 0 <= j < |xs| ==> |f(xs[j])| == 2
    ensures |Flat(f, xs)| == 2 * |xs|
    decreases |xs|
  {
    if xs != [] {
      assert |f(xs[0])| == 2;
      FlatLength(f, xs[1..]);
    }
  }

  // ---------------------------------------------------------------------
  // Splitting at a separator, as Python's `str.split(sep)` does
  // ---------------------------------------------------------------------

  /** The pieces between the separators, empty pieces included; there is always at least one. */
  function Split<T(==)>(s: seq<T>, sep: T): (r: seq<seq<T>>)
    ensures |r| > 0
    decreases |s|
  {
    if s == [] then [[]]
    else
      var r := Split(s[1..], sep);
      if s[0] == sep then [[]] + r else [[s[0]] + r[0]] + r[1..]
  }

  /** The pieces laid end to end with one separator between each two. */
  function Join<T>(ws: seq<seq<T>>, sep: T): seq<T>
    requires |ws| > 0
    decreases |ws|
  {
    if |ws| == 1 then ws[0] else ws[0] + [sep] + Join(ws[1..], sep)
  }

  /** A piece without the separator, then the separator: the piece comes off whole. */
  lemma {:induction false} SplitAt<T>(w: seq<T>, sep: T, rest: seq<T>)
    requires sep !in w
    ensures Split(w + [sep] + rest, sep) == [w] + Split(rest, sep)
    decreases |w|
  {
    if w == [] {
      assert w + [sep] + rest == [sep] + rest;
    } else {
      assert (w + [sep] + rest)[1..] == w[1..] + [sep] + rest;
      SplitAt(w[1..], sep, rest);
      assert [w[0]] + w[1..] == w;
    }
  }

  lemma {:induction false} SplitWhole<T>(w: seq<T>, sep: T)
    requires sep !in w
    ensures Split(w, sep) == [w]
    decreases |w|
  {
    if w != [] {
      SplitWhole(w[1..], sep);
      assert [w[0]] + w[1..] == w;
    }
  }

  /** Splitting undoes joining when no piece holds the separator. */
  lemma {:induction false} SplitJoin<T>(ws: seq<seq<T>>, sep: T)
    requires |ws| > 0 && forall i :: 0 <= i < |ws| ==> sep !in ws[i]
    ensures Split(Join(ws, sep), sep) == ws
    decreases |ws|
  {
    assert sep !in ws[0];
    if |ws| == 1 {
      SplitWhole(ws[0], sep);
    } else {
      var tail := ws[1..];
      forall i | 0 <= i < |tail| ensures sep !in tail[i] {
        assert tail[i] == ws[i + 1];
      }
      SplitJoin(tail, sep);
      assert Join(ws, sep) == ws[0] + [sep] + Join(tail, sep);
      SplitAt(ws[0], sep, Join(tail, sep));
      assert [ws[0]] + tail == ws;
    }
  }

  /** Joining one more piece at the end. */
  lemma {:induction false} JoinSnoc<T>(ws: seq<seq<T>>, w: seq<T>, sep: T)
    requires |ws| > 0
    ensures Join(ws + [w], sep) == Join(ws, sep) + [sep] + w
    decreases |ws|
  {
    if |ws| == 1 {
      assert (ws + [w])[1..] == [w];
    } else {
      assert (ws + [w])[1..] == ws[1..] + [w];
      JoinSnoc(ws[1..], w, sep);
      AppendAssoc(ws[0] + [sep], Join(ws[1..], sep) + [sep], w);
      AppendAssoc(ws[0] + [sep], Join(ws[1..], sep), [sep]);
    }
  }

  /** Appending a flag word and a value word to a joined list appends the flag between separators, then the value. */
  lemma JoinFlag<T>(ws: seq<seq<T>>, s: seq<T>, lit: seq<T>, sep: T, flag: seq<T>, v: seq<T>)
    requires |ws| > 0 && Join(ws, sep) == s && lit == [sep] + flag + [sep]
    ensures Join(ws + [flag] + [v], sep) == s + lit + v
  {
    JoinSnoc(ws, flag, sep);
    JoinSnoc(ws + [flag], v, sep);
    Between(s, lit, sep, flag, v);
  }

  /** The same with two flag words before the value. */
  lemma JoinFlags<T>(ws: seq<seq<T>>, s: seq<T>, lit: seq<T>, sep: T, f1: seq<T>, f2: seq<T>, v: seq<T>)
    requires |ws| > 0 && Join(ws, sep) == s && lit == [sep] + f1 + [sep] + f2 + [sep]
    ensures Join(ws + [f1] + [f2] + [v], sep) == s + lit + v
  {
    JoinSnoc(ws, f1, sep);
    JoinSnoc(ws + [f1], f2, sep);
    JoinSnoc(ws + [f1] + [f2], v, sep);
    BetweenTwo(s, lit, sep, f1, f2, v);
  }

  /** A text between separators, regrouped. */
  lemma Between<T>(x: seq<T>, lit: seq<T>, sep: T, w: seq<T>, y: seq<T>)
    requires lit == [sep] + w + [sep]
    ensures x + lit + y == x + [sep] + w + [sep] + y
  {
  }

  /** Two texts, each between separators. */
  lemma BetweenTwo<T>(x: seq<T>, lit: seq<T>, sep: T, w1: seq<T>, w2: seq<T>, y: seq<T>)
    requires lit == [sep] + w1 + [sep] + w2 + [sep]
    ensures x + lit + y == x + [sep] + w1 + [sep] + w2 + [sep] + y
  {
  }
}
