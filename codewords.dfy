/**
 * Canonical Huffman codeword assignment of Codebook_CalcCodewords
 * (section 3.2.1 of the Vorbis I specification).  A codeword of length
 * l is a 32-bit word whose top l bits are the code and whose other bits
 * are zero.  The table next_codewords keeps, for each depth d, the
 * leftmost free node at that depth (0 when there is none); each used
 * entry takes the deepest free node no deeper than its length and leaves
 * the right siblings along its path as the new free nodes.
 */
module Codewords {
  import opened Common

  /** The length that marks an unused entry. */
  const Unused: byte := 255

  /** The top l bits of a word. */
  function Top(w: nat, l: nat): nat
    requires l <= 32
  {
    DivNat(w, Pow2(32 - l));
    w / Pow2(32 - l)
  }

  /** All bits below the top l are zero. */
  predicate Aligned(w: nat, l: nat)
    requires l <= 32
  {
    w % Pow2(32 - l) == 0
  }

  /** A codeword of length l. */
  predicate IsCode(w: nat, l: nat)
  {
    l <= 32 && w < WordModulus && Aligned(w, l)
  }

  /** Neither code is a prefix of the other: they differ in their common top bits. */
  predicate Apart(w1: nat, l1: nat, w2: nat, l2: nat)
    requires l1 <= 32 && l2 <= 32
  {
    Top(w1, Min(l1, l2)) != Top(w2, Min(l1, l2))
  }

  /** A set of codewords in which no code prefixes another. */
  predicate PrefixFree(cw: seq<nat>, lens: seq<nat>)
  {
    |cw| == |lens| &&
    (forall k | 0 <= k < |cw| :: IsCode(cw[k], lens[k])) &&
    (forall a, b | 0 <= a < b < |cw| :: IsCode(cw[a], lens[a]) && Apart(cw[a], lens[a], cw[b], lens[b]))
  }

  /**
   * The free nodes in next_codewords: each is a node of its depth, lies
   * outside every assigned code, and outside every other free node.
   */
  predicate SlotsOk(next: seq<nat>, cw: seq<nat>, lens: seq<nat>)
    requires PrefixFree(cw, lens)
  {
    |next| == 33 &&
    (forall d | 1 <= d <= 32 && next[d] != 0 :: IsCode(next[d], d)) &&
    (forall d, k | 1 <= d <= 32 && next[d] != 0 && 0 <= k < |cw| ::
       IsCode(next[d], d) && Apart(next[d], d, cw[k], lens[k])) &&
    (forall d1, d2 | 1 <= d1 < d2 <= 32 && next[d1] != 0 && next[d2] != 0 ::
       IsCode(next[d1], d1) && Apart(next[d1], d1, next[d2], d2))
  }

  /** The used entries below n, in order: those whose length is not 255. */
  function Used(len: seq<byte>, n: nat): (r: seq<nat>)
    ensures forall k | 0 <= k < |r| :: r[k] < n && r[k] < |len| && len[r[k]] != Unused
  {
    if n == 0 then []
    else Used(len, n - 1) + (if n - 1 < |len| && len[n - 1] != Unused then [n - 1] else [])
  }

  lemma UsedNext(len: seq<byte>, i: nat)
    requires i < |len|
    ensures Used(len, i + 1) == Used(len, i) + (if len[i] != Unused then [i] else [])
  {
  }

  /** The free nodes right after the first used entry, of length l0, took codeword 0. */
  function InitialSlots(l0: nat): (r: seq<nat>)
    requires l0 <= 32
    ensures |r| == 33
  {
    if l0 == 0 then seq(33, _ => 0) else InitialSlots(l0 - 1)[l0 := Pow2(32 - l0)]
  }

  lemma {:induction false} InitialAt(l0: nat, d: nat)
    requires l0 <= 32 && d < 33
    ensures InitialSlots(l0)[d] == if 1 <= d <= l0 then Pow2(32 - d) else 0
  {
    if l0 > 0 {
      InitialAt(l0 - 1, d);
    }
  }

  /**
   * The free nodes after a code of length l took node w at depth root:
   * root's node is gone, and each depth below it down to l gets the right
   * sibling of the path, w + 2^(32-d).
   */
  function Graft(next: seq<nat>, w: nat, root: nat, l: nat): (r: seq<nat>)
    requires |next| == 33 && root <= l <= 32
    ensures |r| == 33
    decreases l - root
  {
    if l == root then next[root := 0]
    else Graft(next, w, root, l - 1)[l := w + Pow2(32 - l)]
  }

  lemma {:induction false} GraftAt(next: seq<nat>, w: nat, root: nat, l: nat, d: nat)
    requires |next| == 33 && root <= l <= 32 && d < 33
    ensures Graft(next, w, root, l)[d] ==
              if d == root then 0 else if root < d <= l then w + Pow2(32 - d) else next[d]
    decreases l - root
  {
    if l > root {
      GraftAt(next, w, root, l - 1, d);
    }
  }

  // ---------------------------------------------------------------------
  // Arithmetic on the top bits of a word

  lemma Assoc3(q: int, a: int, b: int)
    ensures q * (a * b) == (q * b) * a
  {
  }

  lemma MulLe(a: int, b: int, c: int)
    requires a <= b && c >= 0
    ensures a * c <= b * c
  {
    assert b * c - a * c == (b - a) * c;
  }

  /** The top m1 bits are the top m2 bits shifted down. */
  lemma TopExtend(w: nat, m1: nat, m2: nat)
    requires m1 <= m2 <= 32
    ensures Top(w, m1) == Top(w, m2) / Pow2(m2 - m1)
  {
    DivDiv(w, 32 - m2, m2 - m1);
    assert 32 - m2 + (m2 - m1) == 32 - m1;
  }

  /** Codes that differ in a shorter prefix differ in every longer one. */
  lemma ApartDeeper(a: nat, la: nat, la': nat, b: nat, lb: nat)
    requires la <= la' <= 32 && lb <= 32 && Apart(a, la, b, lb)
    ensures Apart(a, la', b, lb)
  {
    var m1, m2 := Min(la, lb), Min(la', lb);
    TopExtend(a, m1, m2);
    TopExtend(b, m1, m2);
  }

  /** A node inside the subtree of w at depth m is apart from whatever w is apart from. */
  lemma SubtreeApart(s: nat, ls: nat, w: nat, m: nat, x: nat, lx: nat)
    requires m <= ls <= 32 && lx <= 32
    requires Top(s, m) == Top(w, m) && Apart(w, m, x, lx)
    ensures Apart(s, ls, x, lx)
  {
    var m' := Min(m, lx);
    TopExtend(s, m', m);
    TopExtend(w, m', m);
    ApartDeeper(s, m, ls, x, lx);
  }

  lemma AlignedDeeper(w: nat, m1: nat, m2: nat)
    requires m1 <= m2 <= 32 && Aligned(w, m1)
    ensures Aligned(w, m2)
  {
    var a, b, p := Pow2(32 - m2), Pow2(m2 - m1), Pow2(32 - m1);
    Pow2Add(32 - m2, m2 - m1);
    assert 32 - m2 + (m2 - m1) == 32 - m1;
    assert p == a * b;
    var q := w / p;
    DivModSplit(w, p);
    assert w == q * (a * b);
    Assoc3(q, a, b);
    DivModUnique(w, q * b, a, 0);
  }

  /** Adding less than one unit of depth m leaves the top m bits alone. */
  lemma AddBelowTop(w: nat, m: nat, k: nat)
    requires m <= 32 && Aligned(w, m) && k < Pow2(32 - m)
    ensures Top(w + k, m) == Top(w, m)
  {
    var p := Pow2(32 - m);
    assert w == Top(w, m) * p;
    DivModUnique(w + k, Top(w, m), p, k);
  }

  /** The right sibling of an aligned node. */
  lemma SiblingTop(w: nat, d: nat)
    requires d <= 32 && Aligned(w, d)
    ensures Top(w + Pow2(32 - d), d) == Top(w, d) + 1 && Aligned(w + Pow2(32 - d), d)
  {
    var p := Pow2(32 - d);
    var t := Top(w, d);
    AlignedProduct(w, d);
    assert w + p == (t + 1) * p;
    DivModUnique(w + p, t + 1, p, 0);
  }

  lemma AlignedProduct(w: nat, l: nat)
    requires l <= 32 && Aligned(w, l)
    ensures w == Top(w, l) * Pow2(32 - l)
  {
    assert w == (w / Pow2(32 - l)) * Pow2(32 - l) + w % Pow2(32 - l);
  }

  lemma SelfDiv(p: int)
    requires p > 0
    ensures p / p == 1 && p % p == 0
  {
    DivModUnique(p, 1, p, 0);
  }

  lemma SmallDiv(x: int, p: int)
    requires 0 <= x < p
    ensures x / p == 0
  {
    DivModUnique(x, 0, p, x);
  }

  lemma TopBelowWord(t: nat, r: nat, p: nat, w: nat)
    requires p > 0 && w == t * p && w < r * p
    ensures t <= r - 1 && w <= r * p - p
  {
    if t >= r {
      MulLe(r, t, p);
    }
    MulLe(t, r - 1, p);
    assert (r - 1) * p == r * p - p;
  }

  /** The right sibling of a node below a code at depth root still fits in 32 bits. */
  lemma SiblingBound(w: nat, root: nat, d: nat)
    requires root < d <= 32 && IsCode(w, root)
    ensures w + Pow2(32 - d) < WordModulus
  {
    var p := Pow2(32 - root);
    Pow2Word();
    Pow2Add(root, 32 - root);
    assert root + (32 - root) == 32;
    assert Pow2(root) * p == WordModulus;
    AlignedProduct(w, root);
    TopBelowWord(Top(w, root), Pow2(root), p, w);
    Pow2Strict(32 - d, 32 - root);
  }

  // ---------------------------------------------------------------------
  // The invariant of the assignment

  lemma InitialSlotOk(l0: nat, d: nat)
    requires 1 <= d <= l0 <= 32
    ensures IsCode(Pow2(32 - d), d) && Apart(Pow2(32 - d), d, 0, l0)
  {
    Pow2Word();
    Pow2Strict(32 - d, 32);
    SelfDiv(Pow2(32 - d));
    assert Top(Pow2(32 - d), d) == 1;
    assert Top(0, d) == 0;
  }

  lemma InitialSlotsApart(d1: nat, d2: nat)
    requires 1 <= d1 < d2 <= 32
    ensures Apart(Pow2(32 - d1), d1, Pow2(32 - d2), d2)
  {
    Pow2Strict(32 - d2, 32 - d1);
    SmallDiv(Pow2(32 - d2), Pow2(32 - d1));
    SelfDiv(Pow2(32 - d1));
    assert Top(Pow2(32 - d2), d1) == 0;
    assert Top(Pow2(32 - d1), d1) == 1;
  }

  lemma InitialSlotsOk(l0: nat)
    requires l0 <= 32
    ensures PrefixFree([0], [l0]) && SlotsOk(InitialSlots(l0), [0], [l0])
  {
    Pow2Word();
    var next := InitialSlots(l0);
    assert IsCode(0, l0);
    forall d | 1 <= d <= 32 && next[d] != 0
      ensures IsCode(next[d], d) && Apart(next[d], d, 0, l0)
    {
      InitialAt(l0, d);
      InitialSlotOk(l0, d);
    }
    forall d1, d2 | 1 <= d1 < d2 <= 32 && next[d1] != 0 && next[d2] != 0
      ensures IsCode(next[d1], d1) && Apart(next[d1], d1, next[d2], d2)
    {
      InitialAt(l0, d1);
      InitialAt(l0, d2);
      InitialSlotOk(l0, d1);
      InitialSlotsApart(d1, d2);
    }
  }

  /** The new code and the free nodes left beside it. */
  lemma GraftNew(next: seq<nat>, cw: seq<nat>, lens: seq<nat>, root: nat, l: nat)
    requires PrefixFree(cw, lens) && SlotsOk(next, cw, lens)
    requires 1 <= root <= l <= 32 && next[root] != 0
    ensures var w := next[root];
            IsCode(w, l) &&
            (forall k | 0 <= k < |cw| :: Apart(w, l, cw[k], lens[k])) &&
            (forall d | 1 <= d <= 32 && !(root <= d <= l) && next[d] != 0 :: Apart(w, l, next[d], d))
  {
    var w := next[root];
    AlignedDeeper(w, root, l);
    forall k | 0 <= k < |cw|
      ensures Apart(w, l, cw[k], lens[k])
    {
      ApartDeeper(w, root, l, cw[k], lens[k]);
    }
    forall d | 1 <= d <= 32 && !(root <= d <= l) && next[d] != 0
      ensures Apart(w, l, next[d], d)
    {
      if d < root {
        assert Apart(next[d], d, w, root);
      }
      ApartDeeper(w, root, l, next[d], d);
    }
  }

  /** Each new free node is a node of its depth under the taken one. */
  lemma GraftSibling(w: nat, root: nat, l: nat, d: nat)
    requires 1 <= root < d <= l <= 32 && IsCode(w, root)
    ensures IsCode(w + Pow2(32 - d), d) && w + Pow2(32 - d) != 0
    ensures Top(w + Pow2(32 - d), root) == Top(w, root)
    ensures Apart(w + Pow2(32 - d), d, w, l)
  {
    AlignedDeeper(w, root, d);
    SiblingTop(w, d);
    SiblingBound(w, root, d);
    Pow2Strict(32 - d, 32 - root);
    AddBelowTop(w, root, Pow2(32 - d));
  }

  /** Two new free nodes at different depths are apart. */
  lemma GraftSiblingsApart(w: nat, root: nat, d1: nat, d2: nat)
    requires 1 <= root < d1 < d2 <= 32 && IsCode(w, root)
    ensures Apart(w + Pow2(32 - d1), d1, w + Pow2(32 - d2), d2)
  {
    AlignedDeeper(w, root, d1);
    SiblingTop(w, d1);
    Pow2Strict(32 - d2, 32 - d1);
    AddBelowTop(w, d1, Pow2(32 - d2));
  }

  lemma AssignCodes(next: seq<nat>, cw: seq<nat>, lens: seq<nat>, root: nat, l: nat)
    requires PrefixFree(cw, lens) && SlotsOk(next, cw, lens)
    requires 1 <= root <= l <= 32 && next[root] != 0
    ensures PrefixFree(cw + [next[root]], lens + [l])
  {
    var w := next[root];
    var cw', lens' := cw + [w], lens + [l];
    GraftNew(next, cw, lens, root, l);
    forall a, b | 0 <= a < b < |cw'|
      ensures IsCode(cw'[a], lens'[a]) && Apart(cw'[a], lens'[a], cw'[b], lens'[b])
    {
      if b == |cw| {
        assert Apart(w, l, cw[a], lens[a]);
      }
    }
  }

  lemma AssignSlotCodes(next: seq<nat>, cw: seq<nat>, lens: seq<nat>, root: nat, l: nat, d: nat, k: nat)
    requires PrefixFree(cw, lens) && SlotsOk(next, cw, lens)
    requires 1 <= root <= l <= 32 && next[root] != 0
    requires 1 <= d <= 32 && Graft(next, next[root], root, l)[d] != 0 && k <= |cw|
    ensures var s := Graft(next, next[root], root, l)[d];
            IsCode(s, d) && Apart(s, d, (cw + [next[root]])[k], (lens + [l])[k])
  {
    var w := next[root];
    var s := Graft(next, w, root, l)[d];
    GraftAt(next, w, root, l, d);
    if root < d <= l {
      GraftSibling(w, root, l, d);
      if k < |cw| {
        SubtreeApart(s, d, w, root, cw[k], lens[k]);
      }
    } else if k == |cw| {
      GraftNew(next, cw, lens, root, l);
      assert Apart(w, l, next[d], d);
    }
  }

  /** A new free node is apart from whatever the taken node was apart from. */
  lemma SiblingApart(w: nat, root: nat, l: nat, d: nat, x: nat, lx: nat)
    requires 1 <= root < d <= l <= 32 && lx <= 32 && IsCode(w, root)
    requires Apart(w, root, x, lx)
    ensures IsCode(w + Pow2(32 - d), d)
    ensures Apart(w + Pow2(32 - d), d, x, lx) && Apart(x, lx, w + Pow2(32 - d), d)
  {
    GraftSibling(w, root, l, d);
    SubtreeApart(w + Pow2(32 - d), d, w, root, x, lx);
  }

  lemma AssignSlotPair(next: seq<nat>, root: nat, l: nat, d1: nat, d2: nat)
    requires |next| == 33 && 1 <= root <= l <= 32 && IsCode(next[root], root)
    requires 1 <= d1 < d2 <= 32
    requires Graft(next, next[root], root, l)[d1] != 0 && Graft(next, next[root], root, l)[d2] != 0
    requires !(root <= d1 <= l) ==> IsCode(next[d1], d1) && Apart(next[root], root, next[d1], d1)
    requires !(root <= d2 <= l) ==> IsCode(next[d2], d2) && Apart(next[root], root, next[d2], d2)
    requires !(root <= d1 <= l) && !(root <= d2 <= l) ==> Apart(next[d1], d1, next[d2], d2)
    ensures var next' := Graft(next, next[root], root, l);
            IsCode(next'[d1], d1) && Apart(next'[d1], d1, next'[d2], d2)
  {
    var w := next[root];
    var next' := Graft(next, w, root, l);
    GraftAt(next, w, root, l, d1);
    GraftAt(next, w, root, l, d2);
    var in1, in2 := root < d1 <= l, root < d2 <= l;
    if in1 && in2 {
      assert next'[d1] == w + Pow2(32 - d1) && next'[d2] == w + Pow2(32 - d2);
      GraftSibling(w, root, l, d1);
      GraftSiblingsApart(w, root, d1, d2);
    } else if in1 {
      assert next'[d1] == w + Pow2(32 - d1) && next'[d2] == next[d2];
      SiblingApart(w, root, l, d1, next[d2], d2);
    } else if in2 {
      assert next'[d1] == next[d1] && next'[d2] == w + Pow2(32 - d2);
      SiblingApart(w, root, l, d2, next[d1], d1);
    } else {
      assert next'[d1] == next[d1] && next'[d2] == next[d2];
    }
  }

  /** Two distinct free nodes are apart, whichever is deeper. */
  lemma SlotsApart(next: seq<nat>, cw: seq<nat>, lens: seq<nat>, a: nat, b: nat)
    requires PrefixFree(cw, lens) && SlotsOk(next, cw, lens)
    requires 1 <= a <= 32 && 1 <= b <= 32 && a != b && next[a] != 0 && next[b] != 0
    ensures IsCode(next[a], a) && Apart(next[a], a, next[b], b)
  {
    if b < a {
      assert Apart(next[b], b, next[a], a);
    }
  }

  lemma AssignSlotsPairs(next: seq<nat>, cw: seq<nat>, lens: seq<nat>, root: nat, l: nat)
    requires PrefixFree(cw, lens) && SlotsOk(next, cw, lens)
    requires 1 <= root <= l <= 32 && next[root] != 0
    ensures var next' := Graft(next, next[root], root, l);
            forall d1, d2 | 1 <= d1 < d2 <= 32 && next'[d1] != 0 && next'[d2] != 0 ::
              IsCode(next'[d1], d1) && Apart(next'[d1], d1, next'[d2], d2)
  {
    var w := next[root];
    var next' := Graft(next, w, root, l);
    forall d1, d2 | 1 <= d1 < d2 <= 32 && next'[d1] != 0 && next'[d2] != 0
      ensures IsCode(next'[d1], d1) && Apart(next'[d1], d1, next'[d2], d2)
    {
      GraftAt(next, w, root, l, d1);
      GraftAt(next, w, root, l, d2);
      if !(root <= d1 <= l) {
        SlotsApart(next, cw, lens, root, d1);
      }
      if !(root <= d2 <= l) {
        SlotsApart(next, cw, lens, root, d2);
      }
      AssignSlotPair(next, root, l, d1, d2);
    }
  }

  /** One assignment step keeps the codes prefix-free and the free nodes apart from them. */
  lemma AssignStep(next: seq<nat>, cw: seq<nat>, lens: seq<nat>, root: nat, l: nat)
    requires PrefixFree(cw, lens) && SlotsOk(next, cw, lens)
    requires 1 <= root <= l <= 32 && next[root] != 0
    ensures PrefixFree(cw + [next[root]], lens + [l])
    ensures SlotsOk(Graft(next, next[root], root, l), cw + [next[root]], lens + [l])
  {
    var w := next[root];
    var next' := Graft(next, w, root, l);
    AssignCodes(next, cw, lens, root, l);
    forall d, k | 1 <= d <= 32 && next'[d] != 0 && 0 <= k < |cw| + 1
      ensures IsCode(next'[d], d) && Apart(next'[d], d, (cw + [w])[k], (lens + [l])[k])
    {
      AssignSlotCodes(next, cw, lens, root, l, d, k);
    }
    AssignSlotsPairs(next, cw, lens, root, l);
    forall d | 1 <= d <= 32 && next'[d] != 0
      ensures IsCode(next'[d], d)
    {
      GraftAt(next, w, root, l, d);
      if root < d <= l {
        GraftSibling(w, root, l, d);
      }
    }
  }

  /** The codeword, length and entry number of each used entry, in entry order. */
  datatype CodeTable = CodeTable(codewords: seq<nat>, lengths: seq<nat>, values: seq<nat>)

  /** The tables, and whether every used entry found a free node (the C return value). */
  datatype Assignment = Assignment(table: CodeTable, complete: bool)

  /**
   * The deepest depth from l up to 1 that has a free node, or 0 when none
   * has: the leftmost node a code of length l can take.
   */
  function Deepest(next: seq<nat>, l: nat): (root: nat)
    requires |next| == 33 && l <= 32
    ensures root <= l
    ensures root == 0 <==> forall d | 1 <= d <= l :: next[d] == 0
    ensures root > 0 ==> next[root] != 0 && forall d | root < d <= l :: next[d] == 0
  {
    if l == 0 then 0 else if next[l] != 0 then l else Deepest(next, l - 1)
  }

  /**
   * The inner search of Codebook_CalcCodewords: walk up from depth l to
   * the deepest free node, take it and graft the right siblings of the new
   * code's path below it.  Returns root 0 when no depth 1..l has a node.
   */
  method TakeSlot(next: array<nat>, l: nat) returns (root: nat, codeword: nat)
    requires next.Length == 33 && l <= 32
    modifies next
    ensures root == Deepest(old(next[..]), l)
    ensures root == 0 ==> next[..] == old(next[..])
    ensures root > 0 ==> codeword == old(next[root]) && codeword != 0 &&
                         next[..] == Graft(old(next[..]), codeword, root, l)
  {
    root := l;
    while root > 0 && next[root] == 0
      invariant root <= l
      invariant Deepest(next[..], l) == Deepest(next[..], root)
    {
      root := root - 1;
    }
    if root == 0 {
      return 0, 0;
    }
    codeword := next[root];
    ghost var before := next[..];
    next[root] := 0;
    var depth := l;
    while depth > root
      invariant root <= depth <= l
      invariant forall d | 0 <= d < 33 ::
                  next[d] == (if d == root then 0 else if depth < d <= l then codeword + Pow2(32 - d) else before[d])
    {
      next[depth] := codeword + Pow2(32 - depth);
      depth := depth - 1;
    }
    forall d | 0 <= d < 33
      ensures next[d] == Graft(before, codeword, root, l)[d]
    {
      GraftAt(before, codeword, root, l, d);
    }
    assert next[..] == Graft(before, codeword, root, l);
  }

  /**
   * The first loop of Codebook_CalcCodewords from entry i on: the first
   * used entry below n, or n itself when there is none; reading an entry
   * past the table is out of bounds.
   */
  function FirstUsedFrom(len: seq<byte>, n: nat, i: nat): (r: Result<nat>)
    decreases n - i
    ensures r.Ok? ==> i <= r.value && r.value < |len| && (r.value < n ==> len[r.value] != Unused)
    ensures r.Ok? && i <= n ==> r.value <= n
    ensures r.Ok? ==> forall k | i <= k < r.value :: len[k] == Unused
    ensures r.Fail? ==> r.error == OutOfBounds
  {
    if i >= n then (if i < |len| then Ok(i) else Fail(OutOfBounds))
    else if i >= |len| then Fail(OutOfBounds)
    else if len[i] != Unused then Ok(i)
    else FirstUsedFrom(len, n, i + 1)
  }

  /**
   * The first loop of Codebook_CalcCodewords: the first used entry below
   * n, or n itself when there is none (whose length is then read too).
   */
  method FirstUsed(len: seq<byte>, n: nat) returns (r: Result<nat>)
    ensures r == FirstUsedFrom(len, n, 0)
    ensures r.Fail? ==> r.error == OutOfBounds && n >= |len| && Used(len, |len|) == []
    ensures r.Ok? ==> r.value <= n && r.value < |len| && Used(len, r.value) == []
    ensures r.Ok? && r.value < n ==> len[r.value] != Unused
  {
    var i: nat := 0;
    while i < n
      invariant i <= n && i <= |len| && Used(len, i) == []
      invariant FirstUsedFrom(len, n, 0) == FirstUsedFrom(len, n, i)
    {
      if i >= |len| {
        return Fail(OutOfBounds);
      }
      if len[i] != Unused {
        return Ok(i);
      }
      i := i + 1;
    }
    if i >= |len| {
      return Fail(OutOfBounds);
    }
    return Ok(i);
  }

  /** The set-up of next_codewords after codeword 0 of length l0. */
  method InitSlots(l0: nat) returns (next: array<nat>)
    requires l0 <= 32
    ensures fresh(next) && next[..] == InitialSlots(l0)
  {
    next := new nat[33](_ => 0);
    for depth := 1 to l0 + 1
      invariant forall d | 0 <= d < 33 :: next[d] == (if 1 <= d < depth then Pow2(32 - d) else 0)
    {
      next[depth] := Pow2(32 - depth);
    }
    forall d | 0 <= d < 33
      ensures next[d] == InitialSlots(l0)[d]
    {
      InitialAt(l0, d);
    }
    assert next[..] == InitialSlots(l0);
  }

  /**
   * What every table the assignment builds satisfies: its codes are
   * prefix-free, the first is codeword 0, and each carries the length of
   * the entry it stands for.
   */
  predicate Canonical(len: seq<byte>, t: CodeTable)
  {
    PrefixFree(t.codewords, t.lengths) && |t.values| == |t.codewords| &&
    (|t.codewords| > 0 ==> t.codewords[0] == 0) &&
    (forall k | 0 <= k < |t.values| :: t.values[k] < |len| && t.lengths[k] == len[t.values[k]])
  }

  /**
   * What the assignment promises about its result: a canonical table of
   * all used entries below n when it completes; otherwise the table of the
   * used entries before the stuck one, with no free node at any depth up
   * to that entry's length.
   */
  ghost predicate AssignmentOk(len: seq<byte>, n: nat, a: Assignment, slots: seq<nat>, stuck: nat)
  {
    Canonical(len, a.table) &&
    (a.complete ==> a.table.values == Used(len, n)) &&
    (!a.complete ==>
       stuck < n && stuck < |len| && len[stuck] <= 32 &&
       a.table.values + [stuck] == Used(len, stuck + 1) &&
       SlotsOk(slots, a.table.codewords, a.table.lengths) &&
       forall d | 1 <= d <= len[stuck] :: slots[d] == 0)
  }

  /** Appending the entry that took a free node keeps the table canonical. */
  lemma AppendEntry(len: seq<byte>, t: CodeTable, next: seq<nat>, root: nat, i: nat)
    requires Canonical(len, t) && SlotsOk(next, t.codewords, t.lengths) && |t.values| >= 1
    requires i < |len| && 1 <= root <= len[i] <= 32 && next[root] != 0
    ensures var t' := CodeTable(t.codewords + [next[root]], t.lengths + [len[i] as nat], t.values + [i]);
            Canonical(len, t') && SlotsOk(Graft(next, next[root], root, len[i]), t'.codewords, t'.lengths)
  {
    AssignStep(next, t.codewords, t.lengths, root, len[i]);
  }

  /** The stuck outcome: no free node at any depth up to the entry's length. */
  lemma StuckOk(len: seq<byte>, n: nat, t: CodeTable, next: seq<nat>, i: nat)
    requires Canonical(len, t) && SlotsOk(next, t.codewords, t.lengths)
    requires i < n && i < |len| && len[i] <= 32 && t.values == Used(len, i)
    requires forall d | 1 <= d <= len[i] :: next[d] == 0
    ensures AssignmentOk(len, n, Assignment(t, false), next, i)
  {
  }

  /** The outcome of one pass of the main loop. */
  datatype Step = Advance(table: CodeTable) | NoSlot | LengthOutOfRange

  /**
   * One pass of the main loop for entry i, on the free nodes next: an
   * unused entry is skipped, a length over 32 would index past
   * next_codewords, and otherwise the entry takes the deepest free node
   * no deeper than its length (none left: the assignment stops) and the
   * right siblings of its path become free nodes.
   */
  function Pass(len: seq<byte>, i: nat, next: seq<nat>, t: CodeTable): (Step, seq<nat>)
    requires |next| == 33 && i < |len|
  {
    var l := len[i];
    if l == Unused then (Advance(t), next)
    else if l > 32 then (LengthOutOfRange, next)
    else
      var root := Deepest(next, l);
      if root == 0 then (NoSlot, next)
      else (Advance(CodeTable(t.codewords + [next[root]], t.lengths + [l as nat], t.values + [i])),
            Graft(next, next[root], root, l))
  }

  /**
   * The main loop from entry i on, as a function of the free nodes and the
   * table so far: the reference for which codeword each entry receives.
   */
  function AssignLoop(len: seq<byte>, n: nat, i: nat, next: seq<nat>, t: CodeTable): Result<Assignment>
    requires |next| == 33 && i <= n
    decreases n - i
  {
    if i == n then Ok(Assignment(t, true))
    else if i >= |len| then Fail(OutOfBounds)
    else
      var (s, next') := Pass(len, i, next, t);
      match s
      case LengthOutOfRange => Fail(OutOfBounds)
      case NoSlot => Ok(Assignment(t, false))
      case Advance(t') => AssignLoop(len, n, i + 1, next', t')
  }

  /**
   * The main loop fails only with OutOfBounds, and not at all when it
   * stays inside len and every used length is at most 32.
   */
  lemma {:induction false} AssignLoopErrors(len: seq<byte>, n: nat, i: nat, next: seq<nat>, t: CodeTable)
    requires |next| == 33 && i <= n
    ensures var r := AssignLoop(len, n, i, next, t);
            (r.Fail? ==> r.error == OutOfBounds) &&
            ((n <= |len| && (forall k | 0 <= k < |len| :: len[k] <= 32 || len[k] == Unused)) ==> r.Ok?)
    decreases n - i
  {
    if i < n && i < |len| {
      var (s, next') := Pass(len, i, next, t);
      if s.Advance? {
        AssignLoopErrors(len, n, i + 1, next', s.table);
      }
    }
  }

  /**
   * Codebook_CalcCodewords as a function: the first used entry gets
   * codeword 0 and sets up the free nodes, then the main loop runs over
   * the entries after it.
   */
  function CalcSpec(len: seq<byte>, n: nat): Result<Assignment>
  {
    var first := FirstUsedFrom(len, n, 0);
    if first.Fail? then Fail(first.error)
    else
      var i := first.value;
      if len[i] > 32 then Fail(OutOfBounds)
      else if i == n then Ok(Assignment(CodeTable([], [], []), true))
      else AssignLoop(len, n, i + 1, InitialSlots(len[i]), CodeTable([0], [len[i] as nat], [i]))
  }

  /** A codeword table with one length and one entry number per codeword. */
  predicate Sized(t: CodeTable)
  {
    |t.lengths| == |t.codewords| && |t.values| == |t.codewords|
  }

  /** The main loop fails only out of bounds, and keeps the three columns of the table aligned. */
  lemma {:induction false} AssignLoopShape(len: seq<byte>, n: nat, i: nat, next: seq<nat>, t: CodeTable)
    requires |next| == 33 && i <= n && Sized(t)
    decreases n - i
    ensures var r := AssignLoop(len, n, i, next, t);
            (r.Fail? ==> r.error == OutOfBounds) && (r.Ok? ==> Sized(r.value.table))
  {
    if i < n && i < |len| {
      var (st, next') := Pass(len, i, next, t);
      if st.Advance? {
        AssignLoopShape(len, n, i + 1, next', st.table);
      }
    }
  }

  /** The codeword assignment fails only out of bounds, and its table has aligned columns. */
  lemma CalcSpecShape(len: seq<byte>, n: nat)
    ensures CalcSpec(len, n).Fail? ==> CalcSpec(len, n).error == OutOfBounds
    ensures CalcSpec(len, n).Ok? ==> Sized(CalcSpec(len, n).value.table)
  {
    var first := FirstUsedFrom(len, n, 0);
    if first.Ok? && len[first.value] <= 32 && first.value != n {
      var i := first.value;
      AssignLoopShape(len, n, i + 1, InitialSlots(len[i]), CodeTable([0], [len[i] as nat], [i]));
    }
  }

  /** A used entry that finds its deepest free node at root takes it and moves on. */
  lemma TakeAt(len: seq<byte>, n: nat, i: nat, next: seq<nat>, t: CodeTable, root: nat)
    requires |next| == 33 && i < n && i < |len| && 1 <= root <= len[i] <= 32
    requires next[root] != 0 && forall d | root < d <= len[i] :: next[d] == 0
    ensures AssignLoop(len, n, i, next, t) ==
              AssignLoop(len, n, i + 1, Graft(next, next[root], root, len[i]),
                         CodeTable(t.codewords + [next[root]], t.lengths + [len[i] as nat], t.values + [i]))
  {
    assert Deepest(next, len[i]) == root;
  }

  /** Entry 1 of the example below, of length 4, takes the free node at depth 2. */
  lemma CalcSpecExampleEntry1(len: seq<byte>, next: seq<nat>)
    requires len == [2, 4, 4, 4, 4, 2, 3, 3]
    requires |next| == 33 && next[1] == 0x8000_0000 && next[2] == 0x4000_0000 && next[3] == 0 && next[4] == 0
    ensures AssignLoop(len, 8, 1, next, CodeTable([0], [2], [0])) ==
              AssignLoop(len, 8, 2, Graft(next, 0x4000_0000, 2, 4),
                         CodeTable([0] + [0x4000_0000], [2] + [4], [0] + [1]))
    ensures var n := Graft(next, 0x4000_0000, 2, 4);
            |n| == 33 && n[1] == 0x8000_0000 && n[2] == 0 && n[3] == 0x6000_0000 && n[4] == 0x5000_0000
  {
    Pow2Top();
    TakeAt(len, 8, 1, next, CodeTable([0], [2], [0]), 2);
    GraftAt(next, 0x4000_0000, 2, 4, 1); GraftAt(next, 0x4000_0000, 2, 4, 2);
    GraftAt(next, 0x4000_0000, 2, 4, 3); GraftAt(next, 0x4000_0000, 2, 4, 4);
  }

  /** Entry 2 of the example below, of length 4, takes the free node at depth 4. */
  lemma CalcSpecExampleEntry2(len: seq<byte>, next: seq<nat>)
    requires len == [2, 4, 4, 4, 4, 2, 3, 3]
    requires |next| == 33 && next[1] == 0x8000_0000 && next[2] == 0 && next[3] == 0x6000_0000 && next[4] == 0x5000_0000
    ensures AssignLoop(len, 8, 2, next, CodeTable([0] + [0x4000_0000], [2] + [4], [0] + [1])) ==
              AssignLoop(len, 8, 3, Graft(next, 0x5000_0000, 4, 4),
                         CodeTable([0] + [0x4000_0000] + [0x5000_0000], [2] + [4] + [4], [0] + [1] + [2]))
    ensures var n := Graft(next, 0x5000_0000, 4, 4);
            |n| == 33 && n[1] == 0x8000_0000 && n[2] == 0 && n[3] == 0x6000_0000 && n[4] == 0
  {
    Pow2Top();
    TakeAt(len, 8, 2, next, CodeTable([0] + [0x4000_0000], [2] + [4], [0] + [1]), 4);
    GraftAt(next, 0x5000_0000, 4, 4, 1); GraftAt(next, 0x5000_0000, 4, 4, 2);
    GraftAt(next, 0x5000_0000, 4, 4, 3); GraftAt(next, 0x5000_0000, 4, 4, 4);
  }

  /** Entry 3 of the example below, of length 4, takes the free node at depth 3. */
  lemma CalcSpecExampleEntry3(len: seq<byte>, next: seq<nat>)
    requires len == [2, 4, 4, 4, 4, 2, 3, 3]
    requires |next| == 33 && next[1] == 0x8000_0000 && next[2] == 0 && next[3] == 0x6000_0000 && next[4] == 0
    ensures AssignLoop(len, 8, 3, next, CodeTable([0] + [0x4000_0000] + [0x5000_0000],
                                            [2] + [4] + [4],
                                            [0] + [1] + [2])) ==
              AssignLoop(len, 8, 4, Graft(next, 0x6000_0000, 3, 4),
                         CodeTable([0] + [0x4000_0000] + [0x5000_0000] + [0x6000_0000],
                                   [2] + [4] + [4] + [4],
                                   [0] + [1] + [2] + [3]))
    ensures var n := Graft(next, 0x6000_0000, 3, 4);
            |n| == 33 && n[1] == 0x8000_0000 && n[2] == 0 && n[3] == 0 && n[4] == 0x7000_0000
  {
    Pow2Top();
    TakeAt(len, 8, 3, next, CodeTable([0] + [0x4000_0000] + [0x5000_0000], [2] + [4] + [4], [0] + [1] + [2]), 3);
    GraftAt(next, 0x6000_0000, 3, 4, 1); GraftAt(next, 0x6000_0000, 3, 4, 2);
    GraftAt(next, 0x6000_0000, 3, 4, 3); GraftAt(next, 0x6000_0000, 3, 4, 4);
  }

  /** Entry 4 of the example below, of length 4, takes the free node at depth 4. */
  lemma CalcSpecExampleEntry4(len: seq<byte>, next: seq<nat>)
    requires len == [2, 4, 4, 4, 4, 2, 3, 3]
    requires |next| == 33 && next[1] == 0x8000_0000 && next[2] == 0 && next[3] == 0 && next[4] == 0x7000_0000
    ensures AssignLoop(len, 8, 4, next, CodeTable([0] + [0x4000_0000] + [0x5000_0000] + [0x6000_0000],
                                            [2] + [4] + [4] + [4],
                                            [0] + [1] + [2] + [3])) ==
              AssignLoop(len, 8, 5, Graft(next, 0x7000_0000, 4, 4),
                         CodeTable([0] + [0x4000_0000] + [0x5000_0000] + [0x6000_0000] + [0x7000_0000],
                                   [2] + [4] + [4] + [4] + [4],
                                   [0] + [1] + [2] + [3] + [4]))
    ensures var n := Graft(next, 0x7000_0000, 4, 4);
            |n| == 33 && n[1] == 0x8000_0000 && n[2] == 0 && n[3] == 0 && n[4] == 0
  {
    Pow2Top();
    TakeAt(len, 8, 4, next, CodeTable([0] + [0x4000_0000] + [0x5000_0000] + [0x6000_0000],
                                [2] + [4] + [4] + [4],
                                [0] + [1] + [2] + [3]), 4);
    GraftAt(next, 0x7000_0000, 4, 4, 1); GraftAt(next, 0x7000_0000, 4, 4, 2);
    GraftAt(next, 0x7000_0000, 4, 4, 3); GraftAt(next, 0x7000_0000, 4, 4, 4);
  }

  /** Entry 5 of the example below, of length 2, takes the free node at depth 1. */
  lemma CalcSpecExampleEntry5(len: seq<byte>, next: seq<nat>)
    requires len == [2, 4, 4, 4, 4, 2, 3, 3]
    requires |next| == 33 && next[1] == 0x8000_0000 && next[2] == 0 && next[3] == 0 && next[4] == 0
    ensures AssignLoop(len, 8, 5, next, CodeTable([0] + [0x4000_0000] + [0x5000_0000] + [0x6000_0000] + [0x7000_0000],
                                            [2] + [4] + [4] + [4] + [4],
                                            [0] + [1] + [2] + [3] + [4])) ==
              AssignLoop(len, 8, 6, Graft(next, 0x8000_0000, 1, 2),
                         CodeTable([0] + [0x4000_0000] + [0x5000_0000] + [0x6000_0000] + [0x7000_0000] + [0x8000_0000],
                                   [2] + [4] + [4] + [4] + [4] + [2],
                                   [0] + [1] + [2] + [3] + [4] + [5]))
    ensures var n := Graft(next, 0x8000_0000, 1, 2);
            |n| == 33 && n[1] == 0 && n[2] == 0xC000_0000 && n[3] == 0 && n[4] == 0
  {
    Pow2Top();
    TakeAt(len, 8, 5, next, CodeTable([0] + [0x4000_0000] + [0x5000_0000] + [0x6000_0000] + [0x7000_0000],
                                [2] + [4] + [4] + [4] + [4],
                                [0] + [1] + [2] + [3] + [4]), 1);
    GraftAt(next, 0x8000_0000, 1, 2, 1); GraftAt(next, 0x8000_0000, 1, 2, 2);
    GraftAt(next, 0x8000_0000, 1, 2, 3); GraftAt(next, 0x8000_0000, 1, 2, 4);
  }

  /** Entry 6 of the example below, of length 3, takes the free node at depth 2. */
  lemma CalcSpecExampleEntry6(len: seq<byte>, next: seq<nat>)
    requires len == [2, 4, 4, 4, 4, 2, 3, 3]
    requires |next| == 33 && next[1] == 0 && next[2] == 0xC000_0000 && next[3] == 0 && next[4] == 0
    ensures AssignLoop(len, 8, 6, next, CodeTable([0] + [0x4000_0000] + [0x5000_0000] + [0x6000_0000] + [0x7000_0000] + [0x8000_0000],
                                            [2] + [4] + [4] + [4] + [4] + [2],
                                            [0] + [1] + [2] + [3] + [4] + [5])) ==
              AssignLoop(len, 8, 7, Graft(next, 0xC000_0000, 2, 3),
                         CodeTable([0] + [0x4000_0000] + [0x5000_0000] + [0x6000_0000] + [0x7000_0000] + [0x8000_0000] + [0xC000_0000],
                                   [2] + [4] + [4] + [4] + [4] + [2] + [3],
                                   [0] + [1] + [2] + [3] + [4] + [5] + [6]))
    ensures var n := Graft(next, 0xC000_0000, 2, 3);
            |n| == 33 && n[1] == 0 && n[2] == 0 && n[3] == 0xE000_0000 && n[4] == 0
  {
    Pow2Top();
    TakeAt(len, 8, 6, next, CodeTable([0] + [0x4000_0000] + [0x5000_0000] + [0x6000_0000] + [0x7000_0000] + [0x8000_0000],
                                [2] + [4] + [4] + [4] + [4] + [2],
                                [0] + [1] + [2] + [3] + [4] + [5]), 2);
    GraftAt(next, 0xC000_0000, 2, 3, 1); GraftAt(next, 0xC000_0000, 2, 3, 2);
    GraftAt(next, 0xC000_0000, 2, 3, 3); GraftAt(next, 0xC000_0000, 2, 3, 4);
  }

  /** Entry 7 of the example below, of length 3, takes the free node at depth 3. */
  lemma CalcSpecExampleEntry7(len: seq<byte>, next: seq<nat>)
    requires len == [2, 4, 4, 4, 4, 2, 3, 3]
    requires |next| == 33 && next[1] == 0 && next[2] == 0 && next[3] == 0xE000_0000 && next[4] == 0
    ensures AssignLoop(len, 8, 7, next, CodeTable([0] + [0x4000_0000] + [0x5000_0000] + [0x6000_0000] + [0x7000_0000] + [0x8000_0000] + [0xC000_0000],
                                            [2] + [4] + [4] + [4] + [4] + [2] + [3],
                                            [0] + [1] + [2] + [3] + [4] + [5] + [6])) ==
              AssignLoop(len, 8, 8, Graft(next, 0xE000_0000, 3, 3),
                         CodeTable([0] + [0x4000_0000] + [0x5000_0000] + [0x6000_0000] + [0x7000_0000] + [0x8000_0000] + [0xC000_0000] + [0xE000_0000],
                                   [2] + [4] + [4] + [4] + [4] + [2] + [3] + [3],
                                   [0] + [1] + [2] + [3] + [4] + [5] + [6] + [7]))
  {
    TakeAt(len, 8, 7, next, CodeTable([0] + [0x4000_0000] + [0x5000_0000] + [0x6000_0000] + [0x7000_0000] + [0x8000_0000] + [0xC000_0000],
                                [2] + [4] + [4] + [4] + [4] + [2] + [3],
                                [0] + [1] + [2] + [3] + [4] + [5] + [6]), 3);
  }

  /** The table the example builds, entry by entry, written out. */
  lemma CalcSpecExampleTable()
    ensures CodeTable([0] + [0x4000_0000] + [0x5000_0000] + [0x6000_0000] + [0x7000_0000] + [0x8000_0000] + [0xC000_0000] + [0xE000_0000],
            [2] + [4] + [4] + [4] + [4] + [2] + [3] + [3],
            [0] + [1] + [2] + [3] + [4] + [5] + [6] + [7]) ==
            CodeTable([0, 0x4000_0000, 0x5000_0000, 0x6000_0000, 0x7000_0000, 0x8000_0000, 0xC000_0000, 0xE000_0000],
                      [2, 4, 4, 4, 4, 2, 3, 3], [0, 1, 2, 3, 4, 5, 6, 7])
  {
  }

  /**
   * The example of section 3.2.1 of the Vorbis I specification: lengths
   * 2, 4, 4, 4, 4, 2, 3, 3 get the codes 00, 0100, 0101, 0110, 0111, 10,
   * 110 and 111, each in the top bits of its word.
   */
  lemma CalcSpecExample(len: seq<byte>)
    requires len == [2, 4, 4, 4, 4, 2, 3, 3]
    ensures CalcSpec(len, 8) ==
              Ok(Assignment(CodeTable([0, 0x4000_0000, 0x5000_0000, 0x6000_0000, 0x7000_0000,
                                       0x8000_0000, 0xC000_0000, 0xE000_0000],
                                      [2, 4, 4, 4, 4, 2, 3, 3], [0, 1, 2, 3, 4, 5, 6, 7]), true))
  {
    assert FirstUsedFrom(len, 8, 0) == Ok(0);
    var n0 := InitialSlots(len[0]);
    assert n0[1] == 0x8000_0000 && n0[2] == 0x4000_0000 && n0[3] == 0 && n0[4] == 0 by {
      Pow2Top();
      InitialAt(2, 1); InitialAt(2, 2); InitialAt(2, 3); InitialAt(2, 4);
    }
    assert CalcSpec(len, 8) == AssignLoop(len, 8, 1, n0, CodeTable([0], [2], [0])) by {
      assert len[0] == 2 && [len[0] as nat] == [2];
    }
    CalcSpecExampleEntry1(len, n0);
    var n1 := Graft(n0, 0x4000_0000, 2, 4);
    CalcSpecExampleEntry2(len, n1);
    var n2 := Graft(n1, 0x5000_0000, 4, 4);
    CalcSpecExampleEntry3(len, n2);
    var n3 := Graft(n2, 0x6000_0000, 3, 4);
    CalcSpecExampleEntry4(len, n3);
    var n4 := Graft(n3, 0x7000_0000, 4, 4);
    CalcSpecExampleEntry5(len, n4);
    var n5 := Graft(n4, 0x8000_0000, 1, 2);
    CalcSpecExampleEntry6(len, n5);
    var n6 := Graft(n5, 0xC000_0000, 2, 3);
    CalcSpecExampleEntry7(len, n6);
    CalcSpecExampleTable();
  }

  /** One pass of the main loop of Codebook_CalcCodewords, for entry i. */
  method AssignOne(len: seq<byte>, i: nat, next: array<nat>, t: CodeTable) returns (s: Step)
    requires next.Length == 33 && i < |len|
    requires Canonical(len, t) && |t.values| >= 1 && SlotsOk(next[..], t.codewords, t.lengths)
    modifies next
    ensures (s, next[..]) == Pass(len, i, old(next[..]), t)
    ensures s.LengthOutOfRange? <==> 32 < len[i] < Unused
    ensures s.NoSlot? ==> len[i] <= 32 && next[..] == old(next[..]) &&
                          forall d | 1 <= d <= len[i] :: next[d] == 0
    ensures s.Advance? ==> Canonical(len, s.table) && |s.table.values| >= 1 &&
                           s.table.values == t.values + (if len[i] != Unused then [i] else []) &&
                           SlotsOk(next[..], s.table.codewords, s.table.lengths)
  {
    var l := len[i];
    if l == Unused {
      return Advance(t);
    }
    if l > 32 {
      return LengthOutOfRange;
    }
    ghost var before := next[..];
    var root, codeword := TakeSlot(next, l);
    if root == 0 {
      return NoSlot;
    }
    AppendEntry(len, t, before, root, i);
    return Advance(CodeTable(t.codewords + [codeword], t.lengths + [l], t.values + [i]));
  }

  /** The main loop of Codebook_CalcCodewords, from entry i on. */
  method AssignFrom(len: seq<byte>, n: nat, i0: nat, next: array<nat>, t0: CodeTable)
      returns (r: Result<Assignment>, ghost slots: seq<nat>, ghost stuck: nat)
    requires next.Length == 33 && i0 <= n && i0 <= |len|
    requires Canonical(len, t0) && |t0.values| >= 1 && t0.values == Used(len, i0)
    requires SlotsOk(next[..], t0.codewords, t0.lengths)
    modifies next
    ensures r == AssignLoop(len, n, i0, old(next[..]), t0)
    ensures r.Fail? ==> r.error == OutOfBounds
    ensures (n <= |len| && (forall k | 0 <= k < |len| :: len[k] <= 32 || len[k] == Unused)) ==> r.Ok?
    ensures r.Ok? ==> AssignmentOk(len, n, r.value, slots, stuck)
  {
    AssignLoopErrors(len, n, i0, next[..], t0);
    r, slots, stuck := AssignWalk(len, n, i0, next, t0);
  }

  /** The loop itself, one entry per pass. */
  method AssignWalk(len: seq<byte>, n: nat, i0: nat, next: array<nat>, t0: CodeTable)
      returns (r: Result<Assignment>, ghost slots: seq<nat>, ghost stuck: nat)
    requires next.Length == 33 && i0 <= n && i0 <= |len|
    requires Canonical(len, t0) && |t0.values| >= 1 && t0.values == Used(len, i0)
    requires SlotsOk(next[..], t0.codewords, t0.lengths)
    modifies next
    ensures r == AssignLoop(len, n, i0, old(next[..]), t0)
    ensures r.Ok? ==> AssignmentOk(len, n, r.value, slots, stuck)
  {
    slots, stuck := [], 0;
    var t := t0;
    var i := i0;
    while i < n
      invariant i0 <= i <= n && i <= |len|
      invariant Canonical(len, t) && |t.values| >= 1 && t.values == Used(len, i)
      invariant SlotsOk(next[..], t.codewords, t.lengths)
      invariant AssignLoop(len, n, i0, old(next[..]), t0) == AssignLoop(len, n, i, next[..], t)
    {
      if i >= |len| {
        return Fail(OutOfBounds), slots, stuck;
      }
      UsedNext(len, i);
      var step := AssignOne(len, i, next, t);
      match step
      case LengthOutOfRange =>
        return Fail(OutOfBounds), slots, stuck;
      case NoSlot =>
        StuckOk(len, n, t, next[..], i);
        return Ok(Assignment(t, false)), next[..], i;
      case Advance(t') =>
        t := t';
      i := i + 1;
    }
    return Ok(Assignment(t, true)), slots, stuck;
  }

  /**
   * Codebook_CalcCodewords over the first n entries of len (n is the
   * number of used entries, not the number of entries).  The first used
   * entry gets codeword 0; each later one takes the leftmost free node it
   * fits; false is returned when an entry finds none.  Reading len or
   * next_codewords out of bounds is reported as OutOfBounds.
   */
  method CalcCodewords(len: seq<byte>, n: nat) returns (r: Result<Assignment>, ghost slots: seq<nat>, ghost stuck: nat)
    ensures r == CalcSpec(len, n)
    ensures r.Fail? ==> r.error == OutOfBounds
    ensures (n <= |len| && Used(len, n) != [] &&
             (forall k | 0 <= k < |len| :: len[k] <= 32 || len[k] == Unused)) ==> r.Ok?
    ensures r.Ok? ==> AssignmentOk(len, n, r.value, slots, stuck)
  {
    slots, stuck := [], 0;
    var first := FirstUsed(len, n);
    if first.Fail? {
      return Fail(first.error), slots, stuck;
    }
    var i := first.value;
    if len[i] > 32 {
      return Fail(OutOfBounds), slots, stuck;
    }
    var l0 := len[i];
    var next := InitSlots(l0);
    if i == n {
      return Ok(Assignment(CodeTable([], [], []), true)), slots, stuck;
    }
    InitialSlotsOk(l0);
    assert Used(len, i + 1) == [i];
    r, slots, stuck := AssignFrom(len, n, i + 1, next, CodeTable([0], [l0], [i]));
  }
}
