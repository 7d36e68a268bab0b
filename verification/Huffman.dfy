/** Canonical Huffman codes as in ITU-T T.81: section C.2 assigns them, section F.2.2.3 decodes them. */
module Huffman {
  import opened BitString
  import opened Wrappers

  const MAX_LENGTH: nat := 16

  /** How many codes there are of each length 1 to 16 (BITS); index 0 is not used. */
  type Counts = c: seq<nat> | |c| == 17 witness seq(17, _ => 0)

  /** The codes shorter than `l`. */
  function Start(c: Counts, l: nat): nat
    requires 1 <= l <= 17
  {
    if l == 1 then 0 else Start(c, l - 1) + c[l - 1]
  }

  function Total(c: Counts): nat {
    Start(c, 17)
  }

  /** The first code of length `l` (MINCODE): one behind the last shorter one, extended by zeros. */
  function First(c: Counts, l: nat): nat
    requires 1 <= l <= 17
  {
    if l == 1 then 0 else 2 * (First(c, l - 1) + c[l - 1])
  }

  /** No length has more codes than there are bit strings left for it. */
  ghost predicate Kraft(c: Counts) {
    forall l :: 1 <= l <= 16 ==> First(c, l) + c[l] <= Pow2(l)
  }

  /** The length of the code with index `e`, searched from length `l` on (HUFFSIZE). */
  function SizeFrom(c: Counts, e: nat, l: nat): (n: nat)
    requires 1 <= l <= 16 && Start(c, l) <= e < Total(c)
    ensures l <= n <= 16 && Start(c, n) <= e < Start(c, n + 1)
    decreases 17 - l
  {
    if e < Start(c, l + 1) then l else SizeFrom(c, e, l + 1)
  }

  function Size(c: Counts, e: nat): (n: nat)
    requires e < Total(c)
    ensures 1 <= n <= 16 && Start(c, n) <= e < Start(c, n + 1)
  {
    SizeFrom(c, e, 1)
  }

  /** The code with index `e` (HUFFCODE). */
  function Code(c: Counts, e: nat): nat
    requires e < Total(c)
  {
    First(c, Size(c, e)) + e - Start(c, Size(c, e))
  }

  /** The DECODE procedure: extends a code bit by bit until it is not beyond the last one of its
      length. Returns that length. */
  function Decode(c: Counts, s: seq<bool>, p: nat, l: nat): (r: Option<nat>)
    requires 1 <= l <= 17
    ensures r.Some? ==> l <= r.value <= 16 && p + r.value <= |s|
    decreases 17 - l
  {
    if l > MAX_LENGTH || p + l > |s| then None
    else if Window(s, p, l) < First(c, l) + c[l] then Some(l)
    else Decode(c, s, p, l + 1)
  }

  lemma {:induction false} StartMonotonic(c: Counts, l: nat, m: nat)
    requires 1 <= l <= m <= 17
    ensures Start(c, l) <= Start(c, m)
    decreases m - l
  {
    if l < m {
      StartMonotonic(c, l, m - 1);
    }
  }

  /** Each index has one length. */
  lemma SizeUnique(c: Counts, e: nat, l: nat)
    requires 1 <= l <= 16 && Start(c, l) <= e < Start(c, l + 1)
    ensures e < Total(c) && Size(c, e) == l
  {
    StartMonotonic(c, l + 1, 17);
    var n := Size(c, e);
    if n < l {
      StartMonotonic(c, n + 1, l);
    } else if l < n {
      StartMonotonic(c, l + 1, n);
    }
  }

  lemma {:induction false} SizeMonotonic(c: Counts, k: nat, e: nat)
    requires k <= e < Total(c)
    ensures Size(c, k) <= Size(c, e)
  {
    if Size(c, e) < Size(c, k) {
      StartMonotonic(c, Size(c, e) + 1, Size(c, k));
    }
  }

  /** Codes of one length lie in front of all longer ones. */
  lemma {:induction false} FirstAhead(c: Counts, l: nat, m: nat)
    requires 1 <= l < m <= 17
    ensures (First(c, l) + c[l]) * Pow2(m - l) <= First(c, m)
    decreases m - l
  {
    if l + 1 < m {
      FirstAhead(c, l, m - 1);
      DoubleProduct(First(c, l) + c[l], Pow2(m - 1 - l), Pow2(m - l));
    } else {
      assert Pow2(m - l) == 2;
    }
  }

  lemma CodeInside(c: Counts, k: nat)
    requires k < Total(c)
    ensures First(c, Size(c, k)) <= Code(c, k) < First(c, Size(c, k)) + c[Size(c, k)]
  {
  }

  lemma CodesCount(c: Counts, k: nat, e: nat)
    requires k < e < Total(c) && Size(c, k) == Size(c, e)
    ensures Code(c, k) + 1 <= Code(c, e)
  {
  }

  /** No code is a prefix of a later one, and codes are assigned in increasing order. */
  lemma CodesOrdered(c: Counts, k: nat, e: nat)
    requires k < e < Total(c)
    ensures Size(c, k) <= Size(c, e)
    ensures (Code(c, k) + 1) * Pow2(Size(c, e) - Size(c, k)) <= Code(c, e)
  {
    hide SizeFrom, First, Code;
    SizeMonotonic(c, k, e);
    var l, m := Size(c, k), Size(c, e);
    CodeInside(c, e);
    if l < m {
      FirstAhead(c, l, m);
      CodeInside(c, k);
      MulMonotonic(Code(c, k) + 1, First(c, l) + c[l], Pow2(m - l));
    } else {
      CodesCount(c, k, e);
      assert Pow2(m - l) == 1;
    }
  }

  lemma MulMonotonic(a: nat, b: nat, d: nat)
    requires a <= b
    ensures a * d <= b * d
  {
  }

  lemma CodeBound(c: Counts, e: nat)
    requires Kraft(c) && e < Total(c)
    ensures Code(c, e) < Pow2(Size(c, e))
  {
  }

  /** A window that holds the code with index `e` decodes to its length. */
  lemma {:induction false} CodeDecodes(c: Counts, s: seq<bool>, p: nat, e: nat, l: nat)
    requires e < Total(c) && 1 <= l <= Size(c, e)
    requires p + Size(c, e) <= |s| && Window(s, p, Size(c, e)) == Code(c, e)
    ensures Decode(c, s, p, l) == Some(Size(c, e))
    decreases Size(c, e) - l
  {
    hide SizeFrom, Window, Pow2;
    var m := Size(c, e);
    if l < m {
      FirstAhead(c, l, m);
      WindowSplit(s, p, l, m - l);
      DivAtLeast(Window(s, p, m), Pow2(m - l), First(c, l) + c[l]);
      CodeDecodes(c, s, p, e, l + 1);
    }
  }

  lemma DivAtLeast(n: nat, d: nat, q: nat)
    requires d > 0 && q * d <= n
    ensures q <= n / d
  {
    if n / d < q {
      MulMonotonic(n / d + 1, q, d);
    }
  }

  /** Does the code with index `e` start at `p`? */
  ghost predicate IsCodeAt(c: Counts, s: seq<bool>, p: nat, e: nat) {
    e < Total(c) && p + Size(c, e) <= |s| && Window(s, p, Size(c, e)) == Code(c, e)
  }

  /** What decodes from length `l` on is a code: the converse. */
  lemma {:induction false} DecodesACode(c: Counts, s: seq<bool>, p: nat, l: nat) returns (e: nat)
    requires 1 <= l <= 16 && Decode(c, s, p, l).Some? && First(c, l) <= Window(s, p, l)
    ensures IsCodeAt(c, s, p, e) && Decode(c, s, p, l) == Some(Size(c, e))
    ensures e == Start(c, Size(c, e)) + Window(s, p, Size(c, e)) - First(c, Size(c, e))
    decreases 17 - l
  {
    if Window(s, p, l) < First(c, l) + c[l] {
      e := Start(c, l) + Window(s, p, l) - First(c, l);
      SizeUnique(c, e, l);
    } else {
      e := DecodesACode(c, s, p, l + 1);
    }
  }

  /** DECODE finds a code exactly where there is one, and no code is a prefix of another. */
  lemma DecodeFindsTheCode(c: Counts, s: seq<bool>, p: nat)
    ensures Decode(c, s, p, 1).Some? <==> exists e :: IsCodeAt(c, s, p, e)
    ensures forall e :: IsCodeAt(c, s, p, e) ==> Decode(c, s, p, 1) == Some(Size(c, e))
  {
    forall e | IsCodeAt(c, s, p, e) ensures Decode(c, s, p, 1) == Some(Size(c, e)) {
      CodeDecodes(c, s, p, e, 1);
    }
    if Decode(c, s, p, 1).Some? {
      var e := DecodesACode(c, s, p, 1);
    }
  }

  lemma CodeAtUnique(c: Counts, s: seq<bool>, p: nat, e: nat, f: nat)
    requires IsCodeAt(c, s, p, e) && IsCodeAt(c, s, p, f)
    ensures e == f
  {
    CodeDecodes(c, s, p, e, 1);
    CodeDecodes(c, s, p, f, 1);
  }
}
