/** The list of stimulus conditions shown in a method-of-constant-stimuli
    session: every contrast level paired with every spatial frequency,
    contrast in the outer loop and frequency in the inner one.
    Contrast and frequency values are kept abstract (type parameters C and F):
    the script's values are floating-point numbers, and nothing here depends
    on their arithmetic. */
module Conditions {

  /** One stimulus condition, the record {contrast, freq} of the script. */
  datatype Condition<C, F> = Condition(contrast: C, freq: F)

  /** The conditions for one contrast level, one per frequency, in frequency
      order. Defined by its last element, as the inner loop builds it. */
  function Row<C, F>(c: C, fs: seq<F>): seq<Condition<C, F>>
  {
    if |fs| == 0 then [] else Row(c, fs[..|fs| - 1]) + [Condition(c, fs[|fs| - 1])]
  }

  /** The ordered cross product: one Row per contrast level, in contrast
      order. Defined by its last row, as the outer loop builds it. */
  function CrossProduct<C, F>(cs: seq<C>, fs: seq<F>): seq<Condition<C, F>>
  {
    if |cs| == 0 then [] else CrossProduct(cs[..|cs| - 1], fs) + Row(cs[|cs| - 1], fs)
  }

  /** The nested loop of the script: for each contrast c, for each frequency
      f, append {contrast: c, freq: f}. */
  method BuildConditions<C, F>(cs: seq<C>, fs: seq<F>) returns (conds: seq<Condition<C, F>>)
    ensures conds == CrossProduct(cs, fs)
    ensures |conds| == |cs| * |fs|
  {
    conds := [];
    for i := 0 to |cs|
      invariant conds == CrossProduct(cs[..i], fs)
    {
      for j := 0 to |fs|
        invariant conds == CrossProduct(cs[..i], fs) + Row(cs[i], fs[..j])
      {
        assert fs[..j + 1][..j] == fs[..j];
        conds := conds + [Condition(cs[i], fs[j])];
      }
      assert fs[..|fs|] == fs;
      assert cs[..i + 1][..i] == cs[..i];
    }
    assert cs[..|cs|] == cs;
    CrossProductLength(cs, fs);
  }

  /** A row holds one condition per frequency, the j-th pairing c with fs[j]. */
  lemma {:induction false} RowShape<C, F>(c: C, fs: seq<F>)
    ensures |Row(c, fs)| == |fs|
    ensures forall j :: 0 <= j < |fs| ==> Row(c, fs)[j] == Condition(c, fs[j])
  {
    if |fs| > 0 {
      RowShape(c, fs[..|fs| - 1]);
    }
  }

  /** There are exactly |cs| * |fs| conditions; none when either list is empty. */
  lemma {:induction false} CrossProductLength<C, F>(cs: seq<C>, fs: seq<F>)
    ensures |CrossProduct(cs, fs)| == |cs| * |fs|
    ensures |CrossProduct(cs, fs)| == 0 <==> |cs| == 0 || |fs| == 0
  {
    if |cs| > 0 {
      CrossProductLength(cs[..|cs| - 1], fs);
      RowShape(cs[|cs| - 1], fs);
      MulNext(|cs| - 1, |fs|);
      if |fs| > 0 {
        MulPositive(|cs|, |fs|);
      }
    }
  }

  /** Contrast is the outer loop and frequency the inner one: the condition at
      position i * |fs| + j pairs cs[i] with fs[j]. */
  lemma {:induction false} CrossProductAt<C, F>(cs: seq<C>, fs: seq<F>, i: nat, j: nat)
    requires i < |cs| && j < |fs|
    ensures i * |fs| + j < |CrossProduct(cs, fs)|
    ensures CrossProduct(cs, fs)[i * |fs| + j] == Condition(cs[i], fs[j])
  {
    var n := |cs| - 1;
    var init := cs[..n];
    CrossProductLength(init, fs);
    RowShape(cs[n], fs);
    assert CrossProduct(cs, fs) == CrossProduct(init, fs) + Row(cs[n], fs);
    if i < n {
      CrossProductAt(init, fs, i, j);
    } else {
      MulNext(n, |fs|);
    }
  }

  /** A condition is in the list exactly when its contrast is one of the
      contrast levels and its frequency one of the frequencies. */
  lemma CrossProductMembers<C, F>(cs: seq<C>, fs: seq<F>, x: Condition<C, F>)
    ensures x in CrossProduct(cs, fs) <==> x.contrast in cs && x.freq in fs
  {
    if x.contrast in cs && x.freq in fs {
      var i :| 0 <= i < |cs| && cs[i] == x.contrast;
      var j :| 0 <= j < |fs| && fs[j] == x.freq;
      CrossProductAt(cs, fs, i, j);
    }
    if x in CrossProduct(cs, fs) {
      CrossProductMembersOnly(cs, fs, x);
    }
  }

  /** Only pairs drawn from the two lists are in the list. */
  lemma {:induction false} CrossProductMembersOnly<C, F>(cs: seq<C>, fs: seq<F>, x: Condition<C, F>)
    requires x in CrossProduct(cs, fs)
    ensures x.contrast in cs && x.freq in fs
  {
    var n := |cs| - 1;
    var init := cs[..n];
    assert cs == init + [cs[n]];
    if x in CrossProduct(init, fs) {
      CrossProductMembersOnly(init, fs, x);
    } else {
      RowShape(cs[n], fs);
      var j :| 0 <= j < |fs| && Row(cs[n], fs)[j] == x;
    }
  }

  /** A condition occurs in a row as often as its frequency occurs in fs, and
      not at all if its contrast is another one. */
  lemma {:induction false} RowCount<C, F>(c: C, fs: seq<F>, x: Condition<C, F>)
    ensures multiset(Row(c, fs))[x] == if x.contrast == c then multiset(fs)[x.freq] else 0
  {
    if |fs| > 0 {
      var init := fs[..|fs| - 1];
      RowCount(c, init, x);
      assert fs == init + [fs[|fs| - 1]];
    }
  }

  /** Each pair (c, f) occurs as often as c occurs among the contrasts times
      as often as f occurs among the frequencies. */
  lemma {:induction false} CrossProductCount<C, F>(cs: seq<C>, fs: seq<F>, x: Condition<C, F>)
    ensures multiset(CrossProduct(cs, fs))[x] == multiset(cs)[x.contrast] * multiset(fs)[x.freq]
  {
    if |cs| > 0 {
      var init := cs[..|cs| - 1];
      var last := cs[|cs| - 1];
      CrossProductCount(init, fs, x);
      RowCount(last, fs, x);
      MultisetOfSnoc(cs);
      var a := multiset(init)[x.contrast];
      var m := multiset(fs)[x.freq];
      var k := if last == x.contrast then 1 else 0;
      assert multiset(cs)[x.contrast] == a + k;
      assert multiset(CrossProduct(cs, fs))[x] == a * m + k * m;
      MulNext(a, m);
      assert (a + k) * m == a * m + k * m;
    }
  }

  /** Splitting off the last element of a non-empty sequence. */
  lemma MultisetOfSnoc<T>(s: seq<T>)
    requires |s| > 0
    ensures multiset(s) == multiset(s[..|s| - 1]) + multiset{s[|s| - 1]}
  {
    assert s == s[..|s| - 1] + [s[|s| - 1]];
  }

  /** (a + 1) * m == a * m + m, for the row-by-row counts above. */
  lemma MulNext(a: int, m: int)
    ensures (a + 1) * m == a * m + m
  {
  }

  lemma MulPositive(a: int, m: int)
    requires a > 0 && m > 0
    ensures a * m > 0
  {
  }

  /** With no repeated contrast level and no repeated frequency, every
      condition of the list occurs in it exactly once. */
  lemma UniqueConditions<C, F>(cs: seq<C>, fs: seq<F>)
    requires forall c :: c in cs ==> multiset(cs)[c] == 1
    requires forall f :: f in fs ==> multiset(fs)[f] == 1
    ensures forall x :: x in CrossProduct(cs, fs) ==> multiset(CrossProduct(cs, fs))[x] == 1
  {
    forall x | x in CrossProduct(cs, fs)
      ensures multiset(CrossProduct(cs, fs))[x] == 1
    {
      CrossProductMembers(cs, fs, x);
      CrossProductCount(cs, fs, x);
    }
  }
}
