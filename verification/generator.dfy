/** Candidate enumeration (app.py, generate_passwords lines 32-34): every
    string of every length from lo to hi over an alphabet, shortest first,
    and within one length in itertools.product order, the right-most
    position advancing fastest. */
module Generator {
  import opened Seqs

  function Pow(b: nat, e: nat): nat
    decreases e
  {
    if e == 0 then 1 else b * Pow(b, e - 1)
  }

  /** The sum of b^L for L from lo to hi; zero when the range is empty. */
  function SumPow(b: nat, lo: nat, hi: int): nat
    decreases hi - lo
  {
    if hi < lo then 0 else Pow(b, lo) + SumPow(b, lo + 1, hi)
  }

  /** w is spelled with characters of a only. */
  predicate Over(a: string, w: string) {
    forall i :: 0 <= i < |w| ==> w[i] in a
  }

  /** The first position of c in a. */
  function IndexOf(a: string, c: char): (k: nat)
    requires c in a
    ensures k < |a| && a[k] == c
    ensures forall j :: 0 <= j < k ==> a[j] != c
  {
    if a[0] == c then 0 else IndexOf(a[1..], c) + 1
  }

  /** The number whose base-|a| digits, most significant first, are the
      alphabet positions of w's characters. */
  function Value(a: string, w: string): nat
    requires Over(a, w)
    decreases |w|
  {
    if |w| == 0 then 0
    else IndexOf(a, w[0]) * Pow(|a|, |w| - 1) + Value(a, w[1..])
  }

  /** Entry i of the product of a with ws, counting |ws| entries per
      character of a: a[i / |ws|] followed by ws[i % |ws|]. */
  function Cell(a: string, ws: seq<string>, i: nat): string
    requires i < |a| * |ws|
    decreases |a|
  {
    if i < |ws| then [a[0]] + ws[i]
    else
      MulSucc(|a| - 1, |ws|);
      Cell(a[1..], ws, i - |ws|)
  }

  /** The product of a with ws: the first character is the slow digit. */
  function Prepend(a: string, ws: seq<string>): seq<string> {
    seq(|a| * |ws|, i requires 0 <= i < |a| * |ws| => Cell(a, ws, i))
  }

  /** itertools.product(a, repeat=n), joined into strings. */
  function Words(a: string, n: nat): seq<string>
    decreases n
  {
    if n == 0 then [""] else Prepend(a, Words(a, n - 1))
  }

  /** The whole candidate sequence for lengths lo..hi. */
  function Candidates(a: string, lo: nat, hi: nat): seq<string>
    decreases hi - lo
  {
    if hi < lo then [] else Words(a, lo) + Candidates(a, lo + 1, hi)
  }

  // ---------------------------------------------------------------------
  // Arithmetic helpers

  lemma MulMono(x: nat, y: nat, z: nat)
    requires x <= y
    ensures x * z <= y * z
  {
  }

  lemma MulSucc(x: nat, y: nat)
    ensures (x + 1) * y == x * y + y
  {
  }

  lemma Decompose(i: nat, m: nat, n: nat)
    requires i < m * n
    ensures n > 0 && i / n < m && i == (i / n) * n + i % n && i % n < n
  {
    if i / n >= m {
      MulMono(m, i / n, n);
    }
  }

  /** The row and column of position i in an m-by-n grid. */
  lemma Split(i: nat, m: nat, n: nat) returns (j: nat, k: nat)
    requires i < m * n
    ensures j < m && k < n && i == j * n + k
  {
    Decompose(i, m, n);
    j, k := i / n, i % n;
  }

  // ---------------------------------------------------------------------
  // Counts

  /** itertools.product over k characters with repeat n yields k^n strings. */
  lemma {:induction false} WordsCount(a: string, n: nat)
    ensures |Words(a, n)| == Pow(|a|, n)
    decreases n
  {
    if n > 0 {
      WordsCount(a, n - 1);
    }
  }

  /** The generator yields the sum over the length range of k^L candidates. */
  lemma {:induction false} CandidatesCount(a: string, lo: nat, hi: nat)
    ensures |Candidates(a, lo, hi)| == SumPow(|a|, lo, hi)
    decreases hi - lo
  {
    if lo <= hi {
      assert Candidates(a, lo, hi) == Words(a, lo) + Candidates(a, lo + 1, hi);
      WordsCount(a, lo);
      CandidatesCount(a, lo + 1, hi);
    }
  }

  // ---------------------------------------------------------------------
  // Shape of one length's block

  /** The cell at (j, k) is a[j] followed by ws[k]. */
  lemma {:induction false} CellAt(a: string, ws: seq<string>, j: nat, k: nat)
    requires j < |a| && k < |ws|
    ensures j * |ws| + k < |a| * |ws|
    ensures Cell(a, ws, j * |ws| + k) == [a[j]] + ws[k]
    decreases j
  {
    MulMono(j + 1, |a|, |ws|);
    MulSucc(j, |ws|);
    if j > 0 {
      CellAt(a[1..], ws, j - 1, k);
      MulSucc(j - 1, |ws|);
      MulSucc(|a| - 1, |ws|);
    }
  }

  /** Every cell is a character of a followed by an element of ws. */
  lemma {:induction false} CellShape(a: string, ws: seq<string>, i: nat)
    requires i < |a| * |ws|
    ensures |Cell(a, ws, i)| > 0 && Cell(a, ws, i)[0] in a && Cell(a, ws, i)[1..] in ws
    decreases |a|
  {
    if i >= |ws| {
      MulSucc(|a| - 1, |ws|);
      CellShape(a[1..], ws, i - |ws|);
      assert Cell(a, ws, i)[0] in a[1..];
    } else {
      assert Cell(a, ws, i)[1..] == ws[i];
    }
  }

  /** A string is in the product exactly when its head is in a and its
      tail in ws. */
  lemma PrependMember(a: string, ws: seq<string>, w: string)
    ensures w in Prepend(a, ws) <==> |w| > 0 && w[0] in a && w[1..] in ws
  {
    var p := Prepend(a, ws);
    if w in p {
      var i :| 0 <= i < |p| && p[i] == w;
      CellShape(a, ws, i);
    }
    if |w| > 0 && w[0] in a && w[1..] in ws {
      var j :| 0 <= j < |a| && a[j] == w[0];
      var k :| 0 <= k < |ws| && ws[k] == w[1..];
      PrependAt(a, ws, j, k);
      assert w == [w[0]] + w[1..];
    }
  }

  /** The element of the product at (j, k) is a[j] followed by ws[k]. */
  lemma PrependAt(a: string, ws: seq<string>, j: nat, k: nat)
    requires j < |a| && k < |ws|
    ensures j * |ws| + k < |Prepend(a, ws)|
    ensures Prepend(a, ws)[j * |ws| + k] == [a[j]] + ws[k]
  {
    CellAt(a, ws, j, k);
  }

  lemma OverCons(a: string, w: string)
    requires |w| > 0
    ensures Over(a, w) <==> w[0] in a && Over(a, w[1..])
  {
    if w[0] in a && Over(a, w[1..]) {
      forall i | 0 <= i < |w| ensures w[i] in a {
        if i > 0 { assert w[i] == w[1..][i - 1]; }
      }
    }
  }

  /** Words of length n are exactly the length-n strings over a. */
  lemma WordsMembers(a: string, n: nat)
    ensures forall w :: w in Words(a, n) <==> |w| == n && Over(a, w)
  {
    forall w ensures w in Words(a, n) <==> |w| == n && Over(a, w) {
      WordsMember(a, n, w);
    }
  }

  lemma {:induction false} WordsMember(a: string, n: nat, w: string)
    ensures w in Words(a, n) <==> |w| == n && Over(a, w)
    decreases n
  {
    if n == 0 {
      if |w| == 0 { assert w == ""; }
    } else {
      PrependMember(a, Words(a, n - 1), w);
      if |w| > 0 {
        OverCons(a, w);
        WordsMember(a, n - 1, w[1..]);
      }
    }
  }

  lemma ValueOfCons(a: string, c: char, w: string)
    requires c in a && Over(a, w)
    ensures Over(a, [c] + w)
    ensures Value(a, [c] + w) == IndexOf(a, c) * Pow(|a|, |w|) + Value(a, w)
  {
    var v := [c] + w;
    assert v[0] == c && v[1..] == w && |v| - 1 == |w|;
    OverCons(a, v);
    assert Value(a, v) == IndexOf(a, v[0]) * Pow(|a|, |v| - 1) + Value(a, v[1..]);
  }

  lemma {:induction false} ValueBound(a: string, w: string)
    requires Over(a, w)
    ensures Value(a, w) < Pow(|a|, |w|)
    decreases |w|
  {
    if |w| > 0 {
      var p := Pow(|a|, |w| - 1);
      var d := IndexOf(a, w[0]);
      ValueBound(a, w[1..]);
      assert Value(a, w) == d * p + Value(a, w[1..]);
      assert Pow(|a|, |w|) == |a| * p;
      MulMono(d + 1, |a|, p);
      MulSucc(d, p);
    }
  }

  /** Order: the candidate at position i of a length's block is the base-|a|
      numeral of i, so the block runs through the strings in lexicographic
      order of alphabet positions with the right-most position fastest. */
  lemma WordsOrder(a: string, n: nat)
    requires Distinct(a)
    ensures forall i :: 0 <= i < |Words(a, n)| ==> Over(a, Words(a, n)[i]) && Value(a, Words(a, n)[i]) == i
  {
    forall i | 0 <= i < |Words(a, n)|
      ensures Over(a, Words(a, n)[i]) && Value(a, Words(a, n)[i]) == i
    {
      WordsValue(a, n, i);
    }
  }

  lemma {:induction false} WordsValue(a: string, n: nat, i: nat)
    requires Distinct(a) && i < |Words(a, n)|
    ensures Over(a, Words(a, n)[i]) && Value(a, Words(a, n)[i]) == i
    decreases n
  {
    if n > 0 {
      var ws := Words(a, n - 1);
      assert Words(a, n) == Prepend(a, ws);
      WordsCount(a, n - 1);
      var j, k := Split(i, |a|, |ws|);
      PrependAt(a, ws, j, k);
      assert Words(a, n)[i] == [a[j]] + ws[k];
      WordsValue(a, n - 1, k);
      ValueOfCons(a, a[j], ws[k]);
      assert IndexOf(a, a[j]) == j;
      WordsMember(a, n - 1, ws[k]);
    }
  }

  /** Completeness with position: every length-n string over a sits in the
      block at the position its numeral names. */
  lemma {:induction false} WordsPosition(a: string, w: string)
    requires Distinct(a) && Over(a, w)
    ensures Value(a, w) < |Words(a, |w|)| && Words(a, |w|)[Value(a, w)] == w
    decreases |w|
  {
    ValueBound(a, w);
    WordsCount(a, |w|);
    if |w| > 0 {
      var t := w[1..];
      assert Over(a, t);
      WordsPosition(a, t);
      var ws := Words(a, |t|);
      WordsCount(a, |t|);
      assert Words(a, |w|) == Prepend(a, ws);
      var j, k := IndexOf(a, w[0]), Value(a, t);
      assert Value(a, w) == j * |ws| + k;
      PrependAt(a, ws, j, k);
      assert w == [w[0]] + t;
    }
  }

  /** No length-n string is produced twice. */
  lemma WordsDistinct(a: string, n: nat)
    requires Distinct(a)
    ensures Distinct(Words(a, n))
  {
    WordsOrder(a, n);
  }

  /** u comes before v in the lexicographic order of alphabet positions:
      they agree up to some position, where u's character is earlier in a. */
  predicate LexBefore(a: string, u: string, v: string)
    requires Over(a, u) && Over(a, v) && |u| == |v|
  {
    exists p :: 0 <= p < |u| && u[..p] == v[..p] && IndexOf(a, u[p]) < IndexOf(a, v[p])
  }

  /** Comparing two numerals with the same number of digits: the leading
      digits decide, and on a tie the rest does. */
  lemma LeadingDigit(du: nat, dv: nat, p: nat, x: nat, y: nat)
    requires x < p && y < p && du * p + x < dv * p + y
    ensures du < dv || (du == dv && x < y)
  {
    if du > dv {
      MulMono(dv + 1, du, p);
      MulSucc(dv, p);
    }
  }

  /** Equal heads and equal prefixes of the tails make equal prefixes. */
  lemma ConsPrefix<T>(u: seq<T>, v: seq<T>, p: nat)
    requires p < |u| && p < |v|
    requires u[0] == v[0] && u[1..][..p] == v[1..][..p]
    ensures u[..p + 1] == v[..p + 1]
  {
    forall k | 0 < k < p + 1
      ensures u[k] == v[k]
    {
      assert u[k] == u[1..][..p][k - 1] && v[k] == v[1..][..p][k - 1];
    }
  }

  /** A smaller numeral is a lexicographically earlier string. */
  lemma {:induction false} ValueLex(a: string, u: string, v: string)
    requires Over(a, u) && Over(a, v) && |u| == |v|
    requires Value(a, u) < Value(a, v)
    ensures LexBefore(a, u, v)
    decreases |u|
  {
    if |u| > 0 {
      var du, dv := IndexOf(a, u[0]), IndexOf(a, v[0]);
      var u', v' := u[1..], v[1..];
      assert Over(a, u') && Over(a, v');
      ValueBound(a, u');
      ValueBound(a, v');
      LeadingDigit(du, dv, Pow(|a|, |u| - 1), Value(a, u'), Value(a, v'));
      if du < dv {
        assert u[..0] == v[..0];
      } else {
        ValueLex(a, u', v');
        var p :| 0 <= p < |u'| && u'[..p] == v'[..p] && IndexOf(a, u'[p]) < IndexOf(a, v'[p]);
        ConsPrefix(u, v, p);
        assert u[p + 1] == u'[p] && v[p + 1] == v'[p];
      }
    }
  }

  /** Within one length, candidates run in strictly increasing lexicographic
      order of alphabet positions (itertools.product order). */
  lemma WordsLexOrdered(a: string, n: nat)
    requires Distinct(a)
    ensures forall i, j :: 0 <= i < j < |Words(a, n)| ==>
              Over(a, Words(a, n)[i]) && Over(a, Words(a, n)[j])
              && |Words(a, n)[i]| == |Words(a, n)[j]|
              && LexBefore(a, Words(a, n)[i], Words(a, n)[j])
  {
    WordsOrder(a, n);
    WordsMembers(a, n);
    forall i, j | 0 <= i < j < |Words(a, n)|
      ensures Over(a, Words(a, n)[i]) && Over(a, Words(a, n)[j])
              && |Words(a, n)[i]| == |Words(a, n)[j]|
              && LexBefore(a, Words(a, n)[i], Words(a, n)[j])
    {
      var u, v := Words(a, n)[i], Words(a, n)[j];
      assert u in Words(a, n) && v in Words(a, n);
      ValueLex(a, u, v);
    }
  }

  // ---------------------------------------------------------------------
  // The whole candidate sequence

  /** Completeness and soundness: the candidates are exactly the strings over
      a whose length lies in lo..hi. */
  lemma {:induction false} CandidatesMember(a: string, lo: nat, hi: nat, w: string)
    ensures w in Candidates(a, lo, hi) <==> lo <= |w| <= hi && Over(a, w)
    decreases hi - lo
  {
    if lo <= hi {
      var ws, r := Words(a, lo), Candidates(a, lo + 1, hi);
      assert Candidates(a, lo, hi) == ws + r;
      assert w in ws + r <==> w in ws || w in r;
      WordsMember(a, lo, w);
      CandidatesMember(a, lo + 1, hi, w);
    }
  }

  /** Candidates are grouped by length, shortest first. */
  lemma CandidatesLengths(a: string, lo: nat, hi: nat)
    ensures forall i :: 0 <= i < |Candidates(a, lo, hi)| ==> lo <= |Candidates(a, lo, hi)[i]| <= hi
    ensures forall i, j :: 0 <= i <= j < |Candidates(a, lo, hi)| ==>
              |Candidates(a, lo, hi)[i]| <= |Candidates(a, lo, hi)[j]|
  {
    forall i | 0 <= i < |Candidates(a, lo, hi)|
      ensures lo <= |Candidates(a, lo, hi)[i]| <= hi
    {
      CandidatesMember(a, lo, hi, Candidates(a, lo, hi)[i]);
    }
    forall i, j | 0 <= i <= j < |Candidates(a, lo, hi)|
      ensures |Candidates(a, lo, hi)[i]| <= |Candidates(a, lo, hi)[j]|
    {
      CandidateLengthOrder(a, lo, hi, i, j);
    }
  }

  /** One step of the definition: the shortest length's block, then the rest. */
  lemma CandidatesStep(a: string, lo: nat, hi: nat)
    ensures hi < lo ==> Candidates(a, lo, hi) == []
    ensures lo <= hi ==> Candidates(a, lo, hi) == Words(a, lo) + Candidates(a, lo + 1, hi)
  {
  }

  lemma WordsLength(a: string, n: nat, i: nat)
    requires i < |Words(a, n)|
    ensures |Words(a, n)[i]| == n
  {
    WordsMember(a, n, Words(a, n)[i]);
  }

  lemma CandidateLength(a: string, lo: nat, hi: nat, i: nat)
    requires i < |Candidates(a, lo, hi)|
    ensures lo <= |Candidates(a, lo, hi)[i]| <= hi
  {
    CandidatesMember(a, lo, hi, Candidates(a, lo, hi)[i]);
  }

  lemma {:induction false} CandidateLengthOrder(a: string, lo: nat, hi: nat, i: nat, j: nat)
    requires i <= j < |Candidates(a, lo, hi)|
    ensures |Candidates(a, lo, hi)[i]| <= |Candidates(a, lo, hi)[j]|
    decreases hi - lo
  {
    var c, w, r := Candidates(a, lo, hi), Words(a, lo), Candidates(a, lo + 1, hi);
    CandidatesStep(a, lo, hi);
    if j < |w| {
      WordsLength(a, lo, i);
      WordsLength(a, lo, j);
      assert |c[i]| == |w[i]| == lo && |c[j]| == |w[j]| == lo;
    } else if i >= |w| {
      CandidateLengthOrder(a, lo + 1, hi, i - |w|, j - |w|);
      assert |c[i]| == |r[i - |w|]| && |c[j]| == |r[j - |w|]|;
    } else {
      WordsLength(a, lo, i);
      CandidateLength(a, lo + 1, hi, j - |w|);
      assert |c[i]| == |w[i]| == lo && |c[j]| == |r[j - |w|]| > lo;
    }
  }

  /** No candidate is produced twice, given an alphabet without repeats. */
  lemma {:induction false} CandidatesDistinct(a: string, lo: nat, hi: nat)
    requires Distinct(a)
    ensures Distinct(Candidates(a, lo, hi))
    decreases hi - lo
  {
    if lo <= hi {
      var w, r := Words(a, lo), Candidates(a, lo + 1, hi);
      assert Candidates(a, lo, hi) == w + r;
      CandidatesDistinct(a, lo + 1, hi);
      WordsDistinct(a, lo);
      forall x | x in w
        ensures x !in r
      {
        WordsMember(a, lo, x);
        CandidatesMember(a, lo + 1, hi, x);
      }
      AppendDistinct(w, r);
    }
  }

  /** The candidates of length L form one contiguous block, preceded by all
      shorter candidates of the range. */
  lemma {:induction false} CandidatesBlock(a: string, lo: nat, hi: nat, L: nat)
    requires lo <= L <= hi
    ensures SumPow(|a|, lo, L - 1) + Pow(|a|, L) <= |Candidates(a, lo, hi)|
    ensures Candidates(a, lo, hi)[SumPow(|a|, lo, L - 1) .. SumPow(|a|, lo, L - 1) + Pow(|a|, L)] == Words(a, L)
    decreases L - lo
  {
    var c, w, r := Candidates(a, lo, hi), Words(a, lo), Candidates(a, lo + 1, hi);
    CandidatesStep(a, lo, hi);
    WordsCount(a, lo);
    if L == lo {
      AppendSlices(w, r, 0, 0);
    } else {
      CandidatesBlock(a, lo + 1, hi, L);
      var off := SumPow(|a|, lo + 1, L - 1);
      assert SumPow(|a|, lo, L - 1) == |w| + off;
      AppendSlices(w, r, off, Pow(|a|, L));
    }
  }

  /** Slicing a concatenation at the seam, or inside its second part. */
  lemma AppendSlices<T>(w: seq<T>, r: seq<T>, off: nat, n: nat)
    requires off + n <= |r|
    ensures (w + r)[..|w|] == w
    ensures (w + r)[|w| + off .. |w| + off + n] == r[off .. off + n]
  {
  }

  /** A worked case: over "ab" with lengths 1..2. */
  lemma SmallExample()
    ensures Candidates("ab", 1, 2) == ["a", "b", "aa", "ab", "ba", "bb"]
  {
    var w0: seq<string> := [""];
    var w1 := Words("ab", 1);
    assert w1 == Prepend("ab", w0);
    PrependAt("ab", w0, 0, 0);
    PrependAt("ab", w0, 1, 0);
    assert w1[0] == ['a'] + "" == "a";
    assert w1[1] == ['b'] + "" == "b";
    assert w1 == ["a", "b"];
    var w2 := Words("ab", 2);
    assert w2 == Prepend("ab", w1);
    PrependAt("ab", w1, 0, 0);
    PrependAt("ab", w1, 0, 1);
    PrependAt("ab", w1, 1, 0);
    PrependAt("ab", w1, 1, 1);
    assert w2[0] == ['a'] + "a" == "aa";
    assert w2[1] == ['a'] + "b" == "ab";
    assert w2[2] == ['b'] + "a" == "ba";
    assert w2[3] == ['b'] + "b" == "bb";
    assert w2 == ["aa", "ab", "ba", "bb"];
    assert Candidates("ab", 1, 2) == w1 + w2 + [];
  }

}
