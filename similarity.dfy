/** The similarity measure of has_similar.  For a query q and a stored row,
    numpy computes bitwise_xor(~q, row).sum() / len(row): on a boolean array
    `~` is logical NOT, so a position contributes 1 exactly where
    (NOT q[i]) XOR row[i] holds.  The score of a set of rows is the largest
    score of any row, and 0 when there is none. */
module Similarity {

  type Fingerprint = seq<bool>

  /** The cut-off at or above which handle_images treats an image as a near
      duplicate of a stored one. */
  const SimilarThreshold: real := 0.9

  /** The popcount of (NOT q) XOR row, as the source computes it. */
  function XorCount(q: Fingerprint, row: Fingerprint): (n: nat)
    requires |q| == |row|
    ensures n <= |q|
  {
    if |q| == 0 then 0
    else (if (!q[0]) != row[0] then 1 else 0) + XorCount(q[1..], row[1..])
  }

  /** The number of positions where the two fingerprints hold the same bit. */
  function Agreement(q: Fingerprint, row: Fingerprint): nat
    requires |q| == |row|
  {
    if |q| == 0 then 0
    else (if q[0] == row[0] then 1 else 0) + Agreement(q[1..], row[1..])
  }

  /** The score of one row: the xor popcount over the fingerprint length.
      For length 0 numpy divides 0 by 0 and gets NaN, which never exceeds the
      running maximum; 0.0 has the same effect there. */
  function RowScore(q: Fingerprint, row: Fingerprint): (s: real)
    requires |q| == |row|
    ensures 0.0 <= s <= 1.0
  {
    if |q| == 0 then 0.0 else XorCount(q, row) as real / |q| as real
  }

  predicate Uniform(rows: seq<Fingerprint>, width: nat) {
    forall i :: 0 <= i < |rows| ==> |rows[i]| == width
  }

  function Max(a: real, b: real): real {
    if a < b then b else a
  }

  /** The highest score of any row, 0 for no rows. */
  function MaxScore(q: Fingerprint, rows: seq<Fingerprint>): (s: real)
    requires Uniform(rows, |q|)
    ensures 0.0 <= s <= 1.0
    decreases |rows|
  {
    if |rows| == 0 then 0.0
    else Max(RowScore(q, rows[0]), MaxScore(q, rows[1..]))
  }

  /** (NOT q[i]) XOR row[i] is true exactly where q[i] == row[i], so the xor
      popcount is the agreement count. */
  lemma {:induction false} XorCountIsAgreement(q: Fingerprint, row: Fingerprint)
    requires |q| == |row|
    ensures XorCount(q, row) == Agreement(q, row)
    decreases |q|
  {
    if |q| > 0 {
      XorCountIsAgreement(q[1..], row[1..]);
    }
  }

  /** Two fingerprints agree everywhere exactly when they are equal. */
  lemma {:induction false} FullAgreementIsEquality(q: Fingerprint, row: Fingerprint)
    requires |q| == |row|
    ensures Agreement(q, row) <= |q|
    ensures Agreement(q, row) == |q| <==> q == row
    decreases |q|
  {
    if |q| > 0 {
      FullAgreementIsEquality(q[1..], row[1..]);
      if q[1..] == row[1..] && q[0] == row[0] {
        assert q == [q[0]] + q[1..] && row == [row[0]] + row[1..];
      }
    }
  }

  /** A row scores 1 exactly when it is a copy of the query. */
  lemma ScoreOneIffCopy(q: Fingerprint, row: Fingerprint)
    requires |q| == |row| && |q| > 0
    ensures RowScore(q, row) == 1.0 <==> q == row
  {
    XorCountIsAgreement(q, row);
    FullAgreementIsEquality(q, row);
    var n := XorCount(q, row) as real;
    var w := |q| as real;
    if n / w == 1.0 {
      assert n == (n / w) * w;
    }
  }

  /** The 0.9 test on a row's score is the integer test 10 * agree >= 9 * L. */
  lemma ThresholdAsAgreement(q: Fingerprint, row: Fingerprint)
    requires |q| == |row| && |q| > 0
    ensures RowScore(q, row) >= SimilarThreshold <==> 10 * Agreement(q, row) >= 9 * |q|
  {
    XorCountIsAgreement(q, row);
    ScoreThreshold(XorCount(q, row), |q|);
  }

  lemma ScoreThreshold(n: nat, l: nat)
    requires l > 0
    ensures n as real / l as real >= 0.9 <==> 10 * n >= 9 * l
  {
    QuotientAtLeast(n as real, l as real, 0.9);
    NinetyPercent(n, l);
  }

  lemma NinetyPercent(a: nat, l: nat)
    ensures a as real >= 0.9 * l as real <==> 10 * a >= 9 * l
  {
    assert (10 * a) as real == 10.0 * a as real;
    assert (9 * l) as real == 9.0 * l as real;
  }

  lemma QuotientAtLeast(n: real, w: real, t: real)
    requires w > 0.0
    ensures n / w >= t <==> n >= t * w
  {
    var s := n / w;
    assert s * w == n;
    if s >= t {
      assert (s - t) * w >= 0.0;
    } else {
      assert (t - s) * w > 0.0;
    }
  }

  /** For a deployed 96-bit fingerprint a row is a near duplicate exactly when
      at least 87 bits agree, that is, at most 9 differ. */
  lemma DeployedThreshold(q: Fingerprint, row: Fingerprint)
    requires |q| == |row| == 96
    ensures RowScore(q, row) >= SimilarThreshold <==> Agreement(q, row) >= 87
  {
    ThresholdAsAgreement(q, row);
  }

  /** The score of the rows is at least every row's score and, when there
      are rows, equal to the score of one of them. */
  lemma {:induction false} MaxScoreIsMaximum(q: Fingerprint, rows: seq<Fingerprint>)
    requires Uniform(rows, |q|)
    ensures forall i :: 0 <= i < |rows| ==> RowScore(q, rows[i]) <= MaxScore(q, rows)
    ensures |rows| > 0 ==> exists i :: 0 <= i < |rows| && RowScore(q, rows[i]) == MaxScore(q, rows)
    decreases |rows|
  {
    if |rows| > 0 {
      var tail := rows[1..];
      MaxScoreIsMaximum(q, tail);
      forall i | 0 < i < |rows| ensures RowScore(q, rows[i]) <= MaxScore(q, rows) {
        assert rows[i] == tail[i - 1];
      }
      if |tail| > 0 && MaxScore(q, rows) == MaxScore(q, tail) {
        var i :| 0 <= i < |tail| && RowScore(q, tail[i]) == MaxScore(q, tail);
        assert rows[i + 1] == tail[i];
      }
    }
  }

  /** Scanning two runs of rows one after the other gives the larger of the
      two scores; this is why scanning batch by batch is a scan of all rows. */
  lemma {:induction false} MaxScoreConcat(q: Fingerprint, a: seq<Fingerprint>, b: seq<Fingerprint>)
    requires Uniform(a, |q|) && Uniform(b, |q|)
    ensures Uniform(a + b, |q|)
    ensures MaxScore(q, a + b) == Max(MaxScore(q, a), MaxScore(q, b))
    decreases |a|
  {
    if |a| == 0 {
      assert a + b == b;
    } else {
      assert (a + b)[1..] == a[1..] + b;
      MaxScoreConcat(q, a[1..], b);
    }
  }

  /** Appending a fingerprint never lowers the score of any query. */
  lemma AppendNeverLowers(q: Fingerprint, rows: seq<Fingerprint>, f: Fingerprint)
    requires Uniform(rows, |q|) && |f| == |q|
    ensures Uniform(rows + [f], |q|)
    ensures MaxScore(q, rows + [f]) == Max(MaxScore(q, rows), RowScore(q, f))
    ensures MaxScore(q, rows + [f]) >= MaxScore(q, rows)
  {
    MaxScoreConcat(q, rows, [f]);
  }

  /** Once a copy of the query is stored, the query scores 1; and it scores
      1 only against a stored copy. */
  lemma MaxScoreOneIffStored(q: Fingerprint, rows: seq<Fingerprint>)
    requires Uniform(rows, |q|) && |q| > 0
    ensures MaxScore(q, rows) == 1.0 <==> q in rows
  {
    MaxScoreIsMaximum(q, rows);
    if q in rows {
      var i :| 0 <= i < |rows| && rows[i] == q;
      ScoreOneIffCopy(q, rows[i]);
    }
    if MaxScore(q, rows) == 1.0 {
      var i :| 0 <= i < |rows| && RowScore(q, rows[i]) == MaxScore(q, rows);
      ScoreOneIffCopy(q, rows[i]);
    }
  }

  /** The duplicate test on the whole store: the score reaches 0.9 exactly
      when some stored row agrees with the query on at least 90% of bits. */
  lemma DuplicateIffClose(q: Fingerprint, rows: seq<Fingerprint>)
    requires Uniform(rows, |q|) && |q| > 0
    ensures MaxScore(q, rows) >= SimilarThreshold <==>
            exists i :: 0 <= i < |rows| && 10 * Agreement(q, rows[i]) >= 9 * |q|
  {
    MaxScoreIsMaximum(q, rows);
    if MaxScore(q, rows) >= SimilarThreshold {
      var i :| 0 <= i < |rows| && RowScore(q, rows[i]) == MaxScore(q, rows);
      ThresholdAsAgreement(q, rows[i]);
    }
    if exists i :: 0 <= i < |rows| && 10 * Agreement(q, rows[i]) >= 9 * |q| {
      var i :| 0 <= i < |rows| && 10 * Agreement(q, rows[i]) >= 9 * |q|;
      ThresholdAsAgreement(q, rows[i]);
    }
  }
}
