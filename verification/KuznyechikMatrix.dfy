/** The matrix of apply_L (generators/kuzn.c:175-196) is the sixteenth power of the feedback register that
    RFC 7801 defines L by, and nonsingular. */
module KuznyechikMatrix {
  import opened ByteTables
  import opened GaloisField
  import opened Union128
  import opened Kuznyechik
  import opened KuznyechikRows

  function LMatrix(): Matrix { seq(16, k requires 0 <= k < 16 => Row(k)) }

  /** R of RFC 7801, section 4.3: the bytes move one place down and the feedback comes in at the top. */
  function Feedback(v: Vec): Vec { v[1..] + [RowSum(TAPS, v, 16)] }

  function Steps(v: Vec, n: nat): Vec {
    if n == 0 then v else Feedback(Steps(v, n - 1))
  }

  // ----- The matrix is the sixteenth power of the register -----

  /** A row of the next power applied to v is the row itself applied to the register's next state. */
  lemma {:induction false} NextRowPartial(row: Vec, v: Vec, n: nat)
    requires 1 <= n <= 16
    ensures RowSum(NextRow(row), v, n)
         == Add(RowSum(row, Feedback(v), n - 1), Multiply(row[15], RowSum(TAPS, v, n)))
  {
    hide Add, Multiply, TAPS;
    var r, t, x := row[15], TAPS[n - 1], v[n - 1];
    MultiplyAssociates(r, t, x);
    if n == 1 {
      AddZero(Multiply(r, t));
      AddZero(Multiply(t, x));
      AddZero(Multiply(Multiply(r, t), x));
      assert RowSum(TAPS, v, 1) == Add(0, Multiply(t, x));
      assert RowSum(NextRow(row), v, 1) == Add(0, Multiply(Add(0, Multiply(r, t)), x));
    } else {
      NextRowPartial(row, v, n - 1);
      var p := row[n - 2];
      MultiplyDistributesLeft(p, Multiply(r, t), x);
      MultiplyDistributes(r, RowSum(TAPS, v, n - 1), Multiply(t, x));
      AddExchange(RowSum(row, Feedback(v), n - 2), Multiply(r, RowSum(TAPS, v, n - 1)),
                  Multiply(p, x), Multiply(r, Multiply(t, x)));
      assert Feedback(v)[n - 2] == x;
    }
  }

  lemma NextRowSum(row: Vec, v: Vec)
    ensures RowSum(NextRow(row), v, 16) == RowSum(row, Feedback(v), 16)
  {
    hide Add, Multiply, NextRow;
    NextRowPartial(row, v, 16);
    assert Feedback(v)[15] == RowSum(TAPS, v, 16);
  }

  lemma {:induction false} StepsFromNext(v: Vec, n: nat)
    ensures Steps(Feedback(v), n) == Steps(v, n + 1)
  {
    hide Feedback;
    if n > 0 {
      StepsFromNext(v, n - 1);
    }
  }

  lemma FirstRow()
    ensures Row(0) == TAPS
  {
    TapValues();
  }

  /** Row k gives the feedback of the register after k moves. */
  lemma {:induction false} RowIsFeedback(v: Vec, k: nat)
    requires k < 16
    ensures RowSum(Row(k), v, 16) == RowSum(TAPS, Steps(v, k), 16)
    decreases k
  {
    hide RowSum, Row, NextRow, Feedback;
    if k == 0 {
      FirstRow();
    } else {
      RowFollows(k - 1);
      NextRowSum(Row(k - 1), v);
      RowIsFeedback(Feedback(v), k - 1);
      StepsFromNext(v, k - 1);
    }
  }

  lemma {:induction false} StepsCells(v: Vec, n: nat, i: nat)
    requires i < n <= 16
    ensures Steps(v, n)[16 - n + i] == RowSum(TAPS, Steps(v, i), 16)
  {
    hide RowSum;
    if i < n - 1 {
      StepsCells(v, n - 1, i);
    }
  }

  /** L is R^16: multiplying by the matrix of the source is moving the register sixteen times. */
  lemma LIsSixteenSteps(v: Vec)
    ensures MatVec(LMatrix(), v) == Steps(v, 16)
  {
    hide RowSum, Row, Steps;
    forall i | 0 <= i < 16
      ensures MatVec(LMatrix(), v)[i] == Steps(v, 16)[i]
    {
      RowIsFeedback(v, i);
      StepsCells(v, 16, i);
    }
  }

  // ----- and therefore nonsingular -----

  lemma OneTimes(x: bv8)
    ensures Multiply(0x01, x) == x
  {
    ExpandedIsMultiply(0x01, x);
  }

  lemma AddCancels(a: bv8, b: bv8, c: bv8)
    requires Add(a, c) == Add(b, c)
    ensures a == b
  {
  }

  lemma {:induction false} LowestByte(v: Vec, w: Vec, n: nat)
    requires 1 <= n <= 16 && v[1..] == w[1..] && RowSum(TAPS, v, n) == RowSum(TAPS, w, n)
    ensures v[0] == w[0]
  {
    hide Add, Multiply;
    if n == 1 {
      TapValues();
      OneTimes(v[0]);
      OneTimes(w[0]);
      AddZero(v[0]);
      AddZero(w[0]);
      assert RowSum(TAPS, v, 1) == Add(0, Multiply(TAPS[0], v[0]));
      assert RowSum(TAPS, w, 1) == Add(0, Multiply(TAPS[0], w[0]));
    } else {
      assert v[n - 1] == v[1..][n - 2] == w[1..][n - 2] == w[n - 1];
      AddCancels(RowSum(TAPS, v, n - 1), RowSum(TAPS, w, n - 1), Multiply(TAPS[n - 1], v[n - 1]));
      LowestByte(v, w, n - 1);
    }
  }

  lemma FeedbackInjective(v: Vec, w: Vec)
    requires Feedback(v) == Feedback(w)
    ensures v == w
  {
    hide RowSum;
    var p, q := Feedback(v), Feedback(w);
    assert v[1..] == p[..15] && w[1..] == q[..15];
    assert p[15] == RowSum(TAPS, v, 16) && q[15] == RowSum(TAPS, w, 16);
    LowestByte(v, w, 16);
    assert v == [v[0]] + v[1..] && w == [w[0]] + w[1..];
  }

  lemma {:induction false} StepsInjective(v: Vec, w: Vec, n: nat)
    requires Steps(v, n) == Steps(w, n)
    ensures v == w
  {
    hide Feedback;
    if n > 0 {
      FeedbackInjective(Steps(v, n - 1), Steps(w, n - 1));
      StepsInjective(v, w, n - 1);
    }
  }

  lemma LNonsingular()
    ensures Nonsingular(LMatrix())
  {
    hide MatVec, LMatrix;
    forall v: Vec, w: Vec | MatVec(LMatrix(), v) == MatVec(LMatrix(), w)
      ensures v == w
    {
      LIsSixteenSteps(v);
      LIsSixteenSteps(w);
      StepsInjective(v, w, 16);
    }
  }

  /** With the matrix of the source and any bijective substitution no two counters share a block. */
  lemma SourceEncryptInjective(pi: Sbox, keys: seq<Words>, a: Words, b: Words)
    requires |keys| == 10 && Injective(pi) && Encrypt(LMatrix(), pi, keys, a) == Encrypt(LMatrix(), pi, keys, b)
    ensures a == b
  {
    hide Encrypt, Injective, Nonsingular, LMatrix;
    LNonsingular();
    EncryptInjective(LMatrix(), pi, keys, a, b);
  }

  // ----- The constants of the key schedule -----

  lemma FirstColumn(k: nat)
    requires k < 16
    ensures Row(k)[0] == Unpack(Words(0x5d27bd10dd849401, 0x6ea276726c487ab8))[k]
  {
  }

  /** C_1, the constant of the first round of the schedule, is the first column of the matrix. */
  lemma FirstConstant()
    ensures Constant(LMatrix(), 1) == Words(0x5d27bd10dd849401, 0x6ea276726c487ab8)
  {
    hide Multiply, Unpack, Constant, Expanded, Row;
    var w := Words(0x5d27bd10dd849401, 0x6ea276726c487ab8);
    var c := Constant(LMatrix(), 1);
    forall k | 0 <= k < 16 ensures Unpack(c)[k] == Unpack(w)[k] {
      ConstantBytes(LMatrix(), 1, k);
      ExpandedIsMultiply(Row(k)[0], 1);
      TimesOne(Row(k)[0]);
      FirstColumn(k);
    }
    assert Unpack(c) == Unpack(w);
    PackUnpack(Unpack(c), c);
    PackUnpack(Unpack(w), w);
  }
}
