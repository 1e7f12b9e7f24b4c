/** The sign-sign adaptive FIR predictor, `predictorDecompressFirAdapt`. */
module Fir {
  import opened MachineInt

  const TABLE_SIZE := 32

  /** The coefficient table. Go passes it by value, so each call works on its own copy. */
  type Table = t: seq<int16> | |t| == TABLE_SIZE witness seq(TABLE_SIZE, _ => 0)

  datatype Params = Params(readSampleSize: int, coefNum: int, quantization: int) {
    predicate Valid() {
      0 <= coefNum < TABLE_SIZE && 0 <= quantization
    }

    /** A read size that leaves something of a sample. */
    predicate Sized() {
      Valid() && 1 <= readSampleSize <= 32
    }
  }

  const MAX_COEF_NUM := 31  // 11111 in the header: predict from the previous sample only

  function SignOnly(v: int): (r: int)
    ensures -1 <= r <= 1 && (r > 0 <==> v > 0) && (r < 0 <==> v < 0)
  {
    if v < 0 then -1 else if v > 0 then 1 else 0
  }

  // ----- one step of the general case, on the window buffer_out[0..coefNum] -----

  function Sum(w: seq<int32>, table: Table, n: nat, j: nat): int
    requires j <= n < |w| && n <= TABLE_SIZE
  {
    if j == 0 then 0
    else Sum(w, table, n, j - 1) + Mul32(Sub32(w[n - (j - 1)], w[0]), table[j - 1])
  }

  /** `1 << uint(q-1)`: the shift count of q == 0 is huge and leaves 0. */
  function Rounding(q: nat): int {
    if q == 0 then 0 else Pow2(q - 1)
  }

  function Predict(w: seq<int32>, table: Table, n: nat, q: nat): int
    requires n < |w| && n <= TABLE_SIZE
  {
    Shr(Rounding(q) + Sum(w, table, n, n), q) + w[0]
  }

  /** The correction loop for an error of sign `dir`: coefficients from `last` down to 0 move by
      one towards it until the remaining error changes sign. */
  function Adapt(w: seq<int32>, table: Table, error: int32, n: nat, q: nat, last: int, dir: int): Table
    requires n < |w| && n <= TABLE_SIZE && last < n
    decreases last + 1
  {
    if last < 0 || error * dir <= 0 then table else
    var val := Sub32(w[0], w[n - last]);
    var sign := dir * SignOnly(val);
    Adapt(w, table[last := Wrap16(table[last] - sign)],
          Sub32(error, Wrap32(Shr(val * sign, q) * (n - last))), n, q, last - 1, dir)
  }

  function NextTable(w: seq<int32>, table: Table, error: int32, n: nat, q: nat): Table
    requires n < |w| && n <= TABLE_SIZE
  {
    Adapt(w, table, error, n, q, n - 1, SignOnly(error))
  }

  // ----- decoding -----

  /** How output i is obtained. */
  datatype Mode = Copy | Delta | General

  function ModeAt(i: nat, p: Params): Mode {
    if i == 0 || p.coefNum == 0 then Copy
    else if p.coefNum == MAX_COEF_NUM || i <= p.coefNum then Delta
    else General
  }

  function Window(out: seq<int32>, i: nat, n: nat): (w: seq<int32>)
    requires n < i <= |out|
    ensures |w| == n + 1
  {
    out[i - n - 1..i]
  }

  /** What output i is predicted to be, before its error is added. */
  function Prediction(out: seq<int32>, i: nat, table: Table, p: Params): int
    requires p.Valid() && i <= |out|
  {
    match ModeAt(i, p)
    case Copy => 0
    case Delta => out[i - 1]
    case General => Predict(Window(out, i, p.coefNum), table, p.coefNum, p.quantization)
  }

  function TableAfter(out: seq<int32>, i: nat, table: Table, error: int32, p: Params): Table
    requires p.Valid() && i <= |out|
  {
    if ModeAt(i, p) == General
    then NextTable(Window(out, i, p.coefNum), table, error, p.coefNum, p.quantization)
    else table
  }

  /** The first i outputs and the table the predictor has reached after them. */
  function Run(errors: seq<int32>, i: nat, table: Table, p: Params): (r: (seq<int32>, Table))
    requires p.Valid() && i <= |errors|
    ensures |r.0| == i
  {
    if i == 0 then ([], table) else
    var (out, t) := Run(errors, i - 1, table, p);
    var error := errors[i - 1];
    var value := if ModeAt(i - 1, p) == Copy then error
                 else SignExtended32(Add32(Prediction(out, i - 1, t, p), error), p.readSampleSize);
    (out + [value], TableAfter(out, i - 1, t, error, p))
  }

  /** Outputs depend on no error beyond their own position. */
  lemma {:induction false} RunDependsOnPrefix(a: seq<int32>, b: seq<int32>, i: nat, table: Table, p: Params)
    requires p.Valid() && i <= |a| && i <= |b| && a[..i] == b[..i]
    ensures Run(a, i, table, p) == Run(b, i, table, p)
  {
    hide Prediction, TableAfter;
    if i > 0 {
      assert a[..i - 1] == a[..i][..i - 1] == b[..i - 1];
      assert a[i - 1] == a[..i][i - 1] == b[i - 1];
      RunDependsOnPrefix(a, b, i - 1, table, p);
    }
  }

  lemma {:induction false} RunGrows(errors: seq<int32>, i: nat, j: nat, table: Table, p: Params)
    requires p.Valid() && i <= j <= |errors|
    ensures Run(errors, j, table, p).0[..i] == Run(errors, i, table, p).0
    decreases j
  {
    hide Prediction, TableAfter;
    if i < j {
      RunGrows(errors, i, j - 1, table, p);
    }
  }

  // ----- what the outputs and the tables are -----

  /** y is v truncated to a signed number of `bits` bits. */
  ghost predicate Truncated(y: int, v: int, bits: nat)
    requires bits >= 1
  {
    InRange(y, bits) && Congruent(y, v, bits)
  }

  /** The first j coefficients times the j newest of the outputs before i, newest first, each
      output taken relative to the one n + 1 before i. */
  function Dot(c: seq<int16>, x: seq<int32>, i: nat, n: nat, j: nat): int
    requires j <= n < i <= |x| && n <= |c|
  {
    if j == 0 then 0 else Dot(c, x, i, n, j - 1) + c[j - 1] * Step(x, i, n, j)
  }

  /** How far the output j before i is from the one n + 1 before i. */
  function Step(x: seq<int32>, i: nat, n: nat, j: nat): int
    requires 1 <= j <= n < i <= |x|
  {
    x[i - j] as int - x[i - n - 1] as int
  }

  predicate IsInt32(x: int) {
    -0x8000_0000 <= x < 0x8000_0000
  }

  predicate ProductsFit(c: seq<int16>, x: seq<int32>, i: nat, n: nat)
    requires n < i <= |x| && n <= |c|
  {
    forall j :: 1 <= j <= n ==> IsInt32(Step(x, i, n, j)) && IsInt32(c[j - 1] * Step(x, i, n, j))
  }

  lemma {:induction false} SumIsDot(c: Table, x: seq<int32>, i: nat, n: nat, j: nat)
    requires j <= n < i <= |x| && n <= TABLE_SIZE && ProductsFit(c, x, i, n)
    ensures Sum(Window(x, i, n), c, n, j) == Dot(c, x, i, n, j)
  {
    hide Wrap32;
    if j > 0 {
      SumIsDot(c, x, i, n, j - 1);
      var w := Window(x, i, n);
      assert w[n - (j - 1)] == x[i - j] && w[0] == x[i - n - 1];
      assert IsInt32(Step(x, i, n, j)) && IsInt32(c[j - 1] * Step(x, i, n, j));
      WrapIdentity(Step(x, i, n, j));
      WrapIdentity(c[j - 1] * Step(x, i, n, j));
      Commuted(Step(x, i, n, j), c[j - 1]);
    }
  }

  lemma Commuted(a: int, b: int)
    ensures a * b == b * a
  {
  }

  lemma TruncatedSum(prediction: int, error: int, bits: nat)
    requires 1 <= bits <= 32
    ensures Truncated(SignExtended32(Add32(prediction, error), bits), prediction + error, bits)
  {
    hide Wrap32, WrapBits, Congruent;
    var y := SignExtended32(Add32(prediction, error), bits);
    WrapBitsResidue(Add32(prediction, error), bits);
    Wrap32Congruent(prediction + error, bits);
    CongruentTransitive(y, Add32(prediction, error), prediction + error, bits);
  }

  lemma RunStep(errors: seq<int32>, i: nat, table: Table, p: Params)
    requires p.Valid() && i < |errors|
    ensures var (x, c) := Run(errors, i, table, p);
      Run(errors, i + 1, table, p).0
      == x + [if ModeAt(i, p) == Copy then errors[i]
              else SignExtended32(Add32(Prediction(x, i, c, p), errors[i]), p.readSampleSize)]
  {
    hide SignExtended32, Add32, Prediction, TableAfter, ModeAt;
  }

  lemma GeneralPrediction(x: seq<int32>, i: nat, c: Table, p: Params)
    requires p.Valid() && 0 < p.coefNum < 31 && p.coefNum < i <= |x| && ProductsFit(c, x, i, p.coefNum)
    ensures var n, q := p.coefNum, p.quantization;
      Prediction(x, i, c, p)
      == x[i - n - 1] as int + ((if q == 0 then 0 else Pow2(q - 1)) + Dot(c, x, i, n, n)) / Pow2(q)
  {
    hide Pow2, Sum, Dot, ProductsFit;
    SumIsDot(c, x, i, p.coefNum, p.coefNum);
    assert Window(x, i, p.coefNum)[0] == x[i - p.coefNum - 1];
  }

  /** What each output is. Without coefficients, and at the start, it is the error. With order 31,
      and while warming up, it is the output before it plus the error. Otherwise it is the output
      n + 1 before it, plus the error, plus the weighted sum of the n newest outputs divided by
      2^q to the nearest, as long as no product overflows. All sums are truncated to the read size. */
  lemma OutputMeaning(errors: seq<int32>, i: nat, table: Table, p: Params)
    requires p.Sized() && i < |errors|
    ensures var (x, c) := Run(errors, i, table, p);
      var y, n, q, bits := Run(errors, i + 1, table, p).0, p.coefNum, p.quantization, p.readSampleSize;
      && y[..i] == x
      && (i == 0 || n == 0 ==> y[i] == errors[i])
      && (i > 0 && n > 0 && (n == 31 || i <= n) ==> Truncated(y[i], x[i - 1] as int + errors[i] as int, bits))
      && (0 < n < 31 && i > n && ProductsFit(c, x, i, n) ==>
            Truncated(y[i], x[i - n - 1] as int + errors[i] as int
                            + ((if q == 0 then 0 else Pow2(q - 1)) + Dot(c, x, i, n, n)) / Pow2(q), bits))
  {
    hide Run, SignExtended32, Truncated, Prediction, Add32, Pow2, Dot, ProductsFit;
    var (x, c) := Run(errors, i, table, p);
    var n := p.coefNum;
    RunStep(errors, i, table, p);
    if 0 < n < 31 && i > n && ProductsFit(c, x, i, n) {
      GeneralPrediction(x, i, c, p);
    }
    if i > 0 && n > 0 && (n == 31 || i <= n) {
      assert Prediction(x, i, c, p) == x[i - 1] by { DeltaPrediction(x, i, c, p); }
    }
    TruncatedSum(Prediction(x, i, c, p), errors[i], p.readSampleSize);
  }

  lemma DeltaPrediction(x: seq<int32>, i: nat, c: Table, p: Params)
    requires p.Valid() && i <= |x| && ModeAt(i, p) == Delta
    ensures Prediction(x, i, c, p) == x[i - 1]
  {
  }

  /** A single coefficient of 2^q at index j predicts the output j + 1 back, so the order of the
      coefficients is newest first. */
  lemma SingleTap(errors: seq<int32>, i: nat, table: Table, p: Params, j: nat)
    requires p.Sized() && i < |errors| && j < p.coefNum < 31 && i > p.coefNum
    requires var (x, c) := Run(errors, i, table, p);
      && ProductsFit(c, x, i, p.coefNum) && c[j] == Pow2(p.quantization)
      && forall k :: 0 <= k < p.coefNum && k != j ==> c[k] == 0
    ensures Truncated(Run(errors, i + 1, table, p).0[i],
                      Run(errors, i, table, p).0[i - 1 - j] as int + errors[i] as int, p.readSampleSize)
  {
    hide Truncated, Pow2, Run;
    var (x, c) := Run(errors, i, table, p);
    var n, q := p.coefNum, p.quantization;
    OutputMeaning(errors, i, table, p);
    DotOfTap(c, x, i, n, j, n, Pow2(q));
    Rounded(Step(x, i, n, j + 1), q);
  }

  lemma {:induction false} DotOfTap(c: seq<int16>, x: seq<int32>, i: nat, n: nat, j: nat, k: nat, v: int)
    requires j < n && k <= n < i <= |x| && n <= |c|
    requires c[j] == v && forall m :: 0 <= m < n && m != j ==> c[m] == 0
    ensures Dot(c, x, i, n, k) == if k <= j then 0 else v * Step(x, i, n, j + 1)
  {
    if k > 0 {
      DotOfTap(c, x, i, n, j, k - 1, v);
    }
  }

  lemma Rounded(d: int, q: nat)
    ensures ((if q == 0 then 0 else Pow2(q - 1)) + Pow2(q) * d) / Pow2(q) == d
  {
    var r := if q == 0 then 0 else Pow2(q - 1);
    Commuted(Pow2(q), d);
    DivUnique(r + Pow2(q) * d, Pow2(q), d, r);
  }

  /** The error left after k moves: each takes k times the k-th difference of the window, scaled. */
  function Remaining(x: seq<int32>, i: nat, error: int, n: nat, q: nat, k: nat): int
    requires k <= n < i <= |x|
  {
    if k == 0 then error else
    Remaining(x, i, error, n, q, k - 1) - k * ((SignOnly(error) * Abs(Step(x, i, n, n + 1 - k))) / Pow2(q))
  }

  function Abs(v: int): nat {
    if v < 0 then -v else v
  }

  /** Some error of the original sign is left after k moves. */
  predicate Left(x: seq<int32>, i: nat, error: int, n: nat, q: nat, k: nat)
    requires k <= n < i <= |x|
  {
    Remaining(x, i, error, n, q, k) * SignOnly(error) > 0
  }

  /** Coefficient j is reached: before each move down to it some error was left. */
  predicate Touched(x: seq<int32>, i: nat, error: int, n: nat, q: nat, j: nat, from: nat := 0)
    requires j < n < i <= |x|
  {
    forall k :: from <= k < n - j ==> Left(x, i, error, n, q, k)
  }

  /** The window's differences are small enough for the moves not to overflow, which those of
      samples of up to 26 bits are. */
  predicate Near(x: seq<int32>, i: nat, n: nat)
    requires n < i <= |x|
  {
    forall j :: 1 <= j <= n ==> Abs(Step(x, i, n, j)) < 0x400_0000
  }

  /** One move. */
  lemma AdaptMove(x: seq<int32>, i: nat, error: int32, n: nat, q: nat, k: nat)
    requires k < n < i <= |x| && n < 31 && Near(x, i, n)
    requires Remaining(x, i, error, n, q, k) * SignOnly(error) > 0 && IsInt32(Remaining(x, i, error, n, q, k))
    ensures var w, d, dir := Window(x, i, n), Step(x, i, n, n - k), SignOnly(error);
      var val := Sub32(w[0], w[k + 1]); var sign := dir * SignOnly(val);
      && sign == -dir * SignOnly(d)
      && Sub32(Remaining(x, i, error, n, q, k), Wrap32(Shr(val * sign, q) * (k + 1)))
         == Remaining(x, i, error, n, q, k + 1)
  {
    hide Wrap32, Pow2, SignOnly, Remaining;
    var w, d, dir := Window(x, i, n), Step(x, i, n, n - k), SignOnly(error);
    var left := Remaining(x, i, error, n, q, k);
    assert w[0] == x[i - n - 1] && w[k + 1] == x[i - (n - k)];
    assert Abs(Step(x, i, n, n - k)) < 0x400_0000;
    WrapIdentity(-d);
    var val := Sub32(w[0], w[k + 1]);
    assert val == -d;
    var sign := dir * SignOnly(val);
    SignedProduct(d, dir);
    assert val * sign == dir * Abs(d);
    var scaled := Shr(val * sign, q);
    ShrShrinks(val * sign, q);
    assert -0x400_0000 < scaled < 0x400_0000 && scaled * dir >= 0;
    MulMono(scaled, 0x400_0000, k + 1);
    MulMono(-0x400_0000, scaled, k + 1);
    WrapIdentity(scaled * (k + 1));
    Commuted(scaled, k + 1);
    assert Remaining(x, i, error, n, q, k + 1) == left - (k + 1) * scaled by {
      RemainingStep(x, i, error, n, q, k);
    }
    LeftInRange(left, scaled, dir, k + 1);
    WrapIdentity(left - (k + 1) * scaled);
  }

  lemma RemainingStep(x: seq<int32>, i: nat, error: int, n: nat, q: nat, k: nat)
    requires k < n < i <= |x|
    ensures Remaining(x, i, error, n, q, k + 1)
         == Remaining(x, i, error, n, q, k) - (k + 1) * Shr(SignOnly(error) * Abs(Step(x, i, n, n - k)), q)
  {
  }

  lemma SignedProduct(d: int, dir: int)
    requires -1 <= dir <= 1
    ensures dir * SignOnly(-d) == -dir * SignOnly(d)
    ensures -d * (dir * SignOnly(-d)) == dir * Abs(d)
  {
  }

  lemma LeftInRange(left: int, scaled: int, dir: int, k: int)
    requires -1 <= dir <= 1 && left * dir > 0 && IsInt32(left) && 1 <= k <= 30
    requires -0x400_0000 < scaled < 0x400_0000 && scaled * dir >= 0
    ensures IsInt32(left - k * scaled)
  {
    MulMono(scaled, 0x400_0000, k);
    MulMono(-0x400_0000, scaled, k);
    if scaled >= 0 { MulMono(0, scaled, k); } else { MulMono(scaled, 0, k); }
  }

  lemma {:induction false} AdaptMeaning(x: seq<int32>, i: nat, c: Table, error: int32, n: nat, q: nat,
                                        last: int, j: nat)
    requires -1 <= last < n < i <= |x| && n < 31 && Near(x, i, n) && j < TABLE_SIZE
    requires IsInt32(Remaining(x, i, error, n, q, n - 1 - last))
    ensures Adapt(Window(x, i, n), c, Remaining(x, i, error, n, q, n - 1 - last), n, q, last, SignOnly(error))[j]
         == if j <= last && Touched(x, i, error, n, q, j, n - 1 - last)
            then Wrap16(c[j] + SignOnly(error) * SignOnly(Step(x, i, n, j + 1))) else c[j]
    decreases last + 1
  {
    hide Wrap16, Wrap32, Remaining, SignOnly, Near;
    var k, dir := n - 1 - last, SignOnly(error);
    var left := Remaining(x, i, error, n, q, k);
    assert last >= 0 ==> (Left(x, i, error, n, q, k) <==> left * dir > 0);
    if last >= 0 && left * dir > 0 {
      AdaptMove(x, i, error, n, q, k);
      var sign := -dir * SignOnly(Step(x, i, n, n - k));
      AdaptMeaning(x, i, c[last := Wrap16(c[last] - sign)], error, n, q, last - 1, j);
    }
  }

  lemma NextTableMeaning(x: seq<int32>, i: nat, c: Table, error: int32, n: nat, q: nat, j: nat)
    requires 1 <= n < i <= |x| && n < 31 && Near(x, i, n) && j < TABLE_SIZE
    ensures NextTable(Window(x, i, n), c, error, n, q)[j]
         == if j < n && Touched(x, i, error, n, q, j)
            then Wrap16(c[j] + SignOnly(error) * SignOnly(x[i - 1 - j] as int - x[i - n - 1] as int)) else c[j]
  {
    hide Adapt, SignOnly, Wrap16, Near, Touched;
    assert Remaining(x, i, error, n, q, 0) == error;
    AdaptMeaning(x, i, c, error, n, q, n - 1, j);
    if j < n {
      assert Step(x, i, n, j + 1) == x[i - 1 - j] as int - x[i - n - 1] as int;
    }
  }

  /** What adaptation does to the table. Starting with the oldest tap, coefficient n - 1, each one
      that is reached moves by the sign of the error times the sign of the difference it weighs, so
      that the prediction moves towards the sample; it ends when the error that is left has lost
      its sign. All other coefficients, and all of them where no sum is predicted, stay. */
  lemma TableMeaning(errors: seq<int32>, i: nat, table: Table, p: Params, j: nat)
    requires p.Sized() && i < |errors| && j < TABLE_SIZE
    ensures var (x, c) := Run(errors, i, table, p);
      var after, n, q := Run(errors, i + 1, table, p).1, p.coefNum, p.quantization;
      && (!(0 < n < 31 && i > n) ==> after == c)
      && (0 < n < 31 && i > n && Near(x, i, n) ==>
            after[j] == if j < n && Touched(x, i, errors[i], n, q, j)
                        then Wrap16(c[j] + SignOnly(errors[i]) * SignOnly(x[i - 1 - j] as int - x[i - n - 1] as int))
                        else c[j])
  {
    hide SignExtended32, Prediction, NextTable, SignOnly, Touched, Wrap16;
    var (x, c) := Run(errors, i, table, p);
    if 0 < p.coefNum < 31 && i > p.coefNum && Near(x, i, p.coefNum) {
      NextTableMeaning(x, i, c, errors[i], p.coefNum, p.quantization, j);
    }
  }

  // ----- lossless residuals -----

  ghost predicate InRange(x: int, bits: nat)
    requires bits >= 1
  {
    -Pow2(bits - 1) <= x < Pow2(bits - 1)
  }

  ghost predicate SamplesInRange(samples: seq<int32>, bits: nat)
    requires bits >= 1
  {
    forall i :: 0 <= i < |samples| ==> InRange(samples[i], bits)
  }

  /** The table an encoder reaches before sample i when it adapts on the samples themselves. */
  function EncoderTable(samples: seq<int32>, errors: seq<int32>, i: nat, table: Table, p: Params): Table
    requires p.Valid() && i <= |samples| && i <= |errors|
  {
    if i == 0 then table
    else TableAfter(samples[..i - 1], i - 1, EncoderTable(samples, errors, i - 1, table, p), errors[i - 1], p)
  }

  /** The error at i is the sample less its prediction, exactly where the error is copied and
      modulo 2^readSampleSize elsewhere. */
  ghost predicate ResidualAt(samples: seq<int32>, errors: seq<int32>, i: nat, table: Table, p: Params)
    requires p.Sized() && i < |samples| && i < |errors|
  {
    var prediction := Prediction(samples[..i], i, EncoderTable(samples, errors, i, table, p), p);
    if ModeAt(i, p) == Copy then errors[i] == samples[i]
    else Congruent(prediction + errors[i], samples[i], p.readSampleSize)
  }

  ghost predicate Residuals(samples: seq<int32>, errors: seq<int32>, table: Table, p: Params)
    requires p.Sized()
  {
    |errors| == |samples| && forall i :: 0 <= i < |samples| ==> ResidualAt(samples, errors, i, table, p)
  }

  lemma Rebuilt(prediction: int, error: int, sample: int32, bits: nat)
    requires 1 <= bits <= 32 && InRange(sample, bits)
    requires Congruent(prediction + error, sample, bits)
    ensures SignExtended32(Add32(prediction, error), bits) == sample
  {
    hide Wrap32, Congruent, WrapBits;
    Wrap32Congruent(prediction + error, bits);
    CongruentTransitive(Add32(prediction, error), prediction + error, sample, bits);
    WrapBitsCongruent(Add32(prediction, error), sample, bits);
  }

  /** Adaptive FIR losslessness: the decoder rebuilds every sample, and after each step its
      table is the encoder's, for every order, table, quantisation and sample sequence. */
  lemma {:induction false} FirLossless(samples: seq<int32>, errors: seq<int32>, i: nat, table: Table, p: Params)
    requires p.Sized() && i <= |samples| && SamplesInRange(samples, p.readSampleSize)
    requires Residuals(samples, errors, table, p)
    ensures Run(errors, i, table, p) == (samples[..i], EncoderTable(samples, errors, i, table, p))
  {
    hide Prediction, TableAfter, SignExtended32, InRange, Congruent, Add32, ResidualAt;
    if i > 0 {
      FirLossless(samples, errors, i - 1, table, p);
      assert ResidualAt(samples, errors, i - 1, table, p);
      SampleRebuilt(samples, errors, i - 1, table, p);
      assert samples[..i] == samples[..i - 1] + [samples[i - 1]];
    }
  }

  lemma SampleRebuilt(samples: seq<int32>, errors: seq<int32>, i: nat, table: Table, p: Params)
    requires p.Sized() && i < |samples| && i < |errors|
    requires InRange(samples[i], p.readSampleSize) && ResidualAt(samples, errors, i, table, p)
    ensures var prediction := Prediction(samples[..i], i, EncoderTable(samples, errors, i, table, p), p);
      samples[i] == if ModeAt(i, p) == Copy then errors[i]
                    else SignExtended32(Add32(prediction, errors[i]), p.readSampleSize)
  {
    hide Prediction, EncoderTable, SignExtended32, InRange, Congruent, Add32;
    if ModeAt(i, p) != Copy {
      Rebuilt(Prediction(samples[..i], i, EncoderTable(samples, errors, i, table, p), p), errors[i], samples[i],
              p.readSampleSize);
    }
  }

  /** The mirror encoder: residuals reduced to the read size, and its table. */
  function Encode(samples: seq<int32>, i: nat, table: Table, p: Params): (r: (seq<int32>, Table))
    requires p.Valid() && i <= |samples|
    ensures |r.0| == i
  {
    if i == 0 then ([], table) else
    var (errors, t) := Encode(samples, i - 1, table, p);
    var error := if ModeAt(i - 1, p) == Copy then samples[i - 1]
                 else var prediction := Prediction(samples[..i - 1], i - 1, t, p);
                      SignExtended32(Sub32(samples[i - 1], prediction), p.readSampleSize);
    (errors + [error], TableAfter(samples[..i - 1], i - 1, t, error, p))
  }

  lemma ReducedError(prediction: int, sample: int32, bits: nat)
    requires 1 <= bits <= 32
    ensures Congruent(prediction + SignExtended32(Sub32(sample, prediction), bits), sample, bits)
  {
    hide Wrap32, Congruent, WrapBits;
    var x := sample - prediction;
    var error := SignExtended32(Sub32(sample, prediction), bits);
    Wrap32Congruent(x, bits);
    WrapBitsResidue(Sub32(sample, prediction), bits);
    CongruentTransitive(error, Sub32(sample, prediction), x, bits);
    CongruentShift(error, x, prediction, bits);
  }

  lemma {:induction false} EncoderTableLocal(samples: seq<int32>, a: seq<int32>, b: seq<int32>, i: nat,
                                             table: Table, p: Params)
    requires p.Valid() && i <= |samples| && i <= |a| && i <= |b| && a[..i] == b[..i]
    ensures EncoderTable(samples, a, i, table, p) == EncoderTable(samples, b, i, table, p)
  {
    hide TableAfter;
    if i > 0 {
      assert a[..i - 1] == a[..i][..i - 1] == b[..i - 1];
      assert a[i - 1] == a[..i][i - 1] == b[i - 1];
      EncoderTableLocal(samples, a, b, i - 1, table, p);
    }
  }

  /** The encoder's residuals are residuals in the sense of FirLossless, and each of them fits
      the signed read size. */
  lemma {:induction false} EncodeIsResidual(samples: seq<int32>, i: nat, table: Table, p: Params)
    requires p.Sized() && i <= |samples| && SamplesInRange(samples, p.readSampleSize)
    ensures var (errors, t) := Encode(samples, i, table, p);
      && t == EncoderTable(samples, errors, i, table, p)
      && SamplesInRange(errors, p.readSampleSize)
      && forall j :: 0 <= j < i ==> ResidualAt(samples, errors, j, table, p)
  {
    hide Prediction, TableAfter;
    if i > 0 {
      EncodeIsResidual(samples, i - 1, table, p);
      var (before, t) := Encode(samples, i - 1, table, p);
      var (errors, _) := Encode(samples, i, table, p);
      assert errors[..i - 1] == before;
      forall j | 0 <= j < i ensures ResidualAt(samples, errors, j, table, p) {
        if j < i - 1 {
          assert errors[..j] == before[..j];
          assert ResidualAt(samples, before, j, table, p);
        } else {
          assert errors[..j] == before[..j];
        }
        EncoderTableLocal(samples, errors, before, j, table, p);
        ReducedError(Prediction(samples[..i - 1], i - 1, t, p), samples[i - 1], p.readSampleSize);
      }
      EncoderTableLocal(samples, errors, before, i - 1, table, p);
    }
  }

  // ----- the method -----

  /** `predictorDecompressFirAdapt`. Go moves the slice `buffer_out` one element on in every
      step of the general case; `start` is where that slice begins. Warm-up may write cells past
      outputSize from error cells past it; nothing is said of those. */
  method PredictorDecompressFirAdapt(errorBuffer: array<int32>, bufferOut: array<int32>, outputSize: nat,
                                     readSampleSize: int, coefTable: Table, coefNum: nat, quantization: nat)
    requires errorBuffer != bufferOut && errorBuffer.Length == bufferOut.Length
    requires coefNum <= MAX_COEF_NUM
    requires outputSize <= bufferOut.Length
    requires bufferOut.Length > if coefNum == MAX_COEF_NUM then 0 else coefNum
    modifies bufferOut
    ensures bufferOut[..outputSize]
         == Run(errorBuffer[..outputSize], outputSize, coefTable, Params(readSampleSize, coefNum, quantization)).0
  {
    hide Run, Predict, NextTable, SignExtended32, Wrap32;
    var p := Params(readSampleSize, coefNum, quantization);
    ghost var errors := errorBuffer[..];
    RunDependsOnPrefix(errors, errorBuffer[..outputSize], outputSize, coefTable, p);
    FirstOutput(errors, coefTable, p);
    bufferOut[0] := errorBuffer[0];
    assert bufferOut[..1] == [errors[0]];
    if coefNum == 0 {
      var i := 1;
      while i < outputSize
        invariant i == 1 || i <= outputSize
        invariant bufferOut[..i] == Run(errors, i, coefTable, p).0
      {
        CopyStep(errors, i, coefTable, p);
        bufferOut[i] := errorBuffer[i];
        i := i + 1;
      }
      RunGrows(errors, outputSize, i, coefTable, p);
      return;
    }
    if coefNum == MAX_COEF_NUM {
      var i := 0;
      while i < outputSize - 1
        invariant i == 0 || i <= outputSize - 1
        invariant bufferOut[..i + 1] == Run(errors, i + 1, coefTable, p).0
      {
        DeltaStep(errors, i + 1, coefTable, p);
        bufferOut[i + 1] := SignExtended32(Add32(bufferOut[i], errorBuffer[i + 1]), readSampleSize);
        i := i + 1;
      }
      RunGrows(errors, outputSize, i + 1, coefTable, p);
      return;
    }
    var i := 0;
    while i < coefNum
      invariant 0 <= i <= coefNum
      invariant bufferOut[..i + 1] == Run(errors, i + 1, coefTable, p).0
      invariant Run(errors, i + 1, coefTable, p).1 == coefTable
    {
      DeltaStep(errors, i + 1, coefTable, p);
      var val := Add32(bufferOut[i], errorBuffer[i + 1]);
      bufferOut[i + 1] := SignExtended32(val, readSampleSize);
      i := i + 1;
    }
    GeneralSamples(errorBuffer, bufferOut, outputSize, readSampleSize, coefTable, coefNum, quantization);
  }

  /** The loop of the general case, after the warm-up. */
  method GeneralSamples(errorBuffer: array<int32>, bufferOut: array<int32>, outputSize: nat,
                        readSampleSize: int, coefTable: Table, coefNum: nat, quantization: nat)
    requires errorBuffer != bufferOut && errorBuffer.Length == bufferOut.Length
    requires 1 <= coefNum < MAX_COEF_NUM
    requires outputSize <= bufferOut.Length && coefNum < bufferOut.Length
    requires Run(errorBuffer[..], coefNum + 1, coefTable, Params(readSampleSize, coefNum, quantization))
          == (bufferOut[..coefNum + 1], coefTable)
    modifies bufferOut
    ensures bufferOut[..outputSize]
         == Run(errorBuffer[..], outputSize, coefTable, Params(readSampleSize, coefNum, quantization)).0
  {
    hide Run, Predict, NextTable, SignExtended32, Wrap32;
    var p := Params(readSampleSize, coefNum, quantization);
    ghost var errors := errorBuffer[..];
    var i := coefNum + 1;
    var start, table := 0, coefTable;
    while i < outputSize
      invariant i == coefNum + 1 || i <= outputSize
      invariant coefNum + 1 <= i <= bufferOut.Length && start == i - coefNum - 1
      invariant (bufferOut[..i], table) == Run(errors, i, coefTable, p)
    {
      GeneralStep(errors, i, coefTable, p);
      ghost var before := bufferOut[..i];
      assert bufferOut[start..i] == before[start..i];
      var outval, next := GeneralCase(errorBuffer[i], bufferOut, start, readSampleSize, table, coefNum, quantization);
      bufferOut[start + coefNum + 1] := outval;
      assert bufferOut[..i + 1] == before + [outval];
      table := next;
      start := start + 1;
      i := i + 1;
    }
    RunGrows(errors, outputSize, i, coefTable, p);
  }

  lemma FirstOutput(errors: seq<int32>, table: Table, p: Params)
    requires p.Valid() && errors != []
    ensures Run(errors, 1, table, p) == ([errors[0]], table)
  {
    assert Run(errors, 0, table, p) == ([], table);
    assert [] + [errors[0]] == [errors[0]];
  }

  lemma CopyStep(errors: seq<int32>, i: nat, table: Table, p: Params)
    requires p.Valid() && i < |errors| && ModeAt(i, p) == Copy
    ensures Run(errors, i + 1, table, p).0 == Run(errors, i, table, p).0 + [errors[i]]
  {
  }

  lemma DeltaStep(errors: seq<int32>, i: nat, table: Table, p: Params)
    requires p.Valid() && i < |errors| && ModeAt(i, p) == Delta
    ensures var (out, t) := Run(errors, i, table, p);
      Run(errors, i + 1, table, p) == (out + [SignExtended32(Add32(out[i - 1], errors[i]), p.readSampleSize)], t)
  {
  }

  lemma GeneralStep(errors: seq<int32>, i: nat, table: Table, p: Params)
    requires p.Valid() && i < |errors| && ModeAt(i, p) == General
    ensures var (out, t) := Run(errors, i, table, p);
      var w := Window(out, i, p.coefNum);
      Run(errors, i + 1, table, p)
      == (out + [SignExtended32(Add32(Predict(w, t, p.coefNum, p.quantization), errors[i]), p.readSampleSize)],
          NextTable(w, t, errors[i], p.coefNum, p.quantization))
  {
    var (out, t) := Run(errors, i, table, p);
    assert Prediction(out, i, t, p) == Predict(Window(out, i, p.coefNum), t, p.coefNum, p.quantization);
  }

  /** The body of the general case: the value for buffer_out[coefNum+1] and the adapted table. */
  method GeneralCase(error: int32, bufferOut: array<int32>, start: nat, readSampleSize: int,
                     coefTable: Table, coefNum: nat, quantization: nat) returns (outval: int32, table: Table)
    requires 1 <= coefNum < MAX_COEF_NUM && start + coefNum < bufferOut.Length
    ensures var w := bufferOut[start..start + coefNum + 1];
      && outval == SignExtended32(Add32(Predict(w, coefTable, coefNum, quantization), error), readSampleSize)
      && table == NextTable(w, coefTable, error, coefNum, quantization)
  {
    hide Wrap32, Wrap16, SignExtended32, Shr;
    ghost var w := bufferOut[start..start + coefNum + 1];
    table := coefTable;
    var sum, j := 0, 0;
    while j < coefNum
      invariant 0 <= j <= coefNum
      invariant sum == Sum(w, coefTable, coefNum, j)
    {
      sum := sum + Mul32(Sub32(bufferOut[start + coefNum - j], bufferOut[start]), table[j]);
      j := j + 1;
    }
    var wide := Shr(Rounding(quantization) + sum, quantization);
    wide := wide + bufferOut[start] + error;
    outval := SignExtended32(Wrap32(wide), readSampleSize);

    var errorVal, last := error, coefNum - 1;
    if errorVal > 0 {
      while last >= 0 && errorVal > 0
        invariant -1 <= last < coefNum
        invariant Adapt(w, table, errorVal, coefNum, quantization, last, 1)
               == NextTable(w, coefTable, error, coefNum, quantization)
        decreases last
      {
        var val := Sub32(bufferOut[start], bufferOut[start + coefNum - last]);
        var sign := SignOnly(val);
        table := table[last := Wrap16(table[last] - sign)];
        errorVal := Sub32(errorVal, Wrap32(Shr(val * sign, quantization) * (coefNum - last)));
        last := last - 1;
      }
    } else if errorVal < 0 {
      while last >= 0 && errorVal < 0
        invariant -1 <= last < coefNum
        invariant Adapt(w, table, errorVal, coefNum, quantization, last, -1)
               == NextTable(w, coefTable, error, coefNum, quantization)
        decreases last
      {
        var val := Sub32(bufferOut[start], bufferOut[start + coefNum - last]);
        var sign := -SignOnly(val);
        table := table[last := Wrap16(table[last] - sign)];
        errorVal := Sub32(errorVal, Wrap32(Shr(val * sign, quantization) * (coefNum - last)));
        last := last - 1;
      }
    }
  }
}
