/** The RGB indicator of `update_led_status`: a finished measurement is
    compared against a ±10 % band around the current average. */
module Indicator {
  import opened Uint32
  import opened Averaging

  /** The colour requested from the LED: Green is better than average,
      Red worse, Blue within tolerance. */
  datatype Colour = Off | Green | Red | Blue

  /** The three PWM intensities passed to `set_led_color`. */
  datatype Rgb = Rgb(red: real, green: real, blue: real)

  /** The intensities each colour requests. */
  function Channels(c: Colour): (lit: Rgb)
    ensures lit.red in {0.0, 1.0} && lit.green in {0.0, 1.0} && lit.blue in {0.0, 1.0}
    ensures lit.red + lit.green + lit.blue <= 1.0
    ensures lit.red + lit.green + lit.blue == 0.0 <==> c == Off
    ensures lit.green == 1.0 <==> c == Green
    ensures lit.red == 1.0 <==> c == Red
    ensures lit.blue == 1.0 <==> c == Blue
  {
    match c
    case Off => Rgb(0.0, 0.0, 0.0)
    case Green => Rgb(0.0, 1.0, 0.0)
    case Red => Rgb(1.0, 0.0, 0.0)
    case Blue => Rgb(0.0, 0.0, 1.0)
  }

  /** The band test done in exact integer arithmetic: `t < 0.9 * total / n`
      becomes `10 * t * n < 9 * total`, and `t > 1.1 * total / n` becomes
      `10 * t * n > 11 * total`. `count` is `measurement_count` at the time
      of the call. A colour is lit only with a non-zero average over at
      least two samples; `ClassifyAgreesWithReals` proves it picks the same
      colour as the real-valued band test. */
  function Classify(t: U32, avg: Average, count: int): (c: Colour)
    ensures c != Off ==> avg.n > 0 && avg.total > 0 && count >= 2
  {
    if avg.n == 0 || avg.total == 0 || count < 2 then Off
    else if 10 * t as int * avg.n < 9 * avg.total then Green
    else if 10 * t as int * avg.n > 11 * avg.total then Red
    else Blue
  }

  /** Cross-multiplication decides exactly as the real-valued band does, for
      every elapsed time, average and count. */
  lemma ClassifyAgreesWithReals(t: U32, avg: Average, count: int)
    ensures Classify(t, avg, count) == ClassifyReal(t, avg, count)
  {
    if avg.n > 0 {
      CrossMultiply(t, avg);
    }
  }

  /** The indicator stays off exactly when there is no average yet or fewer
      than two samples in the buffer; otherwise one of the three colours
      is lit. */
  lemma ClassifyOffIff(t: U32, avg: Average, count: int)
    ensures Classify(t, avg, count) == Off <==> (avg.Value() == 0.0 || count < 2)
  {
    if avg.n > 0 {
      assert avg.Value() * avg.n as real == avg.total as real;
    }
  }

  /** Comparing a time with 90 % or 110 % of an average `total / n` is the
      same as comparing `10 * t * n` with `9 * total` or `11 * total`. */
  lemma CrossMultiply(t: U32, avg: Average)
    requires avg.n > 0
    ensures (t as real) < avg.Value() * (1.0 - 0.1) <==> 10 * t as int * avg.n < 9 * avg.total
    ensures (t as real) > avg.Value() * (1.0 + 0.1) <==> 10 * t as int * avg.n > 11 * avg.total
  {
    var v, n, tr, tot := avg.Value(), avg.n as real, t as real, avg.total as real;
    var tn := tr * n;
    ProductAsReal(t as int, avg.n);
    // green: t < 0.9 v  <=>  t n < 0.9 v n = 0.9 total  <=>  10 t n < 9 total
    Rescale(v, 0.9, n, tot);
    ScaleLess(tr, v * 0.9, n, tn, 0.9 * tot);
    assert (9 * avg.total) as real == 9.0 * tot;
    // red: 1.1 v < t  <=>  1.1 total < t n  <=>  11 total < 10 t n
    Rescale(v, 1.1, n, tot);
    ScaleLess(v * 1.1, tr, n, 1.1 * tot, tn);
    assert (11 * avg.total) as real == 11.0 * tot;
  }

  /** Multiplying both sides by a positive factor keeps a strict order. */
  lemma ScaleLess(a: real, b: real, c: real, ac: real, bc: real)
    requires c > 0.0 && ac == a * c && bc == b * c
    ensures a < b <==> ac < bc
  {
    if a < b {
      assert (b - a) * c > 0.0;
    } else {
      assert (a - b) * c >= 0.0;
    }
  }

  lemma ProductAsReal(x: int, y: int)
    ensures (10 * x * y) as real == 10.0 * ((x as real) * (y as real))
  {
  }

  /** A fraction of the average, scaled back by the count, is the same
      fraction of the total. */
  lemma Rescale(v: real, f: real, n: real, tot: real)
    requires v * n == tot
    ensures v * f * n == f * tot
  {
    calc {
      v * f * n;
      f * (v * n);
    }
  }

  /** The same decision written with real numbers, as the firmware writes it
      with floats: `lower = avg * (1 - 0.1)`, `upper = avg * (1 + 0.1)`.
      Green is always faster than the average and Red always slower; Blue
      is exactly a lit LED with the time inside the closed band. */
  function ClassifyReal(t: U32, avg: Average, count: int): (c: Colour)
    ensures c == Green ==> (t as real) < avg.Value()
    ensures c == Red ==> (t as real) > avg.Value()
    ensures c == Blue <==>
      (avg.Value() != 0.0 && count >= 2 &&
       0.9 * avg.Value() <= (t as real) <= 1.1 * avg.Value())
  {
    var v := avg.Value();
    if v == 0.0 || count < 2 then Off
    else if (t as real) < v * (1.0 - 0.1) then Green
    else if (t as real) > v * (1.0 + 0.1) then Red
    else Blue
  }

  /** Measurements on the band edges count as within tolerance, and the band
      is symmetric around the average: below 90 % is Green, above 110 % Red. */
  lemma ClassifyBand(t: U32, avg: Average, count: int)
    requires avg.Value() != 0.0 && count >= 2
    ensures Classify(t, avg, count) == Green <==> (t as real) < 0.9 * avg.Value()
    ensures Classify(t, avg, count) == Red <==> (t as real) > 1.1 * avg.Value()
    ensures Classify(t, avg, count) == Blue <==>
      0.9 * avg.Value() <= (t as real) <= 1.1 * avg.Value()
  {
    ClassifyAgreesWithReals(t, avg, count);
  }

  /** Worked values for an average of 100 ms: 85 is better, 90 through 110
      are nominal, 115 is worse. */
  lemma ClassifyExamples()
    ensures Classify(85, Average(100, 1), 2) == Green
    ensures Classify(90, Average(100, 1), 2) == Blue
    ensures Classify(100, Average(100, 1), 2) == Blue
    ensures Classify(110, Average(100, 1), 2) == Blue
    ensures Classify(115, Average(100, 1), 2) == Red
    ensures Classify(85, Average(100, 1), 1) == Off
  {
  }
}
