/**
 * Progress sampling of hash_check: how many reads are expected, how often a
 * percentage line is written, and which lines a run writes.
 */
module Progress {
  import opened Wrappers
  import Chunking

  /**
   * `update_loop` of hash.py:499: every loop when fewer than 100 are expected,
   * otherwise every `floor(file_loops / 100)`-th loop. Never 0, so the `%`
   * of hash.py:520 is always defined.
   */
  function UpdateLoop(fileLoops: nat): (r: nat)
    ensures r >= 1
    ensures fileLoops < 100 ==> r == 1
    ensures fileLoops >= 100 ==> r * 100 <= fileLoops < (r + 1) * 100
  {
    if fileLoops < 100 then 1 else fileLoops / 100
  }

  /**
   * A console progress line: the percentage after loop `loop` of an expected
   * `loops` (the value written is ProgressPercent(loop, loops)), or the final 100%.
   */
  datatype Report = Percent(loop: nat, loops: nat) | Complete

  /**
   * The percentage of hash.py:521 as written: `(file_loop / file_loops) * 100`
   * raises ZeroDivisionError (None) when `file_loops` is 0.
   */
  function PercentAsWritten(loop: nat, loops: nat): (p: Option<real>)
    ensures p.None? <==> loops == 0
  {
    if loops == 0 then None else Some((loop as real / loops as real) * 100.0)
  }

  /**
   * The percentage with the zero estimate guarded: a run expected to need no
   * loop is reported as complete instead of raising.
   */
  function ProgressPercent(loop: nat, loops: nat): (p: real)
    ensures loops > 0 ==> PercentAsWritten(loop, loops) == Some(p)
    ensures loops == 0 ==> p == 100.0
    ensures 0 < loop <= loops ==> 0.0 < p <= 100.0
  {
    if loops == 0 then 100.0 else (loop as real / loops as real) * 100.0
  }

  /** The percentage lines written after loops 1..n when every `step`-th loop is reported. */
  function Sampled(n: nat, step: nat, loops: nat): seq<Report>
    requires step >= 1
  {
    if n == 0 then []
    else
      var last := if n % step == 0 then [Percent(n, loops)] else [];
      Sampled(n - 1, step, loops) + last
  }

  /** Exactly the loops 1..n that are multiples of `step` are reported, in increasing order. */
  lemma {:induction false} SampledLoops(n: nat, step: nat, loops: nat)
    requires step >= 1
    ensures forall i :: 0 <= i < |Sampled(n, step, loops)| ==>
      var r := Sampled(n, step, loops)[i];
      r.Percent? && 1 <= r.loop <= n && r.loop % step == 0 && r.loops == loops
    ensures forall i, j :: 0 <= i < j < |Sampled(n, step, loops)| ==>
      Sampled(n, step, loops)[i].loop < Sampled(n, step, loops)[j].loop
    ensures n % step == 0 && n > 0 ==> Sampled(n, step, loops)[|Sampled(n, step, loops)| - 1] == Percent(n, loops)
  {
    if n > 0 {
      SampledLoops(n - 1, step, loops);
    }
  }

  /** A run of `n` loops writes `n / step` percentage lines. */
  lemma {:induction false} SampledCount(n: nat, step: nat, loops: nat)
    requires step >= 1
    ensures |Sampled(n, step, loops)| == n / step
  {
    if n > 0 {
      SampledCount(n - 1, step, loops);
      DivStep(n, step);
    }
  }

  /** The first percentage line is written after loop `step`. */
  lemma {:induction false} SampledFirst(n: nat, step: nat, loops: nat)
    requires 1 <= step <= n
    ensures |Sampled(n, step, loops)| > 0 && Sampled(n, step, loops)[0] == Percent(step, loops)
  {
    if n - 1 >= step {
      SampledFirst(n - 1, step, loops);
    } else {
      SampledCount(n - 1, step, loops);
      DivModUnique(n - 1, step, 0, n - 1);
      DivModUnique(n, step, 1, 0);
    }
  }

  lemma DivStep(n: nat, step: nat)
    requires n >= 1 && step >= 1
    ensures n / step == (n - 1) / step + (if n % step == 0 then 1 else 0)
  {
    var q, r := (n - 1) / step, (n - 1) % step;
    assert n - 1 == q * step + r && r < step;
    if r == step - 1 {
      MulSucc(q, step);
      DivModUnique(n, step, q + 1, 0);
    } else {
      DivModUnique(n, step, q, r + 1);
    }
  }

  lemma MulSucc(q: nat, b: nat)
    ensures (q + 1) * b == q * b + b
  {
  }

  lemma DivModUnique(a: nat, b: nat, q: nat, r: nat)
    requires 0 <= r < b && a == q * b + r
    ensures a / b == q && a % b == r
  {
    var q', r' := a / b, a % b;
    assert a == q' * b + r' && r' < b;
    if q' < q {
      MulSub(q, q', b);
      MulAtLeast(q - q', b);
      assert false;
    } else if q < q' {
      MulSub(q', q, b);
      MulAtLeast(q' - q, b);
      assert false;
    }
  }

  lemma MulSub(x: nat, y: nat, b: nat)
    requires y <= x
    ensures x * b - y * b == (x - y) * b
  {
  }

  lemma MulAtLeast(k: nat, b: nat)
    requires k >= 1
    ensures k * b >= b
  {
  }

  /**
   * With the sampling step of hash.py:499 a run writes every loop when fewer
   * than 100 are expected, and between 100 and 199 percentage lines otherwise.
   */
  lemma ReportBudget(fileLoops: nat)
    ensures fileLoops < 100 ==> |Sampled(fileLoops, UpdateLoop(fileLoops), fileLoops)| == fileLoops
    ensures fileLoops >= 100 ==> 100 <= |Sampled(fileLoops, UpdateLoop(fileLoops), fileLoops)| <= 199
  {
    var step := UpdateLoop(fileLoops);
    SampledCount(fileLoops, step, fileLoops);
    if fileLoops >= 100 {
      QuotientRange(fileLoops, step);
    }
  }

  lemma QuotientRange(n: nat, step: nat)
    requires step >= 1 && step * 100 <= n < (step + 1) * 100
    ensures 100 <= n / step <= 199
  {
    var q, r := n / step, n % step;
    assert n == q * step + r;
    if q < 100 {
      Chunking.MulMonotone(q, 99, step);
      assert false;
    }
    if q > 199 {
      Chunking.MulMonotone(200, q, step);
      assert false;
    }
  }
}
