/**
 The comparison of reported and local token counts, in exact arithmetic: the outcome of one
 comparison, what every logged outcome satisfies, and the bound on over-billing over whole logs.
 */
module Billing {

  datatype Status = Unknown | Valid | Warning | Error

  datatype Note =
    | SignatureFailed
    | InputDiffers(percent: real, threshold: real)
    | OutputDiffers(percent: real, threshold: real)

  /** The fields of a verification result, as a value. */
  datatype Outcome = Outcome(
    requestId: string,
    isValid: bool,
    serverInput: int,
    localInput: int,
    inputDiff: int,
    inputPercent: real,
    serverOutput: int,
    localOutput: int,
    outputDiff: int,
    outputPercent: real,
    signatureValid: bool,
    withinThreshold: bool,
    threshold: real,
    status: Status,
    notes: seq<Note>
  )

  function Abs(x: int): nat {
    if x < 0 then 0 - x else x
  }

  /** The difference, counted only when the server reports some tokens. */
  function Diff(server: int, local: int): nat {
    if server > 0 then Abs(server - local) else 0
  }

  function Percent(server: int, local: int): real {
    if server > 0 then Diff(server, local) as real / server as real * 100.0 else 0.0
  }

  /** What every logged outcome satisfies, under the validator's threshold. */
  predicate Coherent(o: Outcome, threshold: real) {
    && o.threshold == threshold
    && o.localInput >= 0 && o.localOutput >= 0
    && o.inputDiff == Diff(o.serverInput, o.localInput) && o.inputPercent == Percent(o.serverInput, o.localInput)
    && o.outputDiff == Diff(o.serverOutput, o.localOutput) && o.outputPercent == Percent(o.serverOutput, o.localOutput)
    && (o.withinThreshold <==> o.inputPercent <= threshold && o.outputPercent <= threshold)
    && (o.isValid <==> o.status == Valid)
    && (o.isValid <==> o.notes == [])
    && o.status != Unknown
    && (o.status == Error <==> o.notes == [SignatureFailed])
    && (o.status == Warning ==> !o.withinThreshold && o.notes == CountNotes(o.inputPercent, o.outputPercent, threshold))
    && (o.status == Valid ==> o.withinThreshold)
  }

  /** A warning notes exactly the counts that differ by more than the threshold. */
  function CountNotes(inputPercent: real, outputPercent: real, threshold: real): seq<Note> {
    (if inputPercent > threshold then [InputDiffers(inputPercent, threshold)] else [])
    + (if outputPercent > threshold then [OutputDiffers(outputPercent, threshold)] else [])
  }

  /** The outcome for a receipt: the counts on both sides, whether it is signed, and whether the signature stands. */
  function Judge(
    requestId: string, serverInput: int, localInput: nat, serverOutput: int, localOutput: nat,
    threshold: real, signed: bool, stands: bool
  ): Outcome {
    var (inputPercent, outputPercent) := (Percent(serverInput, localInput), Percent(serverOutput, localOutput));
    var within := inputPercent <= threshold && outputPercent <= threshold;
    var status := if signed && !stands then Error else if within then Valid else Warning;
    Outcome(
      requestId,
      status == Valid,
      serverInput, localInput, Diff(serverInput, localInput), inputPercent,
      serverOutput, localOutput, Diff(serverOutput, localOutput), outputPercent,
      stands,
      within,
      threshold,
      status,
      match status
      case Error => [SignatureFailed]
      case Warning => CountNotes(inputPercent, outputPercent, threshold)
      case _ => []
    )
  }

  /**
   Validity, the valid status and an empty list of notes coincide; the status is an error exactly
   when a signature is present and does not stand.
   */
  lemma JudgeIsCoherent(
    requestId: string, serverInput: int, localInput: nat, serverOutput: int, localOutput: nat,
    threshold: real, signed: bool, stands: bool
  )
    ensures var o := Judge(requestId, serverInput, localInput, serverOutput, localOutput, threshold, signed, stands);
            && Coherent(o, threshold)
            && (o.status == Error <==> signed && !stands)
            && (o.status == Warning <==> (signed ==> stands) && !o.withinThreshold)
  {
    var notes := CountNotes(Percent(serverInput, localInput), Percent(serverOutput, localOutput), threshold);
    assert notes != [] ==> notes[0] != SignatureFailed;
    assert [SignatureFailed][0] == SignatureFailed;
  }

  /** A difference is the distance between the counts, and its percentage is of the reported count. */
  lemma DifferenceIsDistance(server: int, local: int)
    ensures server > 0 ==>
              && Diff(server, local) == (if server >= local then server - local else local - server)
              && Percent(server, local) * server as real == 100.0 * Diff(server, local) as real
    ensures server <= 0 ==> Diff(server, local) == 0 && Percent(server, local) == 0.0
  {
    if server > 0 {
      var (d, s) := (Diff(server, local) as real, server as real);
      QuotientTimes(d, s);
      ScaledProduct(d / s, s);
    }
  }

  ghost predicate AllCoherent(log: seq<Outcome>, threshold: real) {
    forall i :: 0 <= i < |log| ==> Coherent(log[i], threshold)
  }

  // ----- over-billing

  /** The outcome, if it is within the threshold. */
  function Counted(o: Outcome): seq<Outcome> {
    if o.withinThreshold then [o] else []
  }

  /** The outcomes within the threshold. */
  function Within(log: seq<Outcome>): seq<Outcome> {
    if log == [] then [] else Counted(log[0]) + Within(log[1..])
  }

  lemma {:induction false} WithinElements(log: seq<Outcome>, o: Outcome)
    ensures o in Within(log) <==> o in log && o.withinThreshold
  {
    if log != [] {
      WithinElements(log[1..], o);
      assert log == [log[0]] + log[1..];
    }
  }

  function Sum(xs: seq<int>): int {
    if xs == [] then 0 else xs[0] + Sum(xs[1..])
  }

  function Select(log: seq<Outcome>, f: Outcome -> int): (r: seq<int>)
    ensures |r| == |log|
    ensures forall i :: 0 <= i < |log| ==> r[i] == f(log[i])
  {
    seq(|log|, i requires 0 <= i < |log| => f(log[i]))
  }

  /** The total of one count over the outcomes within the threshold. */
  function Total(log: seq<Outcome>, f: Outcome -> int): int {
    Sum(Select(Within(log), f))
  }

  lemma {:induction false} WithinOfConcat(a: seq<Outcome>, b: seq<Outcome>)
    ensures Within(a + b) == Within(a) + Within(b)
  {
    hide Counted;
    if a == [] {
      assert a + b == b;
    } else {
      WithinOfConcat(a[1..], b);
      assert (a + b)[1..] == a[1..] + b;
    }
  }

  lemma {:induction false} SumOfConcat(a: seq<int>, b: seq<int>)
    ensures Sum(a + b) == Sum(a) + Sum(b)
  {
    if a == [] {
      assert a + b == b;
    } else {
      SumOfConcat(a[1..], b);
      assert (a + b)[1..] == a[1..] + b;
    }
  }

  /** A total counts every outcome within the threshold once, and no other. */
  lemma TotalAddsUp(log: seq<Outcome>, o: Outcome, f: Outcome -> int)
    ensures Total([], f) == 0
    ensures Total(log + [o], f) == Total(log, f) + if o.withinThreshold then f(o) else 0
  {
    WithinOfConcat(log, [o]);
    assert Within([o]) == if o.withinThreshold then [o] else [];
    assert Select(Within(log + [o]), f) == Select(Within(log), f) + Select(Within([o]), f);
    SumOfConcat(Select(Within(log), f), Select(Within([o]), f));
    assert Select([o], f) == [f(o)] && Select([], f) == [];
  }

  /** The reported count, less the allowance, is covered by the local count. */
  predicate Covered(server: int, local: int, threshold: real) {
    server as real * (100.0 - threshold) <= 100.0 * local as real
  }

  lemma PercentIsScaled(d: real, s: real, threshold: real)
    requires s > 0.0 && d / s * 100.0 <= threshold
    ensures 100.0 * d <= s * threshold
  {
    var q := d / s;
    assert q * s == d;
    ProductSign(s, threshold - q * 100.0);
    assert s * (threshold - q * 100.0) == s * threshold - 100.0 * (q * s);
  }

  lemma ScaledIsPercent(d: real, s: real, threshold: real)
    requires s > 0.0 && 100.0 * d <= s * threshold
    ensures d / s * 100.0 <= threshold
  {
    var q := d / s;
    assert q * s == d;
    assert s * (threshold - q * 100.0) == s * threshold - 100.0 * (q * s);
    FactorSign(s, threshold - q * 100.0);
  }

  lemma FactorSign(x: real, y: real)
    requires x > 0.0 && x * y >= 0.0
    ensures y >= 0.0
  {
  }

  /** The reported count is not positive, or the local one is within the threshold of it, on either side. */
  ghost predicate Tolerated(server: int, local: int, threshold: real) {
    || (server <= 0 && threshold >= 0.0)
    || (server > 0
        && server as real * (100.0 - threshold) <= 100.0 * local as real
        && 100.0 * local as real <= server as real * (100.0 + threshold))
  }

  lemma WithinIsTolerated(server: int, local: int, threshold: real)
    ensures Percent(server, local) <= threshold <==> Tolerated(server, local, threshold)
  {
    WithinFromBothSides(server, local, threshold);
  }

  /**
   The verdict from both sides: a positive reported count is within the threshold exactly when the
   local count lies between it less and it plus the allowance; a count that is not positive always is,
   unless the threshold is negative.
   */
  lemma WithinFromBothSides(server: int, local: int, threshold: real)
    ensures Percent(server, local) <= threshold <==>
              if server > 0 then
                && server as real * (100.0 - threshold) <= 100.0 * local as real
                && 100.0 * local as real <= server as real * (100.0 + threshold)
              else
                threshold >= 0.0
  {
    if server > 0 {
      var (s, l, d) := (server as real, local as real, Diff(server, local) as real);
      assert s * (100.0 - threshold) == 100.0 * s - s * threshold;
      assert s * (100.0 + threshold) == 100.0 * s + s * threshold;
      assert d == if s >= l then s - l else l - s;
      if Percent(server, local) <= threshold {
        PercentIsScaled(d, s, threshold);
      }
      if 100.0 * d <= s * threshold {
        ScaledIsPercent(d, s, threshold);
      }
    }
  }

  lemma ProductSign(x: real, y: real)
    requires y >= 0.0
    ensures x >= 0.0 ==> x * y >= 0.0
    ensures x <= 0.0 ==> x * y <= 0.0
  {
  }

  /** A reported count within the threshold exceeds the local one by a bounded factor. */
  lemma BoundOfOne(server: int, local: int, threshold: real)
    requires local >= 0 && threshold <= 100.0
    requires Percent(server, local) <= threshold
    ensures Covered(server, local, threshold)
  {
    var s := server as real;
    if server > 0 {
      var d := Diff(server, local) as real;
      PercentIsScaled(d, s, threshold);
      assert d >= s - local as real;
      assert s * (100.0 - threshold) == 100.0 * s - s * threshold;
    } else {
      ProductSign(s, 100.0 - threshold);
    }
  }

  lemma CoveredSum(s: int, l: int, t: int, m: int, threshold: real)
    requires Covered(s, l, threshold) && Covered(t, m, threshold)
    ensures Covered(s + t, l + m, threshold)
  {
    var slack := 100.0 - threshold;
    assert (s + t) as real * slack == s as real * slack + t as real * slack;
  }

  lemma {:induction false} SumsCovered(servers: seq<int>, locals: seq<int>, threshold: real)
    requires |servers| == |locals|
    requires forall i :: 0 <= i < |servers| ==> Covered(servers[i], locals[i], threshold)
    ensures Covered(Sum(servers), Sum(locals), threshold)
  {
    if servers != [] {
      SumsCovered(servers[1..], locals[1..], threshold);
      CoveredSum(servers[0], locals[0], Sum(servers[1..]), Sum(locals[1..]), threshold);
    }
  }

  lemma WithinIsCovered(log: seq<Outcome>, threshold: real, i: nat)
    requires threshold <= 100.0 && AllCoherent(log, threshold) && i < |Within(log)|
    ensures Covered(Within(log)[i].serverInput, Within(log)[i].localInput, threshold)
    ensures Covered(Within(log)[i].serverOutput, Within(log)[i].localOutput, threshold)
  {
    var o := Within(log)[i];
    WithinElements(log, o);
    assert Coherent(o, threshold);
    BoundOfOne(o.serverInput, o.localInput, threshold);
    BoundOfOne(o.serverOutput, o.localOutput, threshold);
  }

  /**
   Over any log, the tokens reported in outcomes within the threshold are covered by the local counts
   of those outcomes, for input and for output.
   */
  lemma OverbillingBound(log: seq<Outcome>, threshold: real)
    requires threshold <= 100.0
    requires AllCoherent(log, threshold)
    ensures Covered(Total(log, (o: Outcome) => o.serverInput), Total(log, (o: Outcome) => o.localInput), threshold)
    ensures Covered(Total(log, (o: Outcome) => o.serverOutput), Total(log, (o: Outcome) => o.localOutput), threshold)
  {
    var within := Within(log);
    forall i | 0 <= i < |within|
      ensures Covered(within[i].serverInput, within[i].localInput, threshold)
      ensures Covered(within[i].serverOutput, within[i].localOutput, threshold)
    {
      WithinIsCovered(log, threshold, i);
    }
    SumsCovered(
      Select(within, (o: Outcome) => o.serverInput), Select(within, (o: Outcome) => o.localInput), threshold);
    SumsCovered(
      Select(within, (o: Outcome) => o.serverOutput), Select(within, (o: Outcome) => o.localOutput), threshold);
  }

  lemma {:induction false} RealOfProduct(a: nat, b: nat)
    ensures (a * b) as real == a as real * b as real
  {
    if a > 0 {
      RealOfProduct(a - 1, b);
      assert a * b == (a - 1) * b + b;
      assert a as real * b as real == (a - 1) as real * b as real + b as real;
    }
  }

  lemma PercentOfMultiple(x: real, y: real)
    requires x > 0.0
    ensures x * y / (100.0 * x) * 100.0 == y
  {
    var q := x * y / (100.0 * x);
    assert q * (100.0 * x) == x * y;
    assert x * (q * 100.0 - y) == 0.0;
    if q * 100.0 < y {
      NonzeroProduct(x, y - q * 100.0);
    } else if q * 100.0 > y {
      NonzeroProduct(x, q * 100.0 - y);
    }
  }

  lemma NonzeroProduct(x: real, y: real)
    requires x > 0.0 && y > 0.0
    ensures x * y > 0.0
  {
  }

  /** The bound is reached: at every whole threshold some comparison within it meets the bound exactly. */
  lemma BoundIsTight(t: nat, k: nat)
    requires t <= 100 && k > 0
    ensures Percent(100 * k, (100 - t) * k) == t as real
    ensures (100 * k) as real * (100.0 - t as real) == 100.0 * ((100 - t) * k) as real
  {
    var (s, l) := (100 * k, (100 - t) * k);
    assert l == s - k * t;
    RealOfProduct(k, t);
    assert Diff(s, l) == k * t;
    PercentOfMultiple(k as real, t as real);
    RealOfProduct(k, 100 - t);
    assert l == k * (100 - t);
  }

  // ----- summary

  datatype Summary =
    | NothingLogged
    | Summary(
        total: nat,
        valid: nat,
        warnings: nat,
        errors: nat,
        validRate: real,
        averageInputPercent: real,
        averageOutputPercent: real
      )

  function Count(log: seq<Outcome>, status: Status): nat {
    if log == [] then 0 else (if log[0].status == status then 1 else 0) + Count(log[1..], status)
  }

  function SumOf(log: seq<Outcome>, f: Outcome -> real): real {
    if log == [] then 0.0 else f(log[0]) + SumOf(log[1..], f)
  }

  /** A sum counts every outcome once. */
  lemma {:induction false} SumOfOneMore(log: seq<Outcome>, o: Outcome, f: Outcome -> real)
    ensures SumOf([], f) == 0.0
    ensures SumOf(log + [o], f) == SumOf(log, f) + f(o)
  {
    if log == [] {
      assert log + [o] == [o];
    } else {
      SumOfOneMore(log[1..], o, f);
      assert (log + [o])[1..] == log[1..] + [o];
    }
  }

  function Summarize(log: seq<Outcome>): Summary {
    if log == [] then
      NothingLogged
    else
      var total := |log| as real;
      Summary(
        |log|,
        Count(log, Valid),
        Count(log, Warning),
        Count(log, Error),
        Count(log, Valid) as real / total * 100.0,
        SumOf(log, (o: Outcome) => o.inputPercent) / total,
        SumOf(log, (o: Outcome) => o.outputPercent) / total
      )
  }

  function Statuses(log: seq<Outcome>): (r: seq<Status>)
    ensures |r| == |log|
    ensures forall i :: 0 <= i < |log| ==> r[i] == log[i].status
  {
    seq(|log|, i requires 0 <= i < |log| => log[i].status)
  }

  lemma {:induction false} CountIsMultiplicity(log: seq<Outcome>, status: Status)
    ensures Count(log, status) == multiset(Statuses(log))[status]
  {
    if log != [] {
      CountIsMultiplicity(log[1..], status);
      assert Statuses(log) == [log[0].status] + Statuses(log[1..]);
    }
  }

  lemma {:induction false} StatusesAddUp(log: seq<Outcome>, threshold: real)
    requires AllCoherent(log, threshold)
    ensures Count(log, Valid) + Count(log, Warning) + Count(log, Error) == |log|
  {
    if log != [] {
      StatusesAddUp(log[1..], threshold);
    }
  }

  /**
   A summary counts how often each status was logged. The counts add up to the total, and the rate is
   100 exactly when nothing but valid entries was logged.
   */
  lemma SummaryAddsUp(log: seq<Outcome>, threshold: real)
    requires AllCoherent(log, threshold) && log != []
    ensures var s := Summarize(log);
            && s.valid == multiset(Statuses(log))[Valid]
            && s.warnings == multiset(Statuses(log))[Warning]
            && s.errors == multiset(Statuses(log))[Error]
            && s.valid + s.warnings + s.errors == s.total == |log|
            && 0.0 <= s.validRate <= 100.0
            && (s.validRate == 100.0 <==> s.warnings == 0 && s.errors == 0)
  {
    StatusesAddUp(log, threshold);
    CountIsMultiplicity(log, Valid);
    CountIsMultiplicity(log, Warning);
    CountIsMultiplicity(log, Error);
    RateOf(Count(log, Valid), |log|);
  }

  /** The rate and the averages, times the total, are the valid share and the sums of the percentages. */
  lemma AveragesAreOfSums(log: seq<Outcome>)
    requires log != []
    ensures var s := Summarize(log);
            && s.validRate * |log| as real == 100.0 * s.valid as real
            && s.averageInputPercent * |log| as real == SumOf(log, (o: Outcome) => o.inputPercent)
            && s.averageOutputPercent * |log| as real == SumOf(log, (o: Outcome) => o.outputPercent)
  {
    hide SumOf, Count;
    var total := |log| as real;
    QuotientTimes(Count(log, Valid) as real, total);
    QuotientTimes(SumOf(log, (o: Outcome) => o.inputPercent), total);
    QuotientTimes(SumOf(log, (o: Outcome) => o.outputPercent), total);
    ScaledProduct(Count(log, Valid) as real / total, total);
  }

  lemma ScaledProduct(x: real, y: real)
    ensures x * 100.0 * y == 100.0 * (x * y)
  {
  }

  lemma QuotientTimes(x: real, y: real)
    requires y > 0.0
    ensures x / y * y == x
  {
  }

  lemma RateOf(part: nat, whole: nat)
    requires part <= whole && whole > 0
    ensures 0.0 <= part as real / whole as real * 100.0 <= 100.0
    ensures part as real / whole as real * 100.0 == 100.0 <==> part == whole
  {
    var q := part as real / whole as real;
    assert q * whole as real == part as real;
    assert q > 1.0 ==> (q - 1.0) * whole as real > 0.0;
  }
}
