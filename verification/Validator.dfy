/** The client's receipt validator: compares, checks the signature, and logs every result. */
module Validator {
  import opened Common
  import opened Json
  import opened Receipts
  import opened Signer
  import opened Billing

  /** Token counting is left to the caller: any non-negative counts. */
  datatype TokenCounter = TokenCounter(count: string -> nat, countMessages: seq<Json> -> nat)

  /** What the client sent and received, as far as it is known. */
  datatype LocalTexts = LocalTexts(inputText: string, outputText: string, messages: seq<Json>)

  function CountInput(counter: TokenCounter, texts: LocalTexts): nat {
    if texts.messages != [] then counter.countMessages(texts.messages)
    else if texts.inputText != "" then counter.count(texts.inputText)
    else 0
  }

  function CountOutput(counter: TokenCounter, texts: LocalTexts): nat {
    if texts.outputText != "" then counter.count(texts.outputText) else 0
  }

  /** A receipt's signature text is not empty. */
  predicate IsSigned(receipt: Receipt) {
    receipt.signature != Other([])
  }

  /** The signature is present, comes with a public key, and is accepted under the configured key. */
  ghost predicate Stands(key: Option<Key>, receipt: Receipt) {
    && IsSigned(receipt) && receipt.publicKey != ""
    && key.Some? && Accepts(key.value, FromReceipt(receipt), receipt.signature)
  }

  ghost function SignatureError(key: Option<Key>, receipt: Receipt): Option<VerifyError> {
    if IsSigned(receipt) && receipt.publicKey != "" && !Stands(key, receipt) then
      Some(FailureReason(key, receipt.signature))
    else
      None
  }

  /** The outcome with the counts compared and nothing else settled. */
  function Compared(receipt: Receipt, texts: LocalTexts, counter: TokenCounter, threshold: real): Outcome {
    var (localInput, localOutput) := (CountInput(counter, texts), CountOutput(counter, texts));
    var inputPercent := Percent(receipt.inputTokens, localInput);
    var outputPercent := Percent(receipt.outputTokens, localOutput);
    Outcome(
      receipt.requestId, false,
      receipt.inputTokens, localInput, Diff(receipt.inputTokens, localInput), inputPercent,
      receipt.outputTokens, localOutput, Diff(receipt.outputTokens, localOutput), outputPercent,
      false, inputPercent <= threshold && outputPercent <= threshold, threshold, Unknown, []
    )
  }

  /** The outcome that a receipt, the local texts and the configured key call for. */
  ghost function Expected(
    receipt: Receipt, texts: LocalTexts, counter: TokenCounter, threshold: real, key: Option<Key>
  ): Outcome {
    Judge(
      receipt.requestId,
      receipt.inputTokens, CountInput(counter, texts),
      receipt.outputTokens, CountOutput(counter, texts),
      threshold,
      IsSigned(receipt),
      Stands(key, receipt)
    )
  }

  /** Every outcome is coherent, and is an error exactly when a present signature does not stand. */
  lemma ExpectedIsCoherent(
    receipt: Receipt, texts: LocalTexts, counter: TokenCounter, threshold: real, key: Option<Key>
  )
    ensures var o := Expected(receipt, texts, counter, threshold, key);
            && Coherent(o, threshold)
            && (o.status == Error <==> IsSigned(receipt) && !Stands(key, receipt))
            && (o.status == Warning <==> (IsSigned(receipt) ==> Stands(key, receipt)) && !o.withinThreshold)
  {
    JudgeIsCoherent(
      receipt.requestId,
      receipt.inputTokens, CountInput(counter, texts),
      receipt.outputTokens, CountOutput(counter, texts),
      threshold,
      IsSigned(receipt),
      Stands(key, receipt)
    );
  }

  /** The counts of an outcome are those of the receipt and of the local texts. */
  ghost predicate CountsAreOf(o: Outcome, receipt: Receipt, texts: LocalTexts, counter: TokenCounter) {
    && o.requestId == receipt.requestId
    && o.serverInput == receipt.inputTokens && o.serverOutput == receipt.outputTokens
    && (texts.messages != [] ==> o.localInput == counter.countMessages(texts.messages))
    && (texts.messages == [] && texts.inputText != "" ==> o.localInput == counter.count(texts.inputText))
    && (texts.messages == [] && texts.inputText == "" ==> o.localInput == 0)
    && (texts.outputText != "" ==> o.localOutput == counter.count(texts.outputText))
    && (texts.outputText == "" ==> o.localOutput == 0)
  }

  /** The verdict of an outcome, from its counts, the threshold and the signature's standing alone. */
  ghost predicate VerdictIsOf(o: Outcome, receipt: Receipt, threshold: real, stands: bool) {
    && o.threshold == threshold
    && o.signatureValid == stands
    && (o.withinThreshold <==>
          Tolerated(o.serverInput, o.localInput, threshold) && Tolerated(o.serverOutput, o.localOutput, threshold))
    && (o.status == Error <==> receipt.signature != Other([]) && !stands)
    && (o.status == Warning <==> (receipt.signature == Other([]) || stands) && !o.withinThreshold)
    && (o.status == Status.Valid <==> (receipt.signature == Other([]) || stands) && o.withinThreshold)
    && (o.isValid <==> o.status == Status.Valid)
  }

  /** The distance of the local count from a positive reported one, and what percentage of it that is. */
  ghost predicate DifferenceIs(server: int, local: int, diff: int, percent: real) {
    && (server <= 0 ==> diff == 0 && percent == 0.0)
    && (server > 0 ==> diff == (if server >= local then server - local else local - server))
    && (server > 0 ==> percent * server as real == 100.0 * diff as real)
  }

  /** The notes of an outcome: a failed signature alone, or the counts that are not tolerated, input first. */
  ghost predicate NotesAreOf(o: Outcome, threshold: real) {
    && (o.status == Error ==> o.notes == [SignatureFailed])
    && (o.status == Status.Valid ==> o.notes == [])
    && (o.status == Warning ==>
          o.notes ==
          (if Tolerated(o.serverInput, o.localInput, threshold) then [] else [InputDiffers(o.inputPercent, threshold)])
          + (if Tolerated(o.serverOutput, o.localOutput, threshold) then []
             else [OutputDiffers(o.outputPercent, threshold)]))
  }

  /**
   The outcome of one call, described without the functions that compute it: counts, differences from
   both sides, and a signature that is genuine for one of the receipt's forms under the configured key.
   */
  ghost predicate IsOutcomeOf(
    o: Outcome, receipt: Receipt, texts: LocalTexts, counter: TokenCounter, threshold: real, key: Option<Key>
  ) {
    && CountsAreOf(o, receipt, texts, counter)
    && DifferenceIs(o.serverInput, o.localInput, o.inputDiff, o.inputPercent)
    && DifferenceIs(o.serverOutput, o.localOutput, o.outputDiff, o.outputPercent)
    && NotesAreOf(o, threshold)
    && VerdictIsOf(
         o, receipt, threshold,
         && receipt.signature != Other([]) && receipt.publicKey != "" && key.Some?
         && receipt.signature in {Genuine(key.value, FullBytes(receipt)), Genuine(key.value, LegacyBytes(receipt))})
  }

  lemma DifferenceOf(server: int, local: int)
    ensures DifferenceIs(server, local, Diff(server, local), Percent(server, local))
  {
    DifferenceIsDistance(server, local);
  }

  lemma ExpectedNotes(
    receipt: Receipt, texts: LocalTexts, counter: TokenCounter, threshold: real, key: Option<Key>
  )
    ensures NotesAreOf(Expected(receipt, texts, counter, threshold, key), threshold)
  {
    hide Tolerated, Percent, Diff, CountInput, CountOutput, Stands, IsSigned;
    WithinIsTolerated(receipt.inputTokens, CountInput(counter, texts), threshold);
    WithinIsTolerated(receipt.outputTokens, CountOutput(counter, texts), threshold);
  }

  lemma ExpectedIsOutcome(
    receipt: Receipt, texts: LocalTexts, counter: TokenCounter, threshold: real, key: Option<Key>
  )
    ensures IsOutcomeOf(
              Expected(receipt, texts, counter, threshold, key), receipt, texts, counter, threshold, key)
  {
    hide Tolerated, Percent, Diff, CountNotes, Accepts, DifferenceIs, NotesAreOf;
    ExpectedNotes(receipt, texts, counter, threshold, key);
    DifferenceOf(receipt.inputTokens, CountInput(counter, texts));
    DifferenceOf(receipt.outputTokens, CountOutput(counter, texts));
    WithinIsTolerated(receipt.inputTokens, CountInput(counter, texts), threshold);
    WithinIsTolerated(receipt.outputTokens, CountOutput(counter, texts), threshold);
    if key.Some? {
      AcceptsMeaning(key.value, FromReceipt(receipt), receipt.signature);
    }
  }

  class VerificationResult {
    var requestId: string
    var isValid: bool
    var serverInput: int
    var localInput: int
    var inputDiff: int
    var inputPercent: real
    var serverOutput: int
    var localOutput: int
    var outputDiff: int
    var outputPercent: real
    var signatureValid: bool
    var signatureError: Option<VerifyError>
    var withinThreshold: bool
    var threshold: real
    var status: Status
    var notes: seq<Note>

    constructor (requestId: string, threshold: real)
      ensures View() == Outcome(requestId, false, 0, 0, 0, 0.0, 0, 0, 0, 0.0, false, false, threshold, Unknown, [])
      ensures signatureError == None
    {
      this.requestId, this.threshold := requestId, threshold;
      isValid, signatureValid, withinThreshold := false, false, false;
      serverInput, localInput, inputDiff, inputPercent := 0, 0, 0, 0.0;
      serverOutput, localOutput, outputDiff, outputPercent := 0, 0, 0, 0.0;
      signatureError, status, notes := None, Unknown, [];
    }

    function View(): Outcome
      reads this
    {
      Outcome(
        requestId, isValid, serverInput, localInput, inputDiff, inputPercent, serverOutput, localOutput,
        outputDiff, outputPercent, signatureValid, withinThreshold, threshold, status, notes
      )
    }

    /** Records the reported counts and the local ones. */
    method RecordCounts(receipt: Receipt, counter: TokenCounter, texts: LocalTexts)
      requires localInput == 0 && localOutput == 0
      modifies this
      ensures View() == old(View()).(
                serverInput := receipt.inputTokens,
                serverOutput := receipt.outputTokens,
                localInput := CountInput(counter, texts),
                localOutput := CountOutput(counter, texts)
              )
      ensures signatureError == old(signatureError)
    {
      serverInput := receipt.inputTokens;
      serverOutput := receipt.outputTokens;
      if texts.messages != [] {
        localInput := counter.countMessages(texts.messages);
      } else if texts.inputText != "" {
        localInput := counter.count(texts.inputText);
      }
      if texts.outputText != "" {
        localOutput := counter.count(texts.outputText);
      }
    }

    /** Computes the differences and checks the threshold. */
    method CompareCounts()
      requires inputDiff == 0 && inputPercent == 0.0 && outputDiff == 0 && outputPercent == 0.0
      modifies this
      ensures View() == old(View()).(
                inputDiff := Diff(serverInput, localInput),
                inputPercent := Percent(serverInput, localInput),
                outputDiff := Diff(serverOutput, localOutput),
                outputPercent := Percent(serverOutput, localOutput),
                withinThreshold :=
                  Percent(serverInput, localInput) <= threshold && Percent(serverOutput, localOutput) <= threshold
              )
      ensures signatureError == old(signatureError)
    {
      if serverInput > 0 {
        inputDiff := Abs(serverInput - localInput);
        inputPercent := inputDiff as real / serverInput as real * 100.0;
      }
      if serverOutput > 0 {
        outputDiff := Abs(serverOutput - localOutput);
        outputPercent := outputDiff as real / serverOutput as real * 100.0;
      }
      var maxDiff := if inputPercent >= outputPercent then inputPercent else outputPercent;
      withinThreshold := maxDiff <= threshold;
    }

    /** Settles the status, the notes and validity from the signature and the threshold. */
    method Conclude(signed: bool)
      requires notes == []
      modifies this`status, this`notes, this`isValid
      ensures status == (if signed && !signatureValid then Error else if withinThreshold then Status.Valid else Warning)
      ensures isValid <==> status == Status.Valid
      ensures status == Error ==> notes == [SignatureFailed]
      ensures status == Warning ==> notes == CountNotes(inputPercent, outputPercent, threshold)
      ensures status == Status.Valid ==> notes == []
    {
      if !signatureValid && signed {
        status := Error;
        notes := notes + [SignatureFailed];
      } else if !withinThreshold {
        status := Warning;
        if inputPercent > threshold {
          notes := notes + [InputDiffers(inputPercent, threshold)];
        }
        if outputPercent > threshold {
          notes := notes + [OutputDiffers(outputPercent, threshold)];
        }
      } else {
        status := Status.Valid;
      }
      isValid := status == Status.Valid;
    }
  }

  function Views(results: seq<VerificationResult>): (views: seq<Outcome>)
    reads results
    ensures |views| == |results|
    ensures forall i :: 0 <= i < |views| ==> views[i] == results[i].View()
  {
    if results == [] then [] else [results[0].View()] + Views(results[1..])
  }

  lemma ViewsOneMore(results: seq<VerificationResult>, r: VerificationResult)
    ensures Views(results + [r]) == Views(results) + [r.View()]
  {
  }

  // ----- runs

  /** One call of `Verify`, with the key configured at that time. */
  datatype Call = Call(receipt: Receipt, texts: LocalTexts, key: Option<Key>)

  /** What one call logs. */
  ghost function Logged(c: Call, counterFor: string -> TokenCounter, threshold: real): Outcome {
    Expected(c.receipt, c.texts, counterFor(c.receipt.model), threshold, c.key)
  }

  /** The log after a run of calls. */
  ghost function LogOf(calls: seq<Call>, counterFor: string -> TokenCounter, threshold: real): (log: seq<Outcome>)
    ensures |log| == |calls|
    ensures forall i :: 0 <= i < |calls| ==> log[i] == Logged(calls[i], counterFor, threshold)
  {
    seq(|calls|, i requires 0 <= i < |calls| => Logged(calls[i], counterFor, threshold))
  }

  lemma LogOneMore(calls: seq<Call>, c: Call, counterFor: string -> TokenCounter, threshold: real)
    ensures LogOf(calls + [c], counterFor, threshold) ==
            LogOf(calls, counterFor, threshold) + [Logged(c, counterFor, threshold)]
  {
  }

  /** Every entry of the log of any run is coherent. */
  lemma RunsAreCoherent(calls: seq<Call>, counterFor: string -> TokenCounter, threshold: real)
    ensures AllCoherent(LogOf(calls, counterFor, threshold), threshold)
  {
    forall i | 0 <= i < |calls| ensures Coherent(LogOf(calls, counterFor, threshold)[i], threshold) {
      ExpectedIsCoherent(calls[i].receipt, calls[i].texts, counterFor(calls[i].receipt.model), threshold, calls[i].key);
    }
  }

  /**
   Over any run of calls, with any counters and a threshold of at most 100 percent, the tokens
   reported by receipts within the threshold are covered by the local counts.
   */
  lemma RunsAreNotOverbilled(calls: seq<Call>, counterFor: string -> TokenCounter, threshold: real)
    requires threshold <= 100.0
    ensures var log := LogOf(calls, counterFor, threshold);
            && Covered(Total(log, (o: Outcome) => o.serverInput), Total(log, (o: Outcome) => o.localInput), threshold)
            && Covered(Total(log, (o: Outcome) => o.serverOutput), Total(log, (o: Outcome) => o.localOutput), threshold)
  {
    RunsAreCoherent(calls, counterFor, threshold);
    OverbillingBound(LogOf(calls, counterFor, threshold), threshold);
  }

  class ReceiptValidator {
    const threshold: real
    const counterFor: string -> TokenCounter
    const verifier: ReceiptVerifier
    var auditLog: seq<VerificationResult>
    ghost var calls: seq<Call>

    /** The log is the log of the calls so far. */
    ghost predicate Valid()
      reads this, auditLog
    {
      Views(auditLog) == LogOf(calls, counterFor, threshold)
    }

    constructor (key: Option<Key>, threshold: real, counterFor: string -> TokenCounter)
      ensures Valid() && auditLog == [] && calls == [] && fresh(verifier)
      ensures this.threshold == threshold && this.counterFor == counterFor && verifier.verifyKey == key
    {
      this.threshold, this.counterFor := threshold, counterFor;
      verifier := new ReceiptVerifier(key);
      auditLog, calls := [], [];
    }

    method SetPublicKey(key: Key)
      requires Valid()
      modifies verifier
      ensures Valid() && verifier.verifyKey == Some(key)
      ensures auditLog == old(auditLog) && calls == old(calls)
    {
      verifier.SetPublicKey(key);
    }

    /** Checks the signature of a receipt that carries one together with a public key. */
    method CheckSignature(receipt: Receipt) returns (ok: bool, error: Option<VerifyError>)
      ensures ok <==> Stands(verifier.verifyKey, receipt)
      ensures error == SignatureError(verifier.verifyKey, receipt)
    {
      ok, error := false, None;
      if IsSigned(receipt) && receipt.publicKey != "" {
        ok, error := verifier.Verify(FromReceipt(receipt), receipt.signature);
      }
    }

    /** A fresh result with the counts compared. */
    method Compare(receipt: Receipt, texts: LocalTexts) returns (result: VerificationResult)
      ensures fresh(result) && result.signatureError == None && result.status == Unknown
      ensures result.View() == Compared(receipt, texts, counterFor(receipt.model), threshold)
    {
      result := new VerificationResult(receipt.requestId, threshold);
      result.RecordCounts(receipt, counterFor(receipt.model), texts);
      result.CompareCounts();
    }

    /** Compares a receipt with the local texts and checks its signature, without logging. */
    method Assess(receipt: Receipt, texts: LocalTexts) returns (result: VerificationResult)
      ensures fresh(result)
      ensures result.View() == Expected(receipt, texts, counterFor(receipt.model), threshold, verifier.verifyKey)
      ensures result.signatureError == SignatureError(verifier.verifyKey, receipt)
    {
      hide CountInput, CountOutput, Stands, SignatureError;
      result := Compare(receipt, texts);
      var ok, error := CheckSignature(receipt);
      result.signatureValid := ok;
      if error.Some? {
        result.signatureError := error;
      }
      result.Conclude(IsSigned(receipt));
    }

    /**
     Logs and returns a fresh result. Earlier entries keep their place and value, and the new entry
     is what the receipt, the local texts and the configured key call for.
     */
    method Verify(receipt: Receipt, texts: LocalTexts) returns (result: VerificationResult)
      requires Valid()
      modifies this`auditLog, this`calls
      ensures Valid()
      ensures fresh(result) && auditLog == old(auditLog) + [result]
      ensures calls == old(calls) + [Call(receipt, texts, verifier.verifyKey)]
      ensures Views(auditLog) == old(Views(auditLog)) + [result.View()]
      ensures result.View() == Expected(receipt, texts, counterFor(receipt.model), threshold, verifier.verifyKey)
      ensures IsOutcomeOf(
                result.View(), receipt, texts, counterFor(receipt.model), threshold, verifier.verifyKey)
      ensures result.signatureError == SignatureError(verifier.verifyKey, receipt)
    {
      ExpectedIsOutcome(receipt, texts, counterFor(receipt.model), threshold, verifier.verifyKey);
      hide Expected, IsOutcomeOf, SignatureError, Views, LogOf;
      result := Assess(receipt, texts);
      ViewsOneMore(auditLog, result);
      LogOneMore(calls, Call(receipt, texts, verifier.verifyKey), counterFor, threshold);
      auditLog := auditLog + [result];
      calls := calls + [Call(receipt, texts, verifier.verifyKey)];
    }

    /** A copy of the log. */
    method GetAuditLog() returns (log: seq<VerificationResult>)
      ensures log == auditLog
    {
      log := auditLog;
    }

    /** The summary of the log; its counts add up. */
    method GetSummary() returns (summary: Summary)
      requires Valid()
      ensures summary == Summarize(Views(auditLog))
      ensures summary.NothingLogged? <==> auditLog == []
      ensures summary.Summary? ==> summary.valid + summary.warnings + summary.errors == summary.total == |auditLog|
      ensures summary.Summary? ==>
                var statuses := multiset(Statuses(Views(auditLog)));
                && summary.valid == statuses[Status.Valid]
                && summary.warnings == statuses[Warning]
                && summary.errors == statuses[Error]
    {
      summary := Summarize(Views(auditLog));
      RunsAreCoherent(calls, counterFor, threshold);
      if auditLog != [] {
        SummaryAddsUp(Views(auditLog), threshold);
      }
    }
  }
}
