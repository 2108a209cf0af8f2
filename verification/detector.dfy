/**
 The decision half of the restart check: compare the current restart time
 with the last one recorded in the state file, classify the run, and say what
 the file holds afterwards. The file is its raw content, or None when it does
 not exist.
 */
module Detector {
  import opened Wrappers
  import opened Text
  import opened Sampler

  /** How one run of the check ends. */
  datatype Outcome =
    | Skip        // no usable restart time: nothing compared, nothing written
    | Initialize  // no file yet: the restart time becomes the baseline
    | Restarted   // the restart time differs from the recorded one
    | NoChange    // the restart time equals the recorded one

  /** The outcomes after which the file is rewritten. */
  predicate Writes(o: Outcome) {
    o.Initialize? || o.Restarted?
  }

  /**
   A sample the check acts on. Python treats None and the empty string as
   false, so these are the two samples the check skips.
   */
  predicate Usable(sample: Option<string>) {
    sample.Some? && sample.value != []
  }

  /** The recorded value as the check sees it: the file read in text mode, then stripped. */
  function ReadBack(content: string): (v: string)
    ensures StripsTo(TranslateNewlines(content), v)
    ensures IsStripped(v) && '\r' !in v
  {
    var text := TranslateNewlines(content);
    StripAddsNothing(text, '\r');
    StripIdempotent(text);
    Strip(text)
  }

  /** A clean sample written to the file reads back as itself. */
  lemma ReadBackOfClean(v: string)
    requires IsCleanSample(v)
    ensures ReadBack(v) == v
  {
    StripFixpoint(v);
  }

  /**
   One run of the check, given the sample and the file content before it;
   returns the outcome and the file content after it.
   */
  function Step(sample: Option<string>, stored: Option<string>): (r: (Outcome, Option<string>))
    ensures r.0.Skip? <==> sample == None || sample == Some("")
    ensures r.0.Initialize? <==> Usable(sample) && stored.None?
    ensures r.0.Restarted? <==> Usable(sample) && stored.Some? && ReadBack(stored.value) != sample.value
    ensures r.0.NoChange? <==> Usable(sample) && stored.Some? && ReadBack(stored.value) == sample.value
    ensures Writes(r.0) ==> r.1 == sample
    ensures !Writes(r.0) ==> r.1 == stored
  {
    if !Usable(sample) then (Skip, stored)
    else
      match stored
      case None => (Initialize, sample)
      case Some(content) =>
        if sample.value != ReadBack(content) then (Restarted, sample)
        else (NoChange, stored)
  }

  /** Whatever the outcome, a usable sample is what the file reads back as afterwards. */
  lemma StepRecordsSample(sample: Option<string>, stored: Option<string>)
    requires Usable(sample) && IsCleanSample(sample.value)
    ensures Step(sample, stored).1.Some?
    ensures ReadBack(Step(sample, stored).1.value) == sample.value
  {
    ReadBackOfClean(sample.value);
  }

  /**
   Re-observing the sample that a run has just written finds no change: the
   written value is already stripped and free of carriage returns, so reading
   it back gives it unchanged.
   */
  lemma ReobserveAfterWriteIsNoChange(sample: Option<string>, stored: Option<string>)
    requires IsQueryResult(sample)
    requires Writes(Step(sample, stored).0)
    ensures Step(sample, Step(sample, stored).1) == (NoChange, Step(sample, stored).1)
  {
    ReadBackOfClean(sample.value);
  }

  /** Observing the same query result twice leaves the file as the first run left it. */
  lemma StepIdempotent(sample: Option<string>, stored: Option<string>)
    requires IsQueryResult(sample)
    ensures var first := Step(sample, stored);
            var second := Step(sample, first.1);
            second.1 == first.1 && (second.0 == NoChange || second.0 == Skip)
  {
    if Usable(sample) {
      StepRecordsSample(sample, stored);
    }
  }

  /** The file holds nothing, or a value the query could have returned. */
  predicate CleanStore(stored: Option<string>) {
    stored.None? || IsCleanSample(stored.value)
  }

  /** Runs fed by the query never put anything but a clean value in the file. */
  lemma StepKeepsStoreClean(sample: Option<string>, stored: Option<string>)
    requires IsQueryResult(sample) && CleanStore(stored)
    ensures CleanStore(Step(sample, stored).1)
  {
  }

  /**
   The history of successive runs of the check: the outcome of each run, and
   the file content before the first run and after each run.
   */
  datatype Trace = Trace(outcomes: seq<Outcome>, files: seq<Option<string>>)

  /** `k` is the last run in `outcomes` that rewrote the file. */
  predicate IsLastWrite(outcomes: seq<Outcome>, k: int) {
    && 0 <= k < |outcomes|
    && Writes(outcomes[k])
    && forall j :: k < j < |outcomes| ==> !Writes(outcomes[j])
  }

  /**
   `t` is the history of running the check once per sample, starting from the
   file content `stored`: each run is `Step` on its sample and the file the
   runs before it left.
   */
  predicate IsRunOf(samples: seq<Option<string>>, stored: Option<string>, t: Trace) {
    && |t.outcomes| == |samples|
    && |t.files| == |samples| + 1
    && t.files[0] == stored
    && forall k :: 0 <= k < |samples| ==> Step(samples[k], t.files[k]) == (t.outcomes[k], t.files[k + 1])
  }

  /**
   In any such history the file at the end holds the sample of the last run
   that rewrote it, because opening the file for writing replaces its content,
   or the starting content when no run rewrote it.
   */
  lemma {:induction false} FinalIsLastWrite(samples: seq<Option<string>>, stored: Option<string>, t: Trace)
    requires IsRunOf(samples, stored, t)
    ensures forall k :: IsLastWrite(t.outcomes, k) ==> t.files[|samples|] == samples[k]
    ensures (forall k :: 0 <= k < |samples| ==> !Writes(t.outcomes[k])) ==> t.files[|samples|] == stored
  {
    var n := |samples|;
    if n > 0 {
      var prefix := Trace(t.outcomes[..n - 1], t.files[..n]);
      assert IsRunOf(samples[..n - 1], stored, prefix) by {
        forall k | 0 <= k < n - 1
          ensures Step(samples[..n - 1][k], prefix.files[k]) == (prefix.outcomes[k], prefix.files[k + 1])
        {
          assert Step(samples[k], t.files[k]) == (t.outcomes[k], t.files[k + 1]);
        }
      }
      FinalIsLastWrite(samples[..n - 1], stored, prefix);
      assert Step(samples[n - 1], t.files[n - 1]) == (t.outcomes[n - 1], t.files[n]);
      forall k | IsLastWrite(t.outcomes, k)
        ensures t.files[n] == samples[k]
      {
        if k < n - 1 {
          assert IsLastWrite(prefix.outcomes, k);
        }
      }
      if forall k :: 0 <= k < n ==> !Writes(t.outcomes[k]) {
        assert forall k :: 0 <= k < n - 1 ==> !Writes(prefix.outcomes[k]);
      }
    }
  }

  /** One run followed by the history of the later runs is the history of them all. */
  lemma RunOfCons(samples: seq<Option<string>>, stored: Option<string>, rest: Trace)
    requires |samples| >= 1
    requires IsRunOf(samples[1..], Step(samples[0], stored).1, rest)
    ensures IsRunOf(samples, stored, Trace([Step(samples[0], stored).0] + rest.outcomes, [stored] + rest.files))
  {
    var t := Trace([Step(samples[0], stored).0] + rest.outcomes, [stored] + rest.files);
    forall k | 0 <= k < |samples|
      ensures Step(samples[k], t.files[k]) == (t.outcomes[k], t.files[k + 1])
    {
      if k > 0 {
        assert samples[k] == samples[1..][k - 1];
      }
    }
  }

  /**
   Successive runs of the check, one per sample, with the file persisting
   between them. Each run sees the file the previous runs left; the file at
   the end holds the sample of the last run that rewrote it, or what it held
   at the start when no run did.
   */
  function Run(samples: seq<Option<string>>, stored: Option<string>): (t: Trace)
    ensures IsRunOf(samples, stored, t)
    ensures forall k :: IsLastWrite(t.outcomes, k) ==> t.files[|samples|] == samples[k]
    ensures (forall k :: 0 <= k < |samples| ==> !Writes(t.outcomes[k])) ==> t.files[|samples|] == stored
  {
    if samples == [] then Trace([], [stored])
    else
      var first := Step(samples[0], stored);
      var rest := Run(samples[1..], first.1);
      var t := Trace([first.0] + rest.outcomes, [stored] + rest.files);
      RunOfCons(samples, stored, rest);
      FinalIsLastWrite(samples, stored, t);
      t
  }

  /** `n` copies of `x`. */
  function Repeat<T>(x: T, n: nat): (xs: seq<T>)
    ensures |xs| == n
    ensures forall k :: 0 <= k < n ==> xs[k] == x
  {
    if n == 0 then [] else [x] + Repeat(x, n - 1)
  }

  /** A sample that leaves the file as it is, fed to any number of runs, keeps doing so. */
  lemma {:induction false} RunSettled(sample: Option<string>, n: nat, stored: Option<string>)
    requires Step(sample, stored).1 == stored
    ensures Run(Repeat(sample, n), stored) == Trace(Repeat(Step(sample, stored).0, n), Repeat(stored, n + 1))
  {
    if n > 0 {
      RunSettled(sample, n - 1, stored);
    }
  }

  /**
   Feeding the same query result to `n` consecutive runs: only the first can
   write; every later run reports no change (or skips, when there is no usable
   restart time) and the file keeps what the first run left.
   */
  lemma RepeatedQuery(sample: Option<string>, n: nat, stored: Option<string>)
    requires IsQueryResult(sample)
    requires n >= 1
    ensures var first := Step(sample, stored);
            var later := if sample == None || sample == Some("") then Skip else NoChange;
            Run(Repeat(sample, n), stored) == Trace([first.0] + Repeat(later, n - 1), [stored] + Repeat(first.1, n))
  {
    StepIdempotent(sample, stored);
    RunSettled(sample, n - 1, Step(sample, stored).1);
  }

  /** From no file, the first run initializes and every later run on the same result reports no change. */
  lemma FirstRunsInitializeThenSettle(sample: Option<string>, n: nat)
    requires IsQueryResult(sample) && Usable(sample)
    requires n >= 1
    ensures Run(Repeat(sample, n), None) == Trace([Initialize] + Repeat(NoChange, n - 1), [None] + Repeat(sample, n))
  {
    RepeatedQuery(sample, n, None);
  }

  /**
   Between values the query produced, a restart is reported exactly when the
   new value differs from the recorded one.
   */
  lemma RestartedIffDifferent(sample: Option<string>, stored: Option<string>)
    requires Usable(sample) && IsCleanSample(sample.value)
    requires stored.Some? && IsCleanSample(stored.value)
    ensures Step(sample, stored).0 == Restarted <==> sample != stored
    ensures Step(sample, stored).0 == NoChange <==> sample == stored
  {
    ReadBackOfClean(stored.value);
  }
}
