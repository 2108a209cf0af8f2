/**
 The value-extraction half of the restart check: turning the result of
 `systemctl show <service> --property=ActiveEnterTimestamp` into the opaque
 timestamp string that is compared and stored.
 */
module Sampler {
  import opened Wrappers
  import opened Text

  /**
   What running the query produced: the process exited with a return code and
   raw standard output, or starting or talking to it raised an exception.
   */
  datatype Invocation = Exited(returnCode: int, rawStdout: string) | Raised

  /** The separator between property name and value in `systemctl show` output. */
  const Separator: char := '='

  /** Standard output as the text-mode pipe delivers it. */
  function Stdout(p: Invocation): string
    requires p.Exited?
  {
    TranslateNewlines(p.rawStdout)
  }

  /** A value the query can return: stripped, with no separator and no carriage return. */
  predicate IsCleanSample(v: string) {
    IsStripped(v) && Separator !in v && '\r' !in v
  }

  /** A result the query can give: None, or a clean value. */
  predicate IsQueryResult(r: Option<string>) {
    r.None? || IsCleanSample(r.value)
  }

  /**
   The restart time of the service: the text after the last separator in
   standard output, stripped; None on a non-zero return code or an exception.
   */
  function RestartTime(p: Invocation): (r: Option<string>)
    ensures r.Some? <==> p.Exited? && p.returnCode == 0
    ensures IsQueryResult(r)
    ensures r.Some? ==> StripsTo(AfterLast(Stdout(p), Separator), r.value)
  {
    match p
    case Raised => None
    case Exited(code, out) =>
      if code != 0 then None
      else
        var out := Stdout(p);
        var field := LastField(out, Separator);
        LastFieldIsAfterLast(out, Separator);
        assert '\r' !in field by {
          assert forall k :: 0 <= k < |field| ==> field[k] == out[|out| - |field| + k];
        }
        StripAddsNothing(field, Separator);
        StripAddsNothing(field, '\r');
        StripIdempotent(field);
        Some(Strip(field))
  }

  /** With no separator in the output, the value is the whole output, stripped. */
  lemma RestartTimeWithoutSeparator(p: Invocation)
    requires p.Exited? && p.returnCode == 0
    requires Separator !in Stdout(p)
    ensures RestartTime(p) == Some(Strip(Stdout(p)))
  {
    var out := Stdout(p);
    LastFieldIsAfterLast(out, Separator);
    assert IsAfterLast(out, Separator, out);
    IsAfterLastIsUnique(out, Separator, out, AfterLast(out, Separator));
  }
}
