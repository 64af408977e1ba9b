/**
 * The summariser as the controller sees it. Spawning the script and collecting its
 * streams is I/O; what remains is the rule that turns the way the run ended into a
 * result or an error.
 */
module SummarizationService {
  import opened Wrappers
  import opened Text

  /** `importantTerms` as JSON delivers it: absent, an array of strings, or an object whose entries keep their order. */
  datatype Terms = NoTerms | TermList(items: seq<string>) | TermObject(entries: seq<(string, string)>)

  /** The parsed standard output of the script. */
  datatype SummaryData = SummaryData(summary: string, keyPoints: seq<string>, importantTerms: Terms)

  /**
   * How a run ended: the exit code (None when a signal ended it and `code` is null) with
   * the standard output parsed as JSON (None when it does not parse); or a spawn error.
   */
  datatype Run = Exited(code: Option<int>, output: Option<SummaryData>) | SpawnFailed(message: string)

  const ExitPrefix: string := "Video özeti oluşturulamadı. Hata kodu: "
  const ParseFailure: string := "Özet verisi ayrıştırılamadı"

  /** A number as a template literal writes it. */
  function IntText(i: int): string {
    if i >= 0 then NatToString(i) else "-" + NatToString(-i)
  }

  function CodeText(code: Option<int>): string {
    if code.None? then "null" else IntText(code.value)
  }

  /** The `close` and `error` handlers: the run's result, or the message of the error it is rejected with. */
  function Outcome(run: Run): (r: Result<SummaryData, string>)
    ensures r.Ok? <==> run.Exited? && run.code == Some(0) && run.output.Some?
    ensures r.Ok? ==> r.value == run.output.value
    ensures run.Exited? && run.code != Some(0) ==> r == Err(ExitPrefix + CodeText(run.code))
    ensures run.Exited? && run.code == Some(0) && run.output.None? ==> r == Err(ParseFailure)
    ensures run.Exited? && r.Err? ==> r.error != ""
  {
    match run
    case SpawnFailed(message) => Err(message)
    case Exited(code, output) =>
      if code != Some(0) then Err(ExitPrefix + CodeText(code))
      else if output.None? then Err(ParseFailure)
      else Ok(output.value)
  }

  /** A non-zero exit fails whatever the script printed. */
  lemma ExitCodeDecides(code: Option<int>, printed1: Option<SummaryData>, printed2: Option<SummaryData>)
    requires code != Some(0)
    ensures Outcome(Exited(code, printed1)) == Outcome(Exited(code, printed2))
    ensures Outcome(Exited(code, printed1)).Err?
  {
  }
}
