/** The body of `main` in scripts/local_transcribe.py: read the command line,
    choose the settings, collect the segments the speech model yields and
    guard the result against repetition. The speech model itself is not part
    of this model: its detected language and its segments are parameters. */
module LocalTranscribe {
  import opened Text
  import opened Segments
  import opened Repetition
  import opened Cli

  /** The fields of the script's JSON result that do not come from the clock
      or from floating-point model statistics. */
  datatype Report = Report(
    text: string,
    language: string,
    device: string,
    computeType: string,
    modelSize: string,
    beamSize: nat,
    vadFilter: bool,
    cudaAvailable: bool)

  /** A usage error for a wrong argument count; otherwise the report, whose
      text is the collected segments after the repetition guard and never
      starts or ends with whitespace. */
  method Transcribe(argv: seq<string>, cudaAvailable: bool, language: string, segments: seq<string>)
    returns (r: Result<Report>)
    ensures r.Err? <==> !(2 <= |argv| <= 3)
    ensures r.Err? ==> r.error == UsageMessage
    ensures r.Ok? ==> r.value.text == GuardRepetition(Assemble(segments)) && Trimmed(r.value.text)
    ensures r.Ok? ==> r.value.modelSize == ParseArgs(argv).value.modelSize && r.value.language == language
    ensures r.Ok? ==>
      var s := SelectSettings(cudaAvailable);
      r.value.device == s.device && r.value.computeType == s.computeType
      && r.value.beamSize == s.beamSize && r.value.vadFilter == s.vadFilter
      && r.value.cudaAvailable == cudaAvailable
  {
    var parsed := ParseArgs(argv);
    if parsed.Err? {
      return Err(parsed.error);
    }
    var settings := SelectSettings(cudaAvailable);
    var collected := CollectText(segments);
    var text := GuardRepetition(collected);
    GuardKeepsTrimmed(collected);
    r := Ok(Report(text, language, settings.device, settings.computeType, parsed.value.modelSize,
                   settings.beamSize, settings.vadFilter, cudaAvailable));
  }
}
