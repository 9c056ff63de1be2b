/** The command line and the decoding settings of the transcription script
    (scripts/local_transcribe.py, lines 15-20, 30-33 and 49-50). */
module Cli {

  datatype Result<T> = Ok(value: T) | Err(error: string)

  const UsageMessage := "Usage: python local_transcribe.py <audio_file_path> [model_size]"
  /** The model size used when the command line names none. */
  const DefaultModelSize := "small"

  /** What the command line selects: the audio file and the model size. */
  datatype Args = Args(audioPath: string, modelSize: string)

  /** Reads `sys.argv` (the script name first): one or two arguments after
      the script name are accepted, the second being the model size; any
      other count is a usage error. */
  function ParseArgs(argv: seq<string>): (r: Result<Args>)
    ensures r.Ok? <==> 2 <= |argv| <= 3
    ensures r.Err? ==> r.error == UsageMessage
    ensures r.Ok? ==> r.value.audioPath == argv[1]
    ensures r.Ok? && |argv| == 3 ==> r.value.modelSize == argv[2]
    ensures r.Ok? && |argv| == 2 ==> r.value.modelSize == DefaultModelSize
  {
    if |argv| < 2 || |argv| > 3 then Err(UsageMessage)
    else Ok(Args(argv[1], if |argv| == 3 then argv[2] else DefaultModelSize))
  }

  /** The full command line that selects `args`. */
  function CommandLine(script: string, args: Args): seq<string> {
    [script, args.audioPath, args.modelSize]
  }

  /** Reading a full command line gives back what it selects. */
  lemma ParseArgsRoundTrip(script: string, args: Args)
    ensures ParseArgs(CommandLine(script, args)) == Ok(args)
  {
  }

  /** Leaving the model size out is the same as asking for the default one. */
  lemma OmittedModelSizeIsDefault(script: string, path: string)
    ensures ParseArgs([script, path]) == ParseArgs([script, path, DefaultModelSize])
  {
  }

  /** The device and decoding settings handed to the speech model. */
  datatype Settings = Settings(device: string, computeType: string, beamSize: nat, vadFilter: bool)

  /** With CUDA: the GPU, half-precision weights, beam search of width 5 and
      voice-activity filtering. Without: the CPU, 8-bit weights, greedy
      decoding (beam width 1) and no filtering. */
  function SelectSettings(cudaAvailable: bool): (s: Settings)
    ensures cudaAvailable ==> s == Settings("cuda", "float16", 5, true)
    ensures !cudaAvailable ==> s == Settings("cpu", "int8", 1, false)
  {
    Settings(
      if cudaAvailable then "cuda" else "cpu",
      if cudaAvailable then "float16" else "int8",
      if cudaAvailable then 5 else 1,
      cudaAvailable)
  }

  /** Half precision, beam search and voice-activity filtering are used
      exactly when the device is the GPU, and the GPU exactly when CUDA is available. */
  lemma SettingsFollowDevice(cudaAvailable: bool)
    ensures var s := SelectSettings(cudaAvailable);
      (s.device == "cuda" <==> cudaAvailable)
      && (s.computeType == "float16" <==> s.device == "cuda")
      && (s.beamSize > 1 <==> s.device == "cuda")
      && (s.vadFilter <==> s.device == "cuda")
  {
  }
}
