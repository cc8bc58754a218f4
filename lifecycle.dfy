/** The file lifecycle as functions of the two directories: the names a
    transcription writes, the status objects, what a background job leaves
    behind, what delete removes, and the invariant that no transcription
    stays "processing" without a job that will finish it. */
module Lifecycle {
  import opened Json
  import opened Paths
  import opened Dirs

  // ---------------------------------------------------------------------
  // Names derived from an input file name

  function StatusNameOf(filename: string): string { StatusName(BaseName(filename)) }
  function MetadataNameOf(filename: string): string { MetadataName(BaseName(filename)) }
  function TranscriptNameOf(filename: string): string { TranscriptName(BaseName(filename)) }

  /** The output names that belong to an input file; delete_file removes
      exactly these. */
  function Targets(filename: string): (t: set<string>)
    ensures |t| == 3
    ensures forall n :: n in t <==> n == TranscriptNameOf(filename) || n == MetadataNameOf(filename) || n == StatusNameOf(filename)
  {
    var b := BaseName(filename);
    DerivedNamesDisjoint(b, b);
    {TranscriptName(b), MetadataName(b), StatusName(b)}
  }

  /** Two input files share their output names exactly when they share
      their base name. */
  lemma TargetsShared(f: string, g: string)
    ensures StatusNameOf(f) == StatusNameOf(g) <==> BaseName(f) == BaseName(g)
    ensures StatusNameOf(f) != MetadataNameOf(g) && StatusNameOf(f) != TranscriptNameOf(g)
  {
    DerivedNamesDisjoint(BaseName(f), BaseName(g));
  }

  // ---------------------------------------------------------------------
  // Status files

  /** What transcribe_file reads as the current status of a base: the
      "status" key of its status file, or None when the file is missing,
      does not parse or has no such key. */
  function CurrentStatus(outputs: OutputDir, base: string): (v: Value)
    ensures v != Null ==> StatusName(base) in outputs && outputs[StatusName(base)].Object? &&
                          "status" in outputs[StatusName(base)].fields
  {
    var n := StatusName(base);
    if n in outputs && outputs[n].Object? then Get(outputs[n].fields, "status") else Null
  }

  predicate IsProcessing(outputs: OutputDir, base: string) {
    CurrentStatus(outputs, base) == Str("processing")
  }

  function ProcessingStatus(now: string): Fields {
    map["status" := Str("processing"), "started_at" := Str(now)]
  }

  function ErrorStatus(message: string, now: string): Fields {
    map["status" := Str("error"), "error" := Str(message), "completed_at" := Str(now)]
  }

  function CompletedStatus(now: string, elapsed: real): Fields {
    map["status" := Str("completed"), "completed_at" := Str(now), "processing_time" := Real(elapsed)]
  }

  const MissingSourcePrefix: string := "Arquivo de origem não encontrado durante processamento: "

  // ---------------------------------------------------------------------
  // transcribe_file

  /** The directory after a transcription is started: the base's status
      file says "processing", and nothing else changes. */
  function StartOutputs(outputs: OutputDir, filename: string, now: string): (r: OutputDir)
    ensures IsProcessing(r, BaseName(filename))
    ensures r.Keys == outputs.Keys + {StatusNameOf(filename)}
    ensures forall n :: n in outputs && n != StatusNameOf(filename) ==> r[n] == outputs[n]
  {
    outputs[StatusNameOf(filename) := Object(ProcessingStatus(now))]
  }

  // ---------------------------------------------------------------------
  // process_transcription

  /** What the speech model gives for one file: its segments' texts with the
      detected language, or the message of the exception it raised. */
  datatype ModelRun =
    | Transcribed(segments: seq<string>, language: string, languageProbability: real, duration: real)
    | Raised(message: string)

  /** The transcript as the loop accumulates it: each segment's text
      followed by one space. */
  function Joined(segments: seq<string>): string
    decreases |segments|
  {
    if segments == [] then ""
    else Joined(segments[..|segments| - 1]) + segments[|segments| - 1] + " "
  }

  /** Joining is compatible with splitting the segments anywhere. */
  lemma {:induction false} JoinedAppend(a: seq<string>, b: seq<string>)
    ensures Joined(a + b) == Joined(a) + Joined(b)
    decreases |b|
  {
    if b != [] {
      var n := |b| - 1;
      assert (a + b)[..|a + b| - 1] == a + b[..n];
      assert (a + b)[|a + b| - 1] == b[n];
      JoinedAppend(a, b[..n]);
      assert Joined(a + b) == (Joined(a) + Joined(b[..n])) + b[n] + " ";
      assert Joined(b) == Joined(b[..n]) + b[n] + " ";
    } else {
      assert a + b == a;
    }
  }

  /** The loop of process_transcription over the model's segments: the
      accumulated text and the number of segments. */
  method JoinSegments(segments: seq<string>) returns (text: string, count: nat)
    ensures text == Joined(segments) && count == |segments|
  {
    text, count := "", 0;
    for i := 0 to |segments|
      invariant text == Joined(segments[..i]) && count == i
    {
      assert segments[..i + 1][..i] == segments[..i];
      text := text + segments[i] + " ";
      count := count + 1;
    }
    assert segments[..|segments|] == segments;
  }

  /** The text written to the transcript file. */
  function TranscriptText(segments: seq<string>): string {
    Strip(Joined(segments))
  }

  function Metadata(filename: string, count: nat, language: string, languageProbability: real,
                    duration: real, elapsed: real, now: string): Fields
  {
    map["original_filename" := Str(filename), "language" := Str(language),
        "language_probability" := Real(languageProbability), "duration" := Real(duration),
        "processing_time" := Real(elapsed), "segments_count" := Int(count),
        "transcription_file" := Str(TranscriptNameOf(filename)), "completed_at" := Str(now)]
  }

  /** The job succeeds when its source is still there and the model does
      not raise. */
  predicate Succeeds(inputs: InputDir, filename: string, run: ModelRun) {
    filename in inputs && run.Transcribed?
  }

  /** The input directory after the job: the source is removed on success
      and only then. */
  function JobInputs(inputs: InputDir, filename: string, run: ModelRun): (r: InputDir)
    ensures filename in r <==> filename in inputs && run.Raised?
    ensures forall n :: n != filename ==> (n in r <==> n in inputs)
    ensures forall n :: n in r ==> n in inputs && r[n] == inputs[n]
  {
    if Succeeds(inputs, filename, run) then inputs - {filename} else inputs
  }

  /** The output directory after the job. */
  function JobOutputs(inputs: InputDir, outputs: OutputDir, filename: string, run: ModelRun,
                      elapsed: real, now: string): OutputDir
  {
    var s := StatusNameOf(filename);
    if filename !in inputs then
      outputs[s := Object(ErrorStatus(MissingSourcePrefix + filename, now))]
    else
      match run
      case Raised(message) => outputs[s := Object(ErrorStatus(message, now))]
      case Transcribed(segments, language, p, duration) =>
        outputs[TranscriptNameOf(filename) := Text(TranscriptText(segments))]
               [MetadataNameOf(filename) := Object(Metadata(filename, |segments|, language, p, duration, elapsed, now))]
               [s := Object(CompletedStatus(now, elapsed))]
  }

  /** What a job leaves in the output directory. The status file ends in
      "error" or "completed", the latter exactly on success, with the
      missing-source message or the model's message on error; on success
      the transcript and metadata are written too, and otherwise nothing but
      the status file changes; no name outside the file's three output
      names is touched. */
  lemma JobOutputsEffect(inputs: InputDir, outputs: OutputDir, filename: string, run: ModelRun, elapsed: real, now: string)
    ensures var r := JobOutputs(inputs, outputs, filename, run, elapsed, now);
      (forall n :: n !in Targets(filename) ==> (n in r <==> n in outputs) && (n in r ==> r[n] == outputs[n])) &&
      StatusNameOf(filename) in r && r[StatusNameOf(filename)].Object?
    ensures var s := JobOutputs(inputs, outputs, filename, run, elapsed, now)[StatusNameOf(filename)].fields;
      (s == CompletedStatus(now, elapsed) <==> Succeeds(inputs, filename, run)) &&
      (filename !in inputs ==> s == ErrorStatus(MissingSourcePrefix + filename, now)) &&
      (filename in inputs && run.Raised? ==> s == ErrorStatus(run.message, now))
    ensures var r := JobOutputs(inputs, outputs, filename, run, elapsed, now);
      Succeeds(inputs, filename, run) ==>
        TranscriptNameOf(filename) in r && r[TranscriptNameOf(filename)] == Text(TranscriptText(run.segments)) &&
        MetadataNameOf(filename) in r &&
        r[MetadataNameOf(filename)] == Object(Metadata(filename, |run.segments|, run.language, run.languageProbability,
                                                       run.duration, elapsed, now))
    ensures var r := JobOutputs(inputs, outputs, filename, run, elapsed, now);
      !Succeeds(inputs, filename, run) ==>
        forall n :: n != StatusNameOf(filename) ==> (n in r <==> n in outputs) && (n in r ==> r[n] == outputs[n])
  {
    DerivedNamesDisjoint(BaseName(filename), BaseName(filename));
    assert forall m :: ErrorStatus(m, now)["status"] != CompletedStatus(now, elapsed)["status"];
  }

  /** A finished job never leaves its base "processing". */
  lemma JobEndsProcessing(inputs: InputDir, outputs: OutputDir, filename: string, run: ModelRun, elapsed: real, now: string)
    ensures var r := JobOutputs(inputs, outputs, filename, run, elapsed, now);
      !IsProcessing(r, BaseName(filename)) &&
      (CurrentStatus(r, BaseName(filename)) == Str("completed") <==> Succeeds(inputs, filename, run)) &&
      (CurrentStatus(r, BaseName(filename)) != Str("completed") ==> CurrentStatus(r, BaseName(filename)) == Str("error"))
  {
    var r := JobOutputs(inputs, outputs, filename, run, elapsed, now);
    JobOutputsEffect(inputs, outputs, filename, run, elapsed, now);
    var s := r[StatusNameOf(filename)].fields;
    assert s["status"] == Str("completed") ==> s == CompletedStatus(now, elapsed);
  }

  // ---------------------------------------------------------------------
  // delete_file

  /** The output directory without the three names of a file. */
  function DeleteOutputs(outputs: OutputDir, filename: string): (r: OutputDir)
    ensures forall n :: n in r <==> n in outputs && n !in Targets(filename)
    ensures forall n :: n in r ==> r[n] == outputs[n]
  {
    outputs - Targets(filename)
  }

  /** Deleting twice is deleting once. */
  lemma DeleteIdempotent(inputs: InputDir, outputs: OutputDir, filename: string)
    ensures DeleteOutputs(DeleteOutputs(outputs, filename), filename) == DeleteOutputs(outputs, filename)
    ensures (inputs - {filename}) - {filename} == inputs - {filename}
  {
  }

  // ---------------------------------------------------------------------
  // No transcription stays "processing" for good

  /** Every base whose status file says "processing" has a queued job for
      some file of that base. */
  ghost predicate NoStuckProcessing(outputs: OutputDir, jobs: seq<string>) {
    forall b :: IsProcessing(outputs, b) ==> exists j :: j in jobs && BaseName(j) == b
  }

  /** Only a status file can make a base "processing", so writing any
      other name keeps the invariant. */
  lemma CurrentStatusFrame(outputs: OutputDir, r: OutputDir, b: string)
    requires StatusName(b) in r <==> StatusName(b) in outputs
    requires StatusName(b) in r ==> r[StatusName(b)] == outputs[StatusName(b)]
    ensures CurrentStatus(r, b) == CurrentStatus(outputs, b)
  {
  }

  lemma StartKeepsNoStuck(outputs: OutputDir, jobs: seq<string>, filename: string, now: string)
    ensures NoStuckProcessing(outputs, jobs) ==> NoStuckProcessing(StartOutputs(outputs, filename, now), jobs + [filename])
  {
    if NoStuckProcessing(outputs, jobs) {
      var r := StartOutputs(outputs, filename, now);
      forall b | IsProcessing(r, b) ensures exists j :: j in jobs + [filename] && BaseName(j) == b {
        if b == BaseName(filename) {
          assert filename in jobs + [filename];
        } else {
          DerivedNamesDisjoint(b, BaseName(filename));
          CurrentStatusFrame(outputs, r, b);
          assert IsProcessing(outputs, b);
          var j :| j in jobs && BaseName(j) == b;
          assert j in jobs + [filename];
        }
      }
    }
  }

  /** A job changes the status of its own base only. */
  lemma JobKeepsOtherStatus(inputs: InputDir, outputs: OutputDir, filename: string, run: ModelRun,
                            elapsed: real, now: string, b: string)
    requires b != BaseName(filename)
    ensures CurrentStatus(JobOutputs(inputs, outputs, filename, run, elapsed, now), b) == CurrentStatus(outputs, b)
  {
    JobOutputsEffect(inputs, outputs, filename, run, elapsed, now);
    DerivedNamesDisjoint(b, BaseName(filename));
    assert StatusName(b) !in Targets(filename);
    CurrentStatusFrame(outputs, JobOutputs(inputs, outputs, filename, run, elapsed, now), b);
  }

  /** Running the job at the head of the queue keeps the invariant for the
      rest of the queue. */
  lemma JobKeepsNoStuck(inputs: InputDir, outputs: OutputDir, jobs: seq<string>, run: ModelRun, elapsed: real, now: string)
    requires jobs != []
    ensures NoStuckProcessing(outputs, jobs) ==> NoStuckProcessing(JobOutputs(inputs, outputs, jobs[0], run, elapsed, now), jobs[1..])
  {
    if NoStuckProcessing(outputs, jobs) {
      var f := jobs[0];
      var r := JobOutputs(inputs, outputs, f, run, elapsed, now);
      forall b | IsProcessing(r, b) ensures exists j :: j in jobs[1..] && BaseName(j) == b {
        JobEndsProcessing(inputs, outputs, f, run, elapsed, now);
        JobKeepsOtherStatus(inputs, outputs, f, run, elapsed, now, b);
        assert IsProcessing(outputs, b);
        var j :| j in jobs && BaseName(j) == b;
        var i :| 0 <= i < |jobs| && jobs[i] == j;
        assert jobs[1..][i - 1] == j;
      }
    }
  }

  lemma DeleteKeepsNoStuck(outputs: OutputDir, jobs: seq<string>, filename: string)
    ensures NoStuckProcessing(outputs, jobs) ==> NoStuckProcessing(DeleteOutputs(outputs, filename), jobs)
  {
    if NoStuckProcessing(outputs, jobs) {
      var r := DeleteOutputs(outputs, filename);
      forall b | IsProcessing(r, b) ensures exists j :: j in jobs && BaseName(j) == b {
        assert StatusName(b) in outputs && r[StatusName(b)] == outputs[StatusName(b)];
        CurrentStatusFrame(outputs, r, b);
        assert IsProcessing(outputs, b);
      }
    }
  }
}
