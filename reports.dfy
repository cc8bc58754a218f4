/** What list_files reports after transcribe_file and after a background
    job: the status and error message just written to the base's status
    file. */
module Reports {
  import opened Json
  import opened Paths
  import opened Dirs
  import opened Listing
  import opened Lifecycle

  /** No output file of base b other than its status file carries a
      "status" or "error" key into b's record. */
  ghost predicate OnlyStatusFileReports(outputs: OutputDir, b: string) {
    forall m :: m in outputs && m != StatusName(b) && BelongsTo(PieceOf(m, outputs[m]), b) ==>
      "status" !in PieceOf(m, outputs[m]).keys && "error" !in PieceOf(m, outputs[m]).keys
  }

  /** A transcript name is read as a transcript, and a metadata name as
      a metadata file. */
  lemma DerivedClasses(b: string)
    ensures Classify(TranscriptName(b)).TranscriptOf?
    ensures Classify(MetadataName(b)).MetadataOf?
  {
    var t, m := TranscriptName(b), MetadataName(b);
    assert t[|t| - 1] == 't' && m[|m| - 1] == 'n' && m[|m| - 6] == 'a';
    NotEndsWith(t, StatusSuffix, 11);
    EndsWithAppended(b, TranscriptExt);
    NotEndsWith(m, StatusSuffix, 6);
    NotEndsWith(m, TranscriptExt, 3);
    EndsWithAppended(b, MetadataSuffix);
  }

  /** Once started, a transcription is listed as "processing". */
  lemma StartReported(outputs: OutputDir, filename: string, now: string)
    requires !Occurs(BaseName(filename), StatusSuffix) && OnlyStatusFileReports(outputs, BaseName(filename))
    ensures var l := OutputPart(StartOutputs(outputs, filename, now));
      exists i :: 0 <= i < |l| && l[i].filename == BaseName(filename) && l[i].status == Str("processing")
  {
    var r := StartOutputs(outputs, filename, now);
    var b := BaseName(filename);
    assert OnlyStatusFileReports(r, b) by {
      forall m | m in r && m != StatusName(b) && BelongsTo(PieceOf(m, r[m]), b)
        ensures "status" !in PieceOf(m, r[m]).keys && "error" !in PieceOf(m, r[m]).keys
      {
        assert m in outputs && r[m] == outputs[m];
      }
    }
    StatusReported(r, b);
  }

  /** A job writes no "status" or "error" key outside the status file. */
  lemma JobKeepsOnlyStatusFile(inputs: InputDir, outputs: OutputDir, filename: string, run: ModelRun, elapsed: real, now: string)
    requires OnlyStatusFileReports(outputs, BaseName(filename))
    ensures OnlyStatusFileReports(JobOutputs(inputs, outputs, filename, run, elapsed, now), BaseName(filename))
  {
    var r := JobOutputs(inputs, outputs, filename, run, elapsed, now);
    var b := BaseName(filename);
    forall m | m in r && m != StatusName(b) && BelongsTo(PieceOf(m, r[m]), b)
      ensures "status" !in PieceOf(m, r[m]).keys && "error" !in PieceOf(m, r[m]).keys
    {
      JobWritesNoStatusAt(inputs, outputs, filename, run, elapsed, now, m);
    }
  }

  lemma JobWritesNoStatusAt(inputs: InputDir, outputs: OutputDir, filename: string, run: ModelRun, elapsed: real,
                            now: string, m: string)
    requires OnlyStatusFileReports(outputs, BaseName(filename))
    requires var r := JobOutputs(inputs, outputs, filename, run, elapsed, now);
      m in r && m != StatusNameOf(filename) && BelongsTo(PieceOf(m, r[m]), BaseName(filename))
    ensures var r := JobOutputs(inputs, outputs, filename, run, elapsed, now);
      "status" !in PieceOf(m, r[m]).keys && "error" !in PieceOf(m, r[m]).keys
  {
    var r := JobOutputs(inputs, outputs, filename, run, elapsed, now);
    var b := BaseName(filename);
    JobOutputsEffect(inputs, outputs, filename, run, elapsed, now);
    if m == TranscriptName(b) {
      TranscriptPiece(b, r[m]);
    } else if m == MetadataName(b) && Succeeds(inputs, filename, run) {
      MetadataPiece(b, r[m]);
      assert r[m].Object? && "status" !in r[m].fields && "error" !in r[m].fields;
    } else {
      assert m in outputs && r[m] == outputs[m];
    }
  }

  lemma TranscriptPiece(b: string, f: OutputFile)
    ensures PieceOf(TranscriptName(b), f).keys == map["transcription_file" := Str(TranscriptName(b))]
  {
    DerivedClasses(b);
  }

  lemma MetadataPiece(b: string, f: OutputFile)
    ensures f.Object? ==> PieceOf(MetadataName(b), f).keys == f.fields + map["metadata_file_exists" := Bool(true)]
  {
    DerivedClasses(b);
  }

  /** After its job has run, a transcription is listed as "completed" on
      success, and as "error" with the job's message otherwise. */
  lemma JobReported(inputs: InputDir, outputs: OutputDir, filename: string, run: ModelRun, elapsed: real, now: string)
    requires !Occurs(BaseName(filename), StatusSuffix) && OnlyStatusFileReports(outputs, BaseName(filename))
    ensures var l := OutputPart(JobOutputs(inputs, outputs, filename, run, elapsed, now));
      exists i :: 0 <= i < |l| && l[i].filename == BaseName(filename) &&
        (Succeeds(inputs, filename, run) ==> l[i].status == Str("completed")) &&
        (filename !in inputs ==> l[i].status == Str("error") && l[i].error == Str(MissingSourcePrefix + filename)) &&
        (filename in inputs && run.Raised? ==> l[i].status == Str("error") && l[i].error == Str(run.message))
  {
    var r := JobOutputs(inputs, outputs, filename, run, elapsed, now);
    var b := BaseName(filename);
    JobOutputsEffect(inputs, outputs, filename, run, elapsed, now);
    JobKeepsOnlyStatusFile(inputs, outputs, filename, run, elapsed, now);
    var s := r[StatusName(b)].fields;
    assert s == CompletedStatus(now, elapsed) || s == ErrorStatus(MissingSourcePrefix + filename, now) ||
           (run.Raised? && s == ErrorStatus(run.message, now));
    StatusReported(r, b);
  }
}
