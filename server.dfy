/** The transcription server: its input directory, its output directory
    and its queue of background jobs, with one method per endpoint. */
module Backend {
  import opened Json
  import opened Decimal
  import opened Paths
  import opened StringOrder
  import opened Dirs
  import opened UniqueNames
  import opened Listing
  import opened Lifecycle

  /** An HTTPException: its status code and detail text. */
  datatype HttpError = HttpError(code: nat, detail: string)

  datatype Result<T> = Ok(value: T) | Err(error: HttpError)

  /** One file of an upload request. */
  datatype UploadFile = UploadFile(filename: string, contentType: string, content: seq<byte>)

  /** One record of the upload response. */
  datatype Saved = Saved(filename: string, originalName: string, size: nat, uploadTime: string)

  datatype UploadReply = UploadReply(message: string, files: seq<Saved>)
  datatype TranscribeReply = TranscribeReply(message: string, filename: string, status: string)
  datatype TranscriptionReply = TranscriptionReply(filename: string, transcription: OutputFile)

  predicate IsAudio(f: UploadFile) {
    StartsWith(f.contentType, "audio/")
  }

  /** How many files of a request are accepted: all up to the first one
      whose content type is not audio. */
  function AudioPrefix(files: seq<UploadFile>): (k: nat)
    ensures k <= |files|
    ensures forall i :: 0 <= i < k ==> IsAudio(files[i])
    ensures k < |files| ==> !IsAudio(files[k])
  {
    if files == [] || !IsAudio(files[0]) then 0 else 1 + AudioPrefix(files[1..])
  }

  /** The accepted prefix ends at the first non-audio file, or at the end. */
  lemma AudioPrefixAt(files: seq<UploadFile>, i: nat)
    requires i <= |files| && forall j :: 0 <= j < i ==> IsAudio(files[j])
    requires i < |files| ==> !IsAudio(files[i])
    ensures AudioPrefix(files) == i
  {
  }

  function Originals(files: seq<UploadFile>): (r: seq<string>)
    ensures |r| == |files| && forall i :: 0 <= i < |files| ==> r[i] == files[i].filename
  {
    seq(|files|, i requires 0 <= i < |files| => files[i].filename)
  }

  /** The upload response's record of each saved file, in order. */
  function Records(files: seq<UploadFile>, names: seq<string>, now: string): (r: seq<Saved>)
    requires |names| == |files|
    ensures |r| == |files|
    ensures forall j :: 0 <= j < |files| ==> r[j] == Saved(names[j], files[j].filename, |files[j].content|, now)
  {
    seq(|files|, j requires 0 <= j < |files| => Saved(names[j], files[j].filename, |files[j].content|, now))
  }

  lemma RecordsAppend(files: seq<UploadFile>, names: seq<string>, f: UploadFile, name: string, now: string)
    requires |names| == |files|
    ensures Records(files + [f], names + [name], now) == Records(files, names, now) + [Saved(name, f.filename, |f.content|, now)]
  {
  }

  function NotAudio(filename: string): HttpError {
    HttpError(400, "Arquivo " + filename + " não é de áudio")
  }

  const UploadedSuffix: string := " arquivos enviados com sucesso"
  const InputNotFound: HttpError := HttpError(404, "Arquivo não encontrado")
  const TranscriptionNotFound: HttpError := HttpError(404, "Transcrição não encontrada")
  const AlreadyRunning: string := "Transcrição já em andamento"
  const StartedInBackground: string := "Transcrição iniciada em background"
  const Deleted: string := "Arquivo deletado com sucesso"

  /** The first k files of a request saved under the given names: the
      assignment get_unique_filename makes, each file's content stored
      under its name, and the files that were already there kept. */
  ghost predicate SavedPrefix(before: InputDir, after: InputDir, files: seq<UploadFile>, k: nat, names: seq<string>, now: string)
    requires k <= |files|
  {
    |names| == k && Assigned(before.Keys, Originals(files)[..k], names) &&
    after.Keys == before.Keys + Prior(names, k) &&
    (forall n :: n in before ==> after[n] == before[n]) &&
    (forall j :: 0 <= j < k ==> after[names[j]] == InputFile(files[j].content, now))
  }

  /** Pairwise distinct names, none of which is in the directory. */
  ghost predicate FreshNames(before: InputDir, names: seq<string>) {
    (forall j :: 0 <= j < |names| ==> names[j] !in before) &&
    (forall i, j :: 0 <= i < j < |names| ==> names[i] != names[j])
  }

  /** The files of a request are saved under distinct names, none of which
      was in the directory before the request. */
  lemma SavedPrefixFresh(before: InputDir, after: InputDir, files: seq<UploadFile>, k: nat, names: seq<string>, now: string)
    requires k <= |files| && SavedPrefix(before, after, files, k, names, now)
    ensures FreshNames(before, names)
  {
    AssignedFresh(before.Keys, Originals(files)[..k], names);
  }

  /** Saving the next file under its unique name extends the saved prefix
      by one. */
  lemma SavedPrefixStep(before: InputDir, mid: InputDir, files: seq<UploadFile>, i: nat, names: seq<string>,
                        name: string, now: string)
    requires i < |files| && SavedPrefix(before, mid, files, i, names, now)
    requires IsUniqueName(mid.Keys, files[i].filename, name) && name !in mid
    ensures SavedPrefix(before, mid[name := InputFile(files[i].content, now)], files, i + 1, names + [name], now)
  {
    StepNames(before.Keys, files, i, names, name);
    StepContents(before, mid, files, i, names, name, now);
  }

  /** The name the next file gets extends the assignment, and the set of
      names the request has added. */
  lemma StepNames(existing: set<string>, files: seq<UploadFile>, i: nat, names: seq<string>, name: string)
    requires i < |files| && |names| == i && Assigned(existing, Originals(files)[..i], names)
    requires IsUniqueName(existing + Prior(names, i), files[i].filename, name)
    ensures Assigned(existing, Originals(files)[..i + 1], names + [name])
    ensures existing + Prior(names + [name], i + 1) == existing + Prior(names, i) + {name}
  {
    AssignedAppend(existing, Originals(files)[..i], names, files[i].filename, name);
    assert Originals(files)[..i + 1] == Originals(files)[..i] + [files[i].filename];
  }

  lemma StepContents(before: InputDir, mid: InputDir, files: seq<UploadFile>, i: nat, names: seq<string>,
                     name: string, now: string)
    requires i < |files| && SavedPrefix(before, mid, files, i, names, now)
    requires name !in mid
    ensures var after := mid[name := InputFile(files[i].content, now)];
      (forall n :: n in before ==> after[n] == before[n]) &&
      (forall j :: 0 <= j < i + 1 ==> after[(names + [name])[j]] == InputFile(files[j].content, now))
  {
    var after := mid[name := InputFile(files[i].content, now)];
    var names2 := names + [name];
    forall j | 0 <= j < i + 1 ensures after[names2[j]] == InputFile(files[j].content, now) {
      if j < i {
        assert names2[j] == names[j] && names[j] in mid.Keys;
      }
    }
  }

  /** One iteration of list_files' loop over the output names: the file's
      base gets a record if it has none, and the file's keys are merged
      into it. */
  method Absorb(order: seq<string>, info: map<string, Fields>, c: FileClass, filename: string, f: OutputFile)
    returns (order': seq<string>, info': map<string, Fields>)
    ensures Aggregation(order', info') == Step(Aggregation(order, info), Piece(c, Keys(c, filename, f)))
  {
    if c.Unrelated? {
      return order, info;
    }
    var b := c.base;
    order' := if b in info then order else order + [b];
    var fields := if b in info then info[b] else Initial(b);
    ghost var start := fields;
    match c {
    case StatusOf(_) =>
      if f.Object? {
        fields := fields + f.fields;
        fields := fields["status_file_exists" := Bool(true)];
        UpdateThenSet(start, f.fields, "status_file_exists", Bool(true));
      } else {
        assert start + map[] == start;
      }
    case TranscriptOf(_) =>
      fields := fields["transcription_file" := Str(filename)];
      assert fields == start + map["transcription_file" := Str(filename)];
    case MetadataOf(_) =>
      if f.Object? {
        fields := fields + f.fields;
        fields := fields["metadata_file_exists" := Bool(true)];
        UpdateThenSet(start, f.fields, "metadata_file_exists", Bool(true));
      } else {
        assert start + map[] == start;
      }
    case Unrelated =>
    }
    info' := info[b := fields];
  }

  /** dict.update followed by setting one key is one merge. */
  lemma UpdateThenSet(m: Fields, n: Fields, k: string, v: Value)
    ensures (m + n)[k := v] == m + (n + map[k := v])
  {
  }

  /** The first loop of list_files, given the sorted input names. */
  method InputEntriesOf(names: seq<string>, inputs: InputDir) returns (entries: seq<Entry>)
    requires forall n :: n in names ==> n in inputs
    ensures entries == InputEntries(names, inputs)
  {
    entries := [];
    for i := 0 to |names|
      invariant |entries| == i
      invariant forall k :: 0 <= k < i ==> entries[k] == InputEntry(names[k], inputs[names[k]])
    {
      var name := names[i];
      entries := entries + [InputEntry(name, inputs[name])];
    }
  }

  /** The last loop of list_files: one entry per base appended, in order. */
  method AppendProcessed(entries0: seq<Entry>, order: seq<string>, info: map<string, Fields>) returns (entries: seq<Entry>)
    requires forall b :: b in order ==> b in info
    ensures entries == entries0 + ProcessedEntries(Aggregation(order, info))
  {
    entries := entries0;
    for j := 0 to |order|
      invariant |entries| == |entries0| + j && entries[..|entries0|] == entries0
      invariant forall k :: 0 <= k < j ==> entries[|entries0| + k] == ProcessedEntry(order[k], info[order[k]])
    {
      var b := order[j];
      entries := entries + [ProcessedEntry(b, info[b])];
    }
    assert entries[|entries0|..] == ProcessedEntries(Aggregation(order, info));
    assert entries == entries[..|entries0|] + entries[|entries0|..];
  }

  /** The output half of delete_file: the transcript, metadata and status
      names of the file's base, each removed if present. */
  method RemoveTargets(outputs: OutputDir, filename: string) returns (outs: OutputDir)
    ensures outs == DeleteOutputs(outputs, filename)
  {
    var base := BaseName(filename);
    var txt, meta, status := TranscriptName(base), MetadataName(base), StatusName(base);
    outs := outputs;
    if txt in outs {
      outs := outs - {txt};
    }
    if meta in outs {
      outs := outs - {meta};
    }
    if status in outs {
      outs := outs - {status};
    }
    assert outs == outputs - {txt, meta, status};
    assert Targets(filename) == {txt, meta, status};
  }

  class Server {
    var inputs: InputDir
    var outputs: OutputDir
    /** The background tasks scheduled and not yet run, oldest first. */
    var jobs: seq<string>

    /** A server over directories that may already hold files; the job
        queue starts empty, so the invariant holds at start exactly when no
        status file says "processing". */
    constructor(inputs0: InputDir, outputs0: OutputDir)
      ensures inputs == inputs0 && outputs == outputs0 && jobs == []
      ensures NoStuckProcessing(outputs, jobs) <==> forall b :: !IsProcessing(outputs, b)
    {
      inputs, outputs, jobs := inputs0, outputs0, [];
    }

    /** One iteration of the upload loop: the file is written under its
        unique name. */
    method Save(f: UploadFile, now: string) returns (name: string)
      modifies this
      ensures IsUniqueName(old(inputs).Keys, f.filename, name) && name !in old(inputs)
      ensures inputs == old(inputs)[name := InputFile(f.content, now)]
      ensures outputs == old(outputs) && jobs == old(jobs)
    {
      name := UniqueFilename(inputs.Keys, f.filename);
      inputs := inputs[name := InputFile(f.content, now)];
    }

    /** upload_files: saves the files in order under unique names and stops
        at the first non-audio file, whose error is returned with the
        files before it already saved. */
    method Upload(files: seq<UploadFile>, now: string) returns (r: Result<UploadReply>, ghost names: seq<string>)
      modifies this
      ensures SavedPrefix(old(inputs), inputs, files, AudioPrefix(files), names, now)
      ensures FreshNames(old(inputs), names)
      ensures outputs == old(outputs) && jobs == old(jobs)
      ensures r.Err? <==> AudioPrefix(files) < |files|
      ensures r.Err? ==> r.error == NotAudio(files[AudioPrefix(files)].filename)
      ensures r.Ok? ==>
        r.value.message == NatToString(|files|) + UploadedSuffix && |r.value.files| == |files| &&
        forall j :: 0 <= j < |files| ==> r.value.files[j] == Saved(names[j], files[j].filename, |files[j].content|, now)
    {
      var saved: seq<Saved> := [];
      names := [];
      var i := 0;
      while i < |files|
        invariant 0 <= i <= |files|
        invariant forall j :: 0 <= j < i ==> IsAudio(files[j])
        invariant SavedPrefix(old(inputs), inputs, files, i, names, now)
        invariant saved == Records(files[..i], names, now)
        invariant outputs == old(outputs) && jobs == old(jobs)
      {
        var f := files[i];
        if !IsAudio(f) {
          AudioPrefixAt(files, i);
          SavedPrefixFresh(old(inputs), inputs, files, i, names, now);
          r := Err(NotAudio(f.filename));
          return;
        }
        ghost var mid := inputs;
        var name := Save(f, now);
        SavedPrefixStep(old(inputs), mid, files, i, names, name, now);
        RecordsAppend(files[..i], names, f, name, now);
        assert files[..i + 1] == files[..i] + [f];
        saved := saved + [Saved(name, f.filename, |f.content|, now)];
        names := names + [name];
        i := i + 1;
      }
      AudioPrefixAt(files, i);
      SavedPrefixFresh(old(inputs), inputs, files, i, names, now);
      assert files[..i] == files;
      r := Ok(UploadReply(NatToString(|saved|) + UploadedSuffix, saved));
    }

    /** transcribe_file: 404 for a missing input; nothing written when the
        base is already processing; otherwise the base's status becomes
        "processing" and one job is queued. */
    method Transcribe(filename: string, now: string) returns (r: Result<TranscribeReply>)
      modifies this
      ensures inputs == old(inputs)
      ensures filename !in inputs ==>
        r == Err(InputNotFound) && outputs == old(outputs) && jobs == old(jobs)
      ensures filename in inputs && IsProcessing(old(outputs), BaseName(filename)) ==>
        r == Ok(TranscribeReply(AlreadyRunning, filename, "processing")) && outputs == old(outputs) && jobs == old(jobs)
      ensures filename in inputs && !IsProcessing(old(outputs), BaseName(filename)) ==>
        r == Ok(TranscribeReply(StartedInBackground, filename, "processing")) &&
        outputs == StartOutputs(old(outputs), filename, now) && jobs == old(jobs) + [filename]
      ensures r.Ok? ==> r.value.filename == filename && r.value.status == "processing"
      ensures NoStuckProcessing(old(outputs), old(jobs)) ==> NoStuckProcessing(outputs, jobs)
    {
      if filename !in inputs {
        return Err(InputNotFound);
      }
      var base := BaseName(filename);
      var current := CurrentStatus(outputs, base);
      if current == Str("processing") {
        return Ok(TranscribeReply(AlreadyRunning, filename, "processing"));
      }
      StartKeepsNoStuck(outputs, jobs, filename, now);
      outputs := outputs[StatusName(base) := Object(ProcessingStatus(now))];
      jobs := jobs + [filename];
      r := Ok(TranscribeReply(StartedInBackground, filename, "processing"));
    }

    /** process_transcription for one file, given what the model does with
        it, the rounded processing time and the completion time. */
    method ProcessTranscription(filename: string, run: ModelRun, elapsed: real, now: string)
      modifies this
      ensures inputs == JobInputs(old(inputs), filename, run)
      ensures outputs == JobOutputs(old(inputs), old(outputs), filename, run, elapsed, now)
      ensures jobs == old(jobs)
    {
      var statusName := StatusNameOf(filename);
      var outs := outputs;
      if filename !in inputs {
        outputs := outs[statusName := Object(ErrorStatus(MissingSourcePrefix + filename, now))];
        return;
      }
      match run
      case Raised(message) =>
        outputs := outs[statusName := Object(ErrorStatus(message, now))];
      case Transcribed(segments, language, p, duration) =>
        var text, count := JoinSegments(segments);
        outs := outs[TranscriptNameOf(filename) := Text(Strip(text))];
        outs := outs[MetadataNameOf(filename) := Object(Metadata(filename, count, language, p, duration, elapsed, now))];
        outs := outs[statusName := Object(CompletedStatus(now, elapsed))];
        assert Strip(text) == TranscriptText(segments);
        assert outs == JobOutputs(inputs, outputs, filename, run, elapsed, now);
        assert inputs - {filename} == JobInputs(inputs, filename, run);
        outputs := outs;
        inputs := inputs - {filename};
    }

    /** Runs the oldest queued background task, if there is one. */
    method RunNextJob(run: ModelRun, elapsed: real, now: string) returns (ran: bool)
      modifies this
      ensures ran <==> old(jobs) != []
      ensures !ran ==> inputs == old(inputs) && outputs == old(outputs) && jobs == old(jobs)
      ensures ran ==>
        jobs == old(jobs)[1..] &&
        inputs == JobInputs(old(inputs), old(jobs)[0], run) &&
        outputs == JobOutputs(old(inputs), old(outputs), old(jobs)[0], run, elapsed, now)
      ensures NoStuckProcessing(old(outputs), old(jobs)) ==> NoStuckProcessing(outputs, jobs)
    {
      if jobs == [] {
        return false;
      }
      JobKeepsNoStuck(inputs, outputs, jobs, run, elapsed, now);
      var filename := jobs[0];
      jobs := jobs[1..];
      ProcessTranscription(filename, run, elapsed, now);
      ran := true;
    }

    /** The first loop of list_files: one "uploaded" entry per input file,
        in sorted order. */
    method ListInputs() returns (entries: seq<Entry>)
      ensures entries == InputPart(inputs)
    {
      var names := SortNames(inputs.Keys);
      entries := InputEntriesOf(names, inputs);
    }

    /** The second loop of list_files: processed_files, built in place from
        the sorted output names. */
    method CollectOutputs() returns (order: seq<string>, info: map<string, Fields>)
      ensures Aggregation(order, info) == Aggregate(SortedSet(outputs.Keys), outputs)
    {
      var names := SortNames(outputs.Keys);
      ghost var ps := Pieces(names, outputs);
      order, info := [], map[];
      for i := 0 to |names|
        invariant Aggregation(order, info) == Fold(ps[..i])
      {
        assert ps[..i + 1][..i] == ps[..i];
        order, info := Absorb(order, info, Classify(names[i]), names[i], outputs[names[i]]);
      }
      assert ps[..|names|] == ps;
    }

    /** list_files: the input entries, then one processed entry per base in
        the order the bases were first seen. */
    method ListFiles() returns (entries: seq<Entry>)
      ensures entries == ListedFiles(inputs, outputs)
    {
      entries := ListInputs();
      var order, info := CollectOutputs();
      entries := AppendProcessed(entries, order, info);
    }

    /** get_transcription: the stored output file, or 404. */
    method GetTranscription(filename: string) returns (r: Result<TranscriptionReply>)
      ensures filename !in outputs <==> r == Err(TranscriptionNotFound)
      ensures filename in outputs ==> r == Ok(TranscriptionReply(filename, outputs[filename]))
    {
      if filename !in outputs {
        return Err(TranscriptionNotFound);
      }
      r := Ok(TranscriptionReply(filename, outputs[filename]));
    }

    /** delete_file: removes the input file and the base's three output
        names, each only if present, and always reports success. */
    method Delete(filename: string) returns (message: string)
      modifies this
      ensures inputs == old(inputs) - {filename}
      ensures outputs == DeleteOutputs(old(outputs), filename)
      ensures jobs == old(jobs)
      ensures message == Deleted
      ensures NoStuckProcessing(old(outputs), old(jobs)) ==> NoStuckProcessing(outputs, jobs)
    {
      DeleteKeepsNoStuck(outputs, jobs, filename);
      if filename in inputs {
        inputs := inputs - {filename};
      }
      outputs := RemoveTargets(outputs, filename);
      message := Deleted;
    }
  }
}
