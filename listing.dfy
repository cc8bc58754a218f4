/** list_files: the input directory listed as uploaded files, then the
    output directory grouped by base name into one record per
    transcription. */
module Listing {
  import opened Json
  import opened Paths
  import opened StringOrder
  import opened Dirs

  /** One element of the "files" array that list_files returns. */
  datatype Entry =
    | Input(filename: string, originalName: Value, size: nat, uploadTime: string, status: Value)
    | Processed(filename: string, originalName: Value, status: Value, startedAt: Value,
                completedAt: Value, processingTime: Value, language: Value, duration: Value,
                error: Value, transcriptionFile: Value)

  // ---------------------------------------------------------------------
  // Input directory

  function InputEntry(name: string, f: InputFile): Entry {
    Input(name, Str(name), |f.content|, f.createdAt, Str("uploaded"))
  }

  function InputEntries(names: seq<string>, inputs: InputDir): (r: seq<Entry>)
    requires forall n :: n in names ==> n in inputs
  {
    seq(|names|, i requires 0 <= i < |names| => InputEntry(names[i], inputs[names[i]]))
  }

  // ---------------------------------------------------------------------
  // Output directory: which base name a file belongs to

  /** How list_files files an output name: the three suffix tests, in the
      source's order. The status and metadata bases come from str.replace,
      which drops every occurrence of the suffix, not just the last one. */
  datatype FileClass = StatusOf(base: string) | TranscriptOf(base: string) | MetadataOf(base: string) | Unrelated

  function Classify(filename: string): FileClass {
    if EndsWith(filename, StatusSuffix) then StatusOf(RemoveAll(filename, StatusSuffix))
    else if EndsWith(filename, TranscriptExt) then TranscriptOf(BaseName(filename))
    else if EndsWith(filename, MetadataSuffix) then MetadataOf(RemoveAll(filename, MetadataSuffix))
    else Unrelated
  }

  /** The status name of a base lists under that base, whenever the base
      does not itself contain "_status.json". */
  lemma ClassifyStatusName(base: string)
    requires !Occurs(base, StatusSuffix)
    ensures Classify(StatusName(base)) == StatusOf(base)
  {
    HeadOnceNoBorder(StatusSuffix);
    RemoveAllSuffix(base, StatusSuffix);
  }

  /** The metadata name of a base lists under that base, whenever the base
      does not itself contain "_metadata.json". */
  lemma ClassifyMetadataName(base: string)
    requires !Occurs(base, MetadataSuffix)
    ensures Classify(MetadataName(base)) == MetadataOf(base)
  {
    var m := MetadataName(base);
    assert m[|m| - 6] == 'a';
    assert m[|m| - 1] == 'n';
    HeadOnceNoBorder(MetadataSuffix);
    RemoveAllSuffix(base, MetadataSuffix);
  }

  /** The transcript name of a plain base lists under that base exactly when
      the base has a character other than '.'; a base such as "..." has its
      transcript "....txt" listed under a base of its own. */
  lemma ClassifyTranscriptName(base: string)
    requires '/' !in base
    ensures Classify(TranscriptName(base)) == TranscriptOf(base) <==> !AllDots(base)
  {
    var t := TranscriptName(base);
    assert t[|t| - 1] == 't';
    SplitExtAppended(base, TranscriptExt);
  }

  // ---------------------------------------------------------------------
  // Output directory: merging a base's files

  /** What one output file gives the aggregation: its class, and the keys it
      adds to its base's record (a status or metadata object with its
      "..._file_exists" flag, or the transcript's name; a JSON file that
      does not parse adds nothing). */
  datatype Piece = Piece(cls: FileClass, keys: Fields)

  function Keys(c: FileClass, filename: string, f: OutputFile): Fields {
    match c
    case StatusOf(_) => if f.Object? then f.fields + map["status_file_exists" := Bool(true)] else map[]
    case TranscriptOf(_) => map["transcription_file" := Str(filename)]
    case MetadataOf(_) => if f.Object? then f.fields + map["metadata_file_exists" := Bool(true)] else map[]
    case Unrelated => map[]
  }

  function PieceOf(filename: string, f: OutputFile): Piece {
    var c := Classify(filename);
    Piece(c, Keys(c, filename, f))
  }

  function Pieces(names: seq<string>, outputs: OutputDir): (ps: seq<Piece>)
    requires forall n :: n in names ==> n in outputs
  {
    seq(|names|, i requires 0 <= i < |names| => PieceOf(names[i], outputs[names[i]]))
  }

  predicate BelongsTo(p: Piece, base: string) {
    !p.cls.Unrelated? && p.cls.base == base
  }

  /** The record a base starts with. */
  function Initial(base: string): Fields {
    map["base_name" := Str(base)]
  }

  /** processed_files as a dict in insertion order: the bases in the order
      they were first seen, and each base's record. */
  datatype Aggregation = Aggregation(order: seq<string>, info: map<string, Fields>)

  /** One iteration of the loop over the output names. */
  function Step(acc: Aggregation, p: Piece): Aggregation {
    if p.cls.Unrelated? then acc
    else
      var b := p.cls.base;
      var order := if b in acc.info then acc.order else acc.order + [b];
      var fields := if b in acc.info then acc.info[b] else Initial(b);
      Aggregation(order, acc.info[b := fields + p.keys])
  }

  /** The loop over the output files in the order taken. Each base is
      listed once and has a record. */
  function Fold(ps: seq<Piece>): (r: Aggregation)
    ensures forall b :: b in r.order <==> b in r.info
    ensures forall i, j :: 0 <= i < j < |r.order| ==> r.order[i] != r.order[j]
    decreases |ps|
  {
    if ps == [] then Aggregation([], map[])
    else Step(Fold(ps[..|ps| - 1]), ps[|ps| - 1])
  }

  /** A base has a record exactly when some file belongs to it. */
  lemma {:induction false} FoldBases(ps: seq<Piece>, b: string)
    ensures b in Fold(ps).info <==> exists i :: 0 <= i < |ps| && BelongsTo(ps[i], b)
    decreases |ps|
  {
    if ps != [] {
      var n := |ps| - 1;
      FoldBases(ps[..n], b);
      assert forall i :: 0 <= i < n ==> ps[..n][i] == ps[i];
    }
  }

  /** The record of base b built from b's files alone, in the order given:
      each file's keys overwrite those already there. */
  function MergeFor(ps: seq<Piece>, b: string): Fields
    decreases |ps|
  {
    if ps == [] then Initial(b)
    else
      var acc := MergeFor(ps[..|ps| - 1], b);
      if BelongsTo(ps[|ps| - 1], b) then acc + ps[|ps| - 1].keys else acc
  }

  /** Building all records at once gives each base the record built from
      its own files. */
  lemma {:induction false} FoldMerge(ps: seq<Piece>, b: string)
    ensures b in Fold(ps).info ==> Fold(ps).info[b] == MergeFor(ps, b)
    ensures b !in Fold(ps).info ==> MergeFor(ps, b) == Initial(b)
    decreases |ps|
  {
    if ps != [] {
      FoldMerge(ps[..|ps| - 1], b);
    }
  }

  /** The value of key k in b's record is the one written by the last of
      b's files that has k. */
  lemma {:induction false} MergeLastWins(ps: seq<Piece>, b: string, i: nat, k: string)
    requires i < |ps| && BelongsTo(ps[i], b) && k in ps[i].keys
    requires forall j :: i < j < |ps| && BelongsTo(ps[j], b) ==> k !in ps[j].keys
    ensures k in MergeFor(ps, b) && MergeFor(ps, b)[k] == ps[i].keys[k]
    decreases |ps|
  {
    var n := |ps| - 1;
    if i < n {
      assert forall j :: i < j < n ==> ps[..n][j] == ps[j];
      MergeLastWins(ps[..n], b, i, k);
    }
  }

  /** list_files' loop: the output names in the order taken. */
  function Aggregate(names: seq<string>, outputs: OutputDir): Aggregation
    requires forall n :: n in names ==> n in outputs
  {
    Fold(Pieces(names, outputs))
  }

  // ---------------------------------------------------------------------
  // Output directory: the records list_files reports

  /** The reported status: the stored one, except that a missing one (or
      the literal "unknown") becomes "completed" when a transcript is
      known and "processing" otherwise. */
  function FinalStatus(info: Fields): (s: Value)
    ensures s != Str("unknown")
    ensures "status" in info && info["status"] != Str("unknown") ==> s == info["status"]
    ensures "status" !in info || info["status"] == Str("unknown") ==>
              (s == Str("completed") || s == Str("processing")) &&
              (s == Str("completed") <==> Truthy(Get(info, "transcription_file")))
  {
    var status := GetOr(info, "status", Str("unknown"));
    if status == Str("unknown") && Truthy(Get(info, "transcription_file")) then Str("completed")
    else if status == Str("unknown") then Str("processing")
    else status
  }

  /** The entry for one base; the error message is shown only for a record
      whose status is "error". */
  function ProcessedEntry(base: string, info: Fields): (e: Entry)
    ensures e.Processed? && e.filename == base && e.status == FinalStatus(info)
    ensures e.error != Null ==> e.status == Str("error")
    ensures e.status == Str("error") ==> e.error == Get(info, "error")
  {
    var status := FinalStatus(info);
    Processed(base, GetOr(info, "original_filename", Str(base)), status,
              Get(info, "started_at"), Get(info, "completed_at"), Get(info, "processing_time"),
              Get(info, "language"), Get(info, "duration"),
              if status == Str("error") then Get(info, "error") else Null,
              Get(info, "transcription_file"))
  }

  /** One entry per base, in the order the bases were first seen. */
  function ProcessedEntries(agg: Aggregation): (r: seq<Entry>)
    requires forall b :: b in agg.order ==> b in agg.info
    ensures |r| == |agg.order|
    ensures forall i :: 0 <= i < |r| ==>
      r[i].filename == agg.order[i] && r[i].Processed? && r[i].status != Str("unknown") &&
      r[i].status == FinalStatus(agg.info[agg.order[i]]) &&
      (r[i].error != Null ==> r[i].status == Str("error")) &&
      (r[i].status == Str("error") ==> r[i].error == Get(agg.info[agg.order[i]], "error"))
  {
    seq(|agg.order|, i requires 0 <= i < |agg.order| => ProcessedEntry(agg.order[i], agg.info[agg.order[i]]))
  }

  /** The "uploaded" entries: the input directory in sorted order. */
  ghost function InputPart(inputs: InputDir): seq<Entry> {
    InputEntries(SortedSet(inputs.Keys), inputs)
  }

  /** The processed entries: one per base, in order of first appearance
      among the sorted output names. */
  ghost function OutputPart(outputs: OutputDir): seq<Entry> {
    ProcessedEntries(Aggregate(SortedSet(outputs.Keys), outputs))
  }

  /** What list_files returns for the two directories. */
  ghost function ListedFiles(inputs: InputDir, outputs: OutputDir): seq<Entry> {
    InputPart(inputs) + OutputPart(outputs)
  }

  ghost predicate ListsName(l: seq<Entry>, b: string) {
    exists i :: 0 <= i < |l| && l[i].filename == b
  }

  ghost predicate HasFileFor(outputs: OutputDir, b: string) {
    exists n :: n in outputs && BelongsTo(PieceOf(n, outputs[n]), b)
  }

  /** One "uploaded" entry per input file, in strictly ascending name
      order, with the file's size and creation time. */
  lemma InputPartLists(inputs: InputDir)
    ensures var l := InputPart(inputs);
      |l| == |inputs| &&
      (forall i :: 0 <= i < |l| ==>
        l[i].Input? && l[i].status == Str("uploaded") && l[i].filename in inputs &&
        l[i].originalName == Str(l[i].filename) &&
        l[i].size == |inputs[l[i].filename].content| && l[i].uploadTime == inputs[l[i].filename].createdAt) &&
      (forall i, j :: 0 <= i < j < |l| ==> Less(l[i].filename, l[j].filename)) &&
      (forall f :: f in inputs <==> ListsName(l, f))
  {
    InputPartEntries(inputs);
    InputPartSorted(inputs);
    InputPartNames(inputs);
  }

  lemma InputPartEntries(inputs: InputDir)
    ensures var l := InputPart(inputs);
      |l| == |inputs| &&
      forall i :: 0 <= i < |l| ==> l[i] == InputEntry(SortedSet(inputs.Keys)[i], inputs[l[i].filename])
  {
    assert |SortedSet(inputs.Keys)| == |inputs.Keys| == |inputs|;
  }

  lemma InputPartSorted(inputs: InputDir)
    ensures var l := InputPart(inputs);
      forall i, j :: 0 <= i < j < |l| ==> Less(l[i].filename, l[j].filename)
  {
    var names := SortedSet(inputs.Keys);
    var l := InputPart(inputs);
    forall i, j | 0 <= i < j < |l| ensures Less(l[i].filename, l[j].filename) {
      assert l[i].filename == names[i] && l[j].filename == names[j];
    }
  }

  lemma InputPartNames(inputs: InputDir)
    ensures var l := InputPart(inputs);
      forall f :: f in inputs <==> ListsName(l, f)
  {
    var names := SortedSet(inputs.Keys);
    var l := InputPart(inputs);
    forall f ensures f in inputs <==> ListsName(l, f) {
      if f in inputs {
        var i :| 0 <= i < |names| && names[i] == f;
        assert l[i].filename == f;
      }
      if ListsName(l, f) {
        var i :| 0 <= i < |l| && l[i].filename == f;
        assert l[i].filename == names[i];
      }
    }
  }

  /** Each base with a file in the output directory has exactly one entry,
      and there are no others. */
  lemma OutputPartLists(outputs: OutputDir)
    ensures var l := OutputPart(outputs);
      (forall i, j :: 0 <= i < j < |l| ==> l[i].filename != l[j].filename) &&
      (forall b :: ListsName(l, b) <==> HasFileFor(outputs, b))
  {
    var names := SortedSet(outputs.Keys);
    var ps := Pieces(names, outputs);
    var agg := Fold(ps);
    var l := OutputPart(outputs);
    assert l == ProcessedEntries(agg);
    forall b ensures ListsName(l, b) <==> HasFileFor(outputs, b) {
      OutputPartBase(outputs, names, ps, agg, l, b);
    }
  }

  lemma OutputPartBase(outputs: OutputDir, names: seq<string>, ps: seq<Piece>, agg: Aggregation, l: seq<Entry>, b: string)
    requires names == SortedSet(outputs.Keys) && ps == Pieces(names, outputs) && agg == Fold(ps)
    requires l == ProcessedEntries(agg)
    ensures ListsName(l, b) <==> HasFileFor(outputs, b)
  {
    FoldBases(ps, b);
    if HasFileFor(outputs, b) {
      HasFileListed(outputs, names, ps, b);
      var k :| 0 <= k < |agg.order| && agg.order[k] == b;
      assert l[k].filename == b;
    }
    if ListsName(l, b) {
      var i :| 0 <= i < |l| && l[i].filename == b;
      assert agg.order[i] == b;
      ListedHasFile(outputs, names, ps, b);
    }
  }

  lemma HasFileListed(outputs: OutputDir, names: seq<string>, ps: seq<Piece>, b: string)
    requires names == SortedSet(outputs.Keys) && ps == Pieces(names, outputs)
    requires HasFileFor(outputs, b)
    ensures exists i :: 0 <= i < |ps| && BelongsTo(ps[i], b)
  {
    var n :| n in outputs && BelongsTo(PieceOf(n, outputs[n]), b);
    var i :| 0 <= i < |names| && names[i] == n;
    assert BelongsTo(ps[i], b);
  }

  lemma ListedHasFile(outputs: OutputDir, names: seq<string>, ps: seq<Piece>, b: string)
    requires names == SortedSet(outputs.Keys) && ps == Pieces(names, outputs)
    requires exists i :: 0 <= i < |ps| && BelongsTo(ps[i], b)
    ensures HasFileFor(outputs, b)
  {
    var j :| 0 <= j < |ps| && BelongsTo(ps[j], b);
    assert names[j] in outputs && ps[j] == PieceOf(names[j], outputs[names[j]]);
  }

  /** Fields are merged in sorted-name order: the value of key k in a base's
      record comes from the greatest of the base's file names whose file
      has k. */
  lemma ListingMergeOrder(outputs: OutputDir, b: string, n: string, k: string)
    requires n in outputs && BelongsTo(PieceOf(n, outputs[n]), b)
    requires k in PieceOf(n, outputs[n]).keys
    requires forall m :: m in outputs && Less(n, m) && BelongsTo(PieceOf(m, outputs[m]), b) ==> k !in PieceOf(m, outputs[m]).keys
    ensures var agg := Aggregate(SortedSet(outputs.Keys), outputs);
      b in agg.info && k in agg.info[b] && agg.info[b][k] == PieceOf(n, outputs[n]).keys[k]
  {
    var ps := Pieces(SortedSet(outputs.Keys), outputs);
    MergeKeyFrom(outputs, b, n, k);
    FoldBases(ps, b);
    FoldMerge(ps, b);
  }

  /** The same, for the record built from b's files alone. */
  lemma MergeKeyFrom(outputs: OutputDir, b: string, n: string, k: string)
    requires n in outputs && BelongsTo(PieceOf(n, outputs[n]), b)
    requires k in PieceOf(n, outputs[n]).keys
    requires forall m :: m in outputs && Less(n, m) && BelongsTo(PieceOf(m, outputs[m]), b) ==> k !in PieceOf(m, outputs[m]).keys
    ensures var info := MergeFor(Pieces(SortedSet(outputs.Keys), outputs), b);
      k in info && info[k] == PieceOf(n, outputs[n]).keys[k]
    ensures exists i :: 0 <= i < |SortedSet(outputs.Keys)| && BelongsTo(Pieces(SortedSet(outputs.Keys), outputs)[i], b)
  {
    var names := SortedSet(outputs.Keys);
    var ps := Pieces(names, outputs);
    var i :| 0 <= i < |names| && names[i] == n;
    forall j | i < j < |ps| && BelongsTo(ps[j], b) ensures k !in ps[j].keys {
      assert Less(names[i], names[j]);
      assert names[j] in outputs;
    }
    MergeLastWins(ps, b, i, k);
  }

  /** A base's entry reports the status its status file holds, and that
      file's error message when the status is "error", provided no other
      file of the base carries a "status" or "error" key and the base does
      not itself contain "_status.json". */
  lemma StatusReported(outputs: OutputDir, b: string)
    requires !Occurs(b, StatusSuffix)
    requires StatusName(b) in outputs && outputs[StatusName(b)].Object?
    requires "status" in outputs[StatusName(b)].fields && outputs[StatusName(b)].fields["status"] != Str("unknown")
    requires forall m :: m in outputs && m != StatusName(b) && BelongsTo(PieceOf(m, outputs[m]), b) ==>
      "status" !in PieceOf(m, outputs[m]).keys && "error" !in PieceOf(m, outputs[m]).keys
    ensures var l := OutputPart(outputs);
      var s := outputs[StatusName(b)].fields;
      exists i :: 0 <= i < |l| && l[i].filename == b && l[i].status == s["status"] &&
        (s["status"] == Str("error") && "error" in s ==> l[i].error == s["error"])
  {
    var n := StatusName(b);
    var s := outputs[n].fields;
    ClassifyStatusName(b);
    var p := PieceOf(n, outputs[n]);
    assert BelongsTo(p, b) && p.keys == s + map["status_file_exists" := Bool(true)];
    LessIrreflexive(n);
    MergeKeyFrom(outputs, b, n, "status");
    if s["status"] == Str("error") && "error" in s {
      MergeKeyFrom(outputs, b, n, "error");
    }
    EntryReports(outputs, b);
  }

  /** A key other than "base_name" is in b's record exactly when one of b's
      files carries it. */
  lemma {:induction false} MergeCarried(ps: seq<Piece>, b: string, k: string)
    requires k != "base_name"
    ensures k in MergeFor(ps, b) <==> exists j :: 0 <= j < |ps| && BelongsTo(ps[j], b) && k in ps[j].keys
    decreases |ps|
  {
    if ps != [] {
      var n := |ps| - 1;
      MergeCarried(ps[..n], b, k);
      assert forall j :: 0 <= j < n ==> ps[..n][j] == ps[j];
    }
  }

  /** When every file of b that carries k gives it a truthy value, so does
      b's record. */
  lemma {:induction false} MergeTruthy(ps: seq<Piece>, b: string, k: string)
    requires k != "base_name"
    requires forall j :: 0 <= j < |ps| && BelongsTo(ps[j], b) && k in ps[j].keys ==> Truthy(ps[j].keys[k])
    ensures k in MergeFor(ps, b) ==> Truthy(MergeFor(ps, b)[k])
    decreases |ps|
  {
    if ps != [] {
      var n := |ps| - 1;
      assert forall j :: 0 <= j < n ==> ps[..n][j] == ps[j];
      MergeTruthy(ps[..n], b, k);
    }
  }

  /** A base with a file in the output directory has an entry, and it
      reports the final status of the base's merged record. */
  lemma EntryReports(outputs: OutputDir, b: string)
    requires HasFileFor(outputs, b)
    ensures var l := OutputPart(outputs);
      var info := MergeFor(Pieces(SortedSet(outputs.Keys), outputs), b);
      exists i :: 0 <= i < |l| && l[i].filename == b && l[i].status == FinalStatus(info) &&
        (l[i].status == Str("error") ==> l[i].error == Get(info, "error"))
  {
    var names := SortedSet(outputs.Keys);
    var ps := Pieces(names, outputs);
    var agg := Fold(ps);
    HasFileListed(outputs, names, ps, b);
    FoldBases(ps, b);
    FoldMerge(ps, b);
    var i :| 0 <= i < |agg.order| && agg.order[i] == b;
    var l := OutputPart(outputs);
    assert l[i].filename == b && l[i].status == FinalStatus(agg.info[b]);
    assert l[i].status == Str("error") ==> l[i].error == Get(agg.info[b], "error");
  }

  /** A base whose files carry no "status" key is listed as "completed"
      when its transcript is in the directory, provided every
      "transcription_file" its files carry is truthy. */
  lemma CompletedWithoutStatus(outputs: OutputDir, b: string)
    requires '/' !in b && !AllDots(b) && TranscriptName(b) in outputs
    requires forall m :: m in outputs && BelongsTo(PieceOf(m, outputs[m]), b) ==>
      "status" !in PieceOf(m, outputs[m]).keys &&
      ("transcription_file" in PieceOf(m, outputs[m]).keys ==> Truthy(PieceOf(m, outputs[m]).keys["transcription_file"]))
    ensures var l := OutputPart(outputs);
      exists i :: 0 <= i < |l| && l[i].filename == b && l[i].status == Str("completed")
  {
    var ps := Pieces(SortedSet(outputs.Keys), outputs);
    TranscriptCarried(outputs, b);
    TruthyCarriers(outputs, b);
    MergeCarried(ps, b, "status");
    MergeCarried(ps, b, "transcription_file");
    MergeTruthy(ps, b, "transcription_file");
    EntryReports(outputs, b);
  }

  /** The transcript of a plain base is one of its files, and it carries
      "transcription_file". */
  lemma TranscriptCarried(outputs: OutputDir, b: string)
    requires '/' !in b && !AllDots(b) && TranscriptName(b) in outputs
    ensures HasFileFor(outputs, b)
    ensures exists j :: (0 <= j < |SortedSet(outputs.Keys)| &&
                         BelongsTo(Pieces(SortedSet(outputs.Keys), outputs)[j], b) &&
                         "transcription_file" in Pieces(SortedSet(outputs.Keys), outputs)[j].keys)
  {
    var t := TranscriptName(b);
    ClassifyTranscriptName(b);
    var p := PieceOf(t, outputs[t]);
    assert p.cls == TranscriptOf(b);
    assert p.keys == map["transcription_file" := Str(t)];
    assert BelongsTo(p, b) && "transcription_file" in p.keys;
    var names := SortedSet(outputs.Keys);
    assert t in names;
    var j :| 0 <= j < |names| && names[j] == t;
    var ps := Pieces(names, outputs);
    assert |ps| == |names| && ps[j] == p;
    assert 0 <= j < |ps| && BelongsTo(ps[j], b) && "transcription_file" in ps[j].keys;
  }

  /** The condition of CompletedWithoutStatus, read over the listing's
      sequence of pieces. */
  lemma TruthyCarriers(outputs: OutputDir, b: string)
    requires forall m :: m in outputs && BelongsTo(PieceOf(m, outputs[m]), b) ==>
      "status" !in PieceOf(m, outputs[m]).keys &&
      ("transcription_file" in PieceOf(m, outputs[m]).keys ==> Truthy(PieceOf(m, outputs[m]).keys["transcription_file"]))
    ensures var ps := Pieces(SortedSet(outputs.Keys), outputs);
      forall j :: 0 <= j < |ps| && BelongsTo(ps[j], b) ==>
        "status" !in ps[j].keys &&
        ("transcription_file" in ps[j].keys ==> Truthy(ps[j].keys["transcription_file"]))
  {
    var names := SortedSet(outputs.Keys);
    var ps := Pieces(names, outputs);
    forall j | 0 <= j < |ps| && BelongsTo(ps[j], b)
      ensures "status" !in ps[j].keys
      ensures "transcription_file" in ps[j].keys ==> Truthy(ps[j].keys["transcription_file"])
    {
      assert names[j] in outputs;
    }
  }

  /** A base with a file in the output directory whose files carry neither
      a "status" nor a "transcription_file" key is listed as "processing". */
  lemma ProcessingWithoutStatus(outputs: OutputDir, b: string)
    requires HasFileFor(outputs, b)
    requires forall m :: m in outputs && BelongsTo(PieceOf(m, outputs[m]), b) ==>
      "status" !in PieceOf(m, outputs[m]).keys && "transcription_file" !in PieceOf(m, outputs[m]).keys
    ensures var l := OutputPart(outputs);
      exists i :: 0 <= i < |l| && l[i].filename == b && l[i].status == Str("processing")
  {
    var names := SortedSet(outputs.Keys);
    var ps := Pieces(names, outputs);
    EntryReports(outputs, b);
    forall j | 0 <= j < |ps| && BelongsTo(ps[j], b)
      ensures "status" !in ps[j].keys && "transcription_file" !in ps[j].keys
    {
      assert names[j] in outputs;
    }
    MergeCarried(ps, b, "status");
    MergeCarried(ps, b, "transcription_file");
  }
}
