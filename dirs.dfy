/** The two directories the server works in, held in memory: the input
    directory of uploaded audio files and the output directory of
    transcripts and JSON status and metadata files. */
module Dirs {
  import opened Json

  type byte = bv8

  /** An uploaded audio file: its bytes and its creation time (st_ctime,
      as an ISO 8601 string). */
  datatype InputFile = InputFile(content: seq<byte>, createdAt: string)

  /** An output file: a transcript, or a JSON object as json.loads parses
      it. A text file read as JSON is one that does not parse. */
  datatype OutputFile = Text(body: string) | Object(fields: Fields)

  type InputDir = map<string, InputFile>
  type OutputDir = map<string, OutputFile>
}
