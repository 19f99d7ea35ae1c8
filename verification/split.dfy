/** `split` of packages/ts/src/base/split.ts: argument validation, the custom-strategy
    short cut, dispatch on the kind of `file`, and the default chunking. */
module Splitter {

  import opened Results
  import opened Chunking
  import JsString

  /** The value passed as `file`. */
  datatype FileInput =
    | Bytes(bytes: seq<byte>)  // a Uint8Array
    | BlobV(blob: seq<byte>)   // a File or Blob, seen as its bytes
    | Str(text: string)        // a string; only `data:` strings are accepted by default
    | Other(truthy: bool)      // anything else; `truthy` is false for null, undefined, 0, false, NaN

  /** What `split` throws. */
  datatype Error =
    | TypeError(message: string)  // the three validation failures and an unknown `file`
    | InvalidCharacterError       // `atob` rejected the data-URI payload
    | Thrown(reason: string)      // whatever a custom strategy throws

  /** The value passed as `splitFunction`. */
  datatype SplitFunction =
    | Absent                                                 // missing or any falsy value
    | Function(run: (FileInput, int) -> Result<SplitResult, Error>)
    | NotAFunction                                           // truthy, but not callable

  const FileMessage: string := "file is not a File, Blob, file URI, Uint8Array or Base64 data"
  const ChunkSizeMessage: string := "chunkSize is not a positive number"
  const SplitFunctionMessage: string := "splitFunction is not a function"

  const DataScheme: string := "data:"

  /** The first check of `split`: a falsy `file`, or a string that is empty once trimmed. */
  predicate RejectedFile(file: FileInput): (b: bool)
    ensures b <==> (file.Str? && JsString.IsBlank(file.text)) || (file.Other? && !file.truthy)
  {
    match file
    case Str(s) => JsString.Trim(s) == ""
    case Other(truthy) => !truthy
    case _ => false
  }

  /** The data-URI payload handed to `atob`: the text after the first comma, or the whole
      string when there is no comma (the comma search then yields -1, and -1 + 1 is 0). */
  function DataUriPayload(s: string): (r: string)
    ensures |r| <= |s| && r == s[|s| - |r|..]
    ensures ',' !in s ==> r == s
    ensures ',' in s ==> |r| < |s| && s[|s| - |r| - 1] == ',' && ',' !in s[..|s| - |r| - 1]
  {
    s[JsString.IndexOf(s, ',') + 1..]
  }

  /** Building `head,body` with a comma-free head and taking the payload back gives `body`. */
  lemma PayloadAfterFirstComma(head: string, body: string)
    requires ',' !in head
    ensures DataUriPayload(head + "," + body) == body
  {
    var s := head + "," + body;
    assert s[..|head|] == head;
    assert s[|head|] == ',';
    assert s[|head| + 1..] == body;
  }

  /** `charCodeAt` of every character of `atob`'s result, stored in a Uint8Array
      (which keeps each value modulo 256). */
  function CharCodeBytes(s: string): (b: seq<byte>)
    ensures |b| == |s|
    ensures IsBinaryString(s) ==> BinaryString(b) == s
  {
    var b := seq(|s|, i requires 0 <= i < |s| => (s[i] as int % 256) as byte);
    CodesDetermineString(s, b);
    b
  }

  /** Bytes that agree with the character codes of a binary string spell that string. */
  lemma CodesDetermineString(s: string, b: seq<byte>)
    requires |b| == |s|
    requires forall i :: 0 <= i < |s| ==> b[i] as int == s[i] as int % 256
    ensures IsBinaryString(s) ==> BinaryString(b) == s
  {
    if IsBinaryString(s) {
      var t := BinaryString(b);
      forall i | 0 <= i < |s|
        ensures t[i] == s[i]
      {
        assert t[i] as int == s[i] as int;
      }
    }
  }

  /** Every character code is below 256, as in any string `atob` returns. */
  predicate IsBinaryString(s: string) {
    forall i :: 0 <= i < |s| ==> s[i] as int < 256
  }

  /** The binary string whose character codes are the given bytes. */
  function BinaryString(b: seq<byte>): (s: string)
    ensures |s| == |b| && IsBinaryString(s)
    ensures forall i :: 0 <= i < |b| ==> s[i] as int == b[i] as int
  {
    seq(|b|, i requires 0 <= i < |b| => (b[i] as int) as char)
  }

  /** Bytes to binary string and back. */
  lemma BytesRoundTrip(b: seq<byte>)
    ensures CharCodeBytes(BinaryString(b)) == b
  {
  }

  /** The byte source the default algorithm chunks (lines 65-96), with `atob` given as a
      parameter: `None` stands for the InvalidCharacterError it throws. */
  function SourceBytes(file: FileInput, atob: string -> Option<string>): (r: Result<seq<byte>, Error>)
    ensures r.Ok? <==>
              || file.Bytes? || file.BlobV?
              || (file.Str? && JsString.StartsWith(file.text, DataScheme) && atob(DataUriPayload(file.text)).Some?)
    ensures file.Bytes? ==> r == Ok(file.bytes)
    ensures file.BlobV? ==> r == Ok(file.blob)
    ensures r.Ok? && file.Str? ==> |r.value| == |atob(DataUriPayload(file.text)).value|
    ensures r.Err? ==> r.error == (if file.Str? && JsString.StartsWith(file.text, DataScheme)
                                   then InvalidCharacterError else TypeError(FileMessage))
  {
    match file
    case Str(s) =>
      if JsString.StartsWith(s, DataScheme) then
        match atob(DataUriPayload(s))
        case None => Err(InvalidCharacterError)
        case Some(binary) => Ok(CharCodeBytes(binary))
      else
        Err(TypeError(FileMessage))
    case Bytes(b) => Ok(b)
    case BlobV(b) => Ok(b)
    case Other(_) => Err(TypeError(FileMessage))
  }

  /** A `data:` string without a comma is decoded whole, `data:` included; since `:` is not
      a Base64 character, a decoder that rejects it makes `split` fail with
      InvalidCharacterError, whatever follows the prefix. */
  lemma CommaLessDataUriRejected(s: string, chunkSize: int, atob: string -> Option<string>)
    requires JsString.StartsWith(s, DataScheme) && ',' !in s && chunkSize > 0
    requires forall t :: ':' in t ==> atob(t).None?
    ensures Split(Str(s), chunkSize, Absent, atob) == Err(InvalidCharacterError)
  {
    assert s[4] == ':' && !JsString.IsWhiteSpace(s[0]);
  }

  /** A data URI whose payload `atob` decodes to the binary string of `b` is read as `b`. */
  lemma DataUriSource(head: string, payload: string, b: seq<byte>, atob: string -> Option<string>)
    requires JsString.StartsWith(head, DataScheme) && ',' !in head
    requires atob(payload) == Some(BinaryString(b))
    ensures SourceBytes(Str(head + "," + payload), atob) == Ok(b)
  {
    var s := head + "," + payload;
    PayloadAfterFirstComma(head, payload);
    BytesRoundTrip(b);
    assert JsString.StartsWith(s, DataScheme) by {
      assert s[..|DataScheme|] == head[..|DataScheme|];
    }
  }

  /** `split(options)`: the checks in source order, then the custom strategy if one is
      given, else the default algorithm on the source bytes. */
  function Split(file: FileInput, chunkSize: int, splitFunction: SplitFunction,
                 atob: string -> Option<string>): (r: Result<SplitResult, Error>)
    ensures RejectedFile(file) ==> r == Err(TypeError(FileMessage))
    ensures chunkSize <= 0 ==> r.Err?
    ensures !RejectedFile(file) && chunkSize > 0 && splitFunction.Function? ==>
              r == splitFunction.run(file, chunkSize)
    ensures r.Ok? && !splitFunction.Function? ==>
              && chunkSize > 0
              && SourceBytes(file, atob).Ok?
              && IsPartition(SourceBytes(file, atob).value, chunkSize, r.value)
  {
    if RejectedFile(file) then Err(TypeError(FileMessage))
    else if chunkSize <= 0 then Err(TypeError(ChunkSizeMessage))
    else if splitFunction.NotAFunction? then Err(TypeError(SplitFunctionMessage))
    else if splitFunction.Function? then splitFunction.run(file, chunkSize)
    else
      match SourceBytes(file, atob)
      case Err(e) => Err(e)
      case Ok(src) =>
        DefaultSplitIsPartition(src, chunkSize);
        Ok(DefaultSplit(src, chunkSize))
  }

  /** Which check fires when several arguments are bad: the `file` check wins over the
      `chunkSize` check, which wins over the `splitFunction` check. */
  lemma ValidationOrder(file: FileInput, chunkSize: int, splitFunction: SplitFunction,
                        atob: string -> Option<string>)
    ensures RejectedFile(file) ==> Split(file, chunkSize, splitFunction, atob) == Err(TypeError(FileMessage))
    ensures !RejectedFile(file) && chunkSize <= 0 ==>
              Split(file, chunkSize, splitFunction, atob) == Err(TypeError(ChunkSizeMessage))
    ensures !RejectedFile(file) && chunkSize > 0 && splitFunction.NotAFunction? ==>
              Split(file, chunkSize, splitFunction, atob) == Err(TypeError(SplitFunctionMessage))
  {
  }

  /** An empty or blank string is rejected, whatever the other arguments. */
  lemma BlankStringRejected(s: string, chunkSize: int, splitFunction: SplitFunction,
                            atob: string -> Option<string>)
    requires JsString.IsBlank(s)
    ensures Split(Str(s), chunkSize, splitFunction, atob) == Err(TypeError(FileMessage))
  {
  }

  /** With a custom strategy the input kind is never inspected: a non-`data:` string or an
      unknown object reaches the strategy, and its result or error comes back unchanged. */
  lemma CustomStrategyShortCut(file: FileInput, chunkSize: int,
                               run: (FileInput, int) -> Result<SplitResult, Error>,
                               atob: string -> Option<string>)
    requires !RejectedFile(file) && chunkSize > 0
    ensures Split(file, chunkSize, Function(run), atob) == run(file, chunkSize)
  {
  }

  /** Without a custom strategy a non-blank string that does not start with `data:` is
      rejected, and so is a truthy value of an unknown kind. */
  lemma DefaultRejectsNonDataString(s: string, chunkSize: int, atob: string -> Option<string>)
    requires !JsString.IsBlank(s) && !JsString.StartsWith(s, DataScheme) && chunkSize > 0
    ensures Split(Str(s), chunkSize, Absent, atob) == Err(TypeError(FileMessage))
    ensures Split(Other(true), chunkSize, Absent, atob) == Err(TypeError(FileMessage))
  {
  }

  /** On the default path `split` succeeds exactly when the arguments pass validation and
      the source bytes can be obtained; it then returns the default chunking of them. */
  lemma DefaultSplitOutcome(file: FileInput, chunkSize: int, atob: string -> Option<string>)
    ensures Split(file, chunkSize, Absent, atob).Ok? <==>
              !RejectedFile(file) && chunkSize > 0 && SourceBytes(file, atob).Ok?
    ensures Split(file, chunkSize, Absent, atob).Ok? ==>
              Split(file, chunkSize, Absent, atob).value == DefaultSplit(SourceBytes(file, atob).value, chunkSize)
  {
  }

  /** Merge after split: on the default path the chunks, appended in index order, give
      back the source bytes, and the counts follow `ceil(fileSize / chunkSize)`. */
  lemma SplitRoundTrip(file: FileInput, chunkSize: int, atob: string -> Option<string>)
    ensures Split(file, chunkSize, Absent, atob).Ok? ==>
              var r := Split(file, chunkSize, Absent, atob).value;
              && Flatten(r.chunks) == SourceBytes(file, atob).value
              && r.totalChunks == CeilDiv(r.fileSize, chunkSize)
              && TotalLength(r.chunks) == r.fileSize
  {
    if Split(file, chunkSize, Absent, atob).Ok? {
      var r := Split(file, chunkSize, Absent, atob).value;
      PartitionSizes(SourceBytes(file, atob).value, chunkSize, r);
    }
  }

  /** A byte array, a blob, or a data URI carrying the bytes `b` all merge back to `b`. */
  lemma InputKindsRoundTrip(b: seq<byte>, head: string, payload: string, chunkSize: int,
                            atob: string -> Option<string>)
    requires chunkSize > 0
    requires JsString.StartsWith(head, DataScheme) && ',' !in head
    requires atob(payload) == Some(BinaryString(b))
    ensures Split(Bytes(b), chunkSize, Absent, atob).Ok?
    ensures Flatten(Split(Bytes(b), chunkSize, Absent, atob).value.chunks) == b
    ensures Split(BlobV(b), chunkSize, Absent, atob).Ok?
    ensures Flatten(Split(BlobV(b), chunkSize, Absent, atob).value.chunks) == b
    ensures Split(Str(head + "," + payload), chunkSize, Absent, atob).Ok?
    ensures Flatten(Split(Str(head + "," + payload), chunkSize, Absent, atob).value.chunks) == b
  {
    var s := head + "," + payload;
    DataUriSource(head, payload, b, atob);
    assert s[0] == 'd' && !JsString.IsWhiteSpace(s[0]);
    SplitRoundTrip(Bytes(b), chunkSize, atob);
    SplitRoundTrip(BlobV(b), chunkSize, atob);
    SplitRoundTrip(Str(s), chunkSize, atob);
  }
}
