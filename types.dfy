/** The application's shared data types. */
module Types {
  import opened Js

  /** Which kind of generation the form drives. */
  datatype AppMode = ImageToImage | ImageToVideo

  /** A browser `File`: an opaque token, with the media type the browser declares for it (`file.type`). */
  datatype File = File(id: nat, mimeType: string)

  /** A picked file together with its base64 payload and media type. */
  datatype UploadedFile = UploadedFile(file: File, base64: string, mimeType: string)

  /** The `type` of a history entry. */
  datatype ResultType = ImageResult | VideoResult

  /** The `status` of a history entry. */
  datatype ResultStatus = Success | Censored

  /** One entry of the in-memory generation history. */
  datatype GenerationResult = GenerationResult(
    id: int,
    kind: ResultType,
    status: ResultStatus,
    url: Option<string>,
    text: Option<string>)
}
