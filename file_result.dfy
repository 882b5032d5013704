/** The record the evaluator produces for every file it looks at. */
module FileResults {
  import opened JavaLang

  /** The storage bucket a file lives in, reduced to what the evaluator reads
      of it. */
  datatype Bucket = Bucket(bucketId: JString, bucketName: JString)

  /** One evaluated file. `characterCount` is a Java `long`; `errorMessage` is
      `null` (`None`) on success. */
  datatype FileResult = FileResult(
    bucket: Bucket,
    fileName: JString,
    character: Char16,
    characterCount: int,
    success: bool,
    errorMessage: Option<JString>)
}
