/** The evaluation pipeline of `FileEvaluator`: one result per file, files in
    listing order, buckets in listing order, and the console output of a run.
    What the storage service lists and what a download yields are inputs: the
    session itself is outside the model. */
module FileEvaluator {
  import opened JavaLang
  import opened ConnectionCredentials
  import opened FileResults
  import opened CharacterCount
  import opened ResultOrder
  import opened Report

  /** The character every run counts, `'a'`. */
  const TargetCharacter: Char16 := 0x61

  const MalformedArgumentsMessage: JString :=
    Utf16("Required arguments are missing or malformed. Please review the provided access keys.")

  const NoBucketsMessage: JString := Utf16("There are no buckets available for evaluation.")

  /** One listed file together with what downloading it gave: `content` is
      the in-memory handler's byte array (`None` for `null`), and `text` is
      the `String` that UTF-8 decoding of `content` yields. */
  datatype FileDownload = FileDownload(fileName: JString, content: Option<seq<Int8>>, text: JString)

  /** One bucket and the files listed in it, in listing order. */
  datatype BucketListing = BucketListing(bucket: Bucket, files: seq<FileDownload>)

  /** A `null` or zero-length byte array: nothing to decode. */
  predicate NoContent(content: Option<seq<Int8>>)
  {
    content.None? || |content.value| == 0
  }

  /** The result the evaluator must produce for one downloaded file. */
  ghost function Evaluated(bucket: Bucket, file: FileDownload, character: Char16): (r: FileResult)
    ensures r.success && r.errorMessage == None
    ensures r.bucket == bucket && r.fileName == file.fileName && r.character == character
    ensures 0 <= r.characterCount <= |file.text|
    ensures NoContent(file.content) ==> r.characterCount == 0
  {
    var count := if NoContent(file.content) then 0 else Count(file.text, character);
    FileResult(bucket, file.fileName, character, count, true, None)
  }

  /** Without content, the decoded text is never looked at. */
  lemma NoContentIgnoresText(bucket: Bucket, file: FileDownload, other: JString, character: Char16)
    requires NoContent(file.content)
    ensures Evaluated(bucket, file, character) == Evaluated(bucket, file.(text := other), character)
                                                == Evaluated(bucket, file.(text := []), character)
  {
  }

  /** The results for the files of one bucket, in listing order. */
  ghost function Evaluations(bucket: Bucket, files: seq<FileDownload>, character: Char16): seq<FileResult>
  {
    seq(|files|, i requires 0 <= i < |files| => Evaluated(bucket, files[i], character))
  }

  /** The results for a whole account: bucket after bucket. */
  ghost function AccountEvaluations(account: seq<BucketListing>, character: Char16): seq<FileResult>
  {
    if account == [] then []
    else
      var last := account[|account| - 1];
      AccountEvaluations(account[..|account| - 1], character) + Evaluations(last.bucket, last.files, character)
  }

  function FileCount(account: seq<BucketListing>): nat
  {
    if account == [] then 0 else FileCount(account[..|account| - 1]) + |account[|account| - 1].files|
  }

  /** Every file of the account gets exactly one result, and each result is a
      success for the requested character with a count bounded by the file's
      length. */
  lemma {:induction false} AccountEvaluationsShape(account: seq<BucketListing>, character: Char16)
    ensures |AccountEvaluations(account, character)| == FileCount(account)
    ensures forall r <- AccountEvaluations(account, character) ::
              r.success && r.character == character && r.characterCount >= 0
  {
    if account != [] {
      AccountEvaluationsShape(account[..|account| - 1], character);
    }
  }

  /** `evaluateFile` once the download has returned. */
  method EvaluateFile(bucket: Bucket, file: FileDownload, character: Char16) returns (r: FileResult)
    requires |file.text| <= INT_MAX
    ensures r == Evaluated(bucket, file, character)
  {
    var characterCount := 0;
    if file.content.Some? && |file.content.value| > 0 {
      characterCount := CountCharacters(file.text, character);
    }
    r := FileResult(bucket, file.fileName, character, characterCount, true, None);
  }

  /** `evaluateBucketFiles`: one result per listed file, appended in order. */
  method EvaluateBucketFiles(bucket: Bucket, files: seq<FileDownload>, character: Char16)
    returns (fileResults: seq<FileResult>)
    requires forall f <- files :: |f.text| <= INT_MAX
    ensures fileResults == Evaluations(bucket, files, character)
  {
    fileResults := [];
    for i := 0 to |files|
      invariant |fileResults| == i
      invariant forall j | 0 <= j < i :: fileResults[j] == Evaluated(bucket, files[j], character)
    {
      var result := EvaluateFile(bucket, files[i], character);
      fileResults := fileResults + [result];
    }
  }

  /** `evaluateFiles`: the results of every bucket, appended bucket after
      bucket; an account without buckets prints a notice and yields no
      results. */
  method EvaluateFiles(account: seq<BucketListing>, character: Char16)
    returns (fileResults: seq<FileResult>, out: seq<JString>)
    requires forall b <- account, f <- b.files :: |f.text| <= INT_MAX
    ensures fileResults == AccountEvaluations(account, character)
    ensures out == if account == [] then [NoBucketsMessage] else []
  {
    fileResults := [];
    if account != [] {
      for i := 0 to |account|
        invariant fileResults == AccountEvaluations(account[..i], character)
      {
        var bucketResults := EvaluateBucketFiles(account[i].bucket, account[i].files, character);
        assert account[..i + 1][..i] == account[..i];
        fileResults := fileResults + bucketResults;
      }
      assert account[..|account|] == account;
      out := [];
    } else {
      out := [NoBucketsMessage];
    }
  }

  /** `main`: validate the arguments, evaluate every file for `'a'`, and show
      the report. Returns what goes to standard output and standard error. */
  method RunEvaluator(args: Option<seq<Option<JString>>>, isWhitespace: Char16 -> bool, account: seq<BucketListing>)
    returns (out: seq<JString>, err: seq<JString>)
    requires forall b <- account, f <- b.files :: |f.text| <= INT_MAX
    ensures ConvertCommandLineToCredentials(args, isWhitespace).None? ==>
              out == [] && err == [MalformedArgumentsMessage]
    ensures ConvertCommandLineToCredentials(args, isWhitespace).Some? ==>
              && err == []
              && out == (if account == [] then [NoBucketsMessage] else [])
                        + Display(AccountEvaluations(account, TargetCharacter))
  {
    var credentials := ConvertCommandLineToCredentials(args, isWhitespace);
    if credentials.None? {
      return [], [MalformedArgumentsMessage];
    }
    var fileResults, notice := EvaluateFiles(account, TargetCharacter);
    var report := Display(fileResults);
    out, err := notice + report, [];
  }

  /** One bucket holding a file whose bytes are "aaa" and one whose bytes are
      "b": counting `'a'` reports the second file first, as `0 <name>`, then
      the first as `3 <name>`. */
  lemma TwoFileReport(bucket: Bucket, nameA: JString, nameB: JString)
    ensures
      var fileA := FileDownload(nameA, Some([0x61, 0x61, 0x61]), [0x61, 0x61, 0x61]);
      var fileB := FileDownload(nameB, Some([0x62]), [0x62]);
      Display(AccountEvaluations([BucketListing(bucket, [fileA, fileB])], TargetCharacter))
        == [[0x30, SPACE] + nameB, [0x33, SPACE] + nameA]
  {
    var fileA := FileDownload(nameA, Some([0x61, 0x61, 0x61]), [0x61, 0x61, 0x61]);
    var fileB := FileDownload(nameB, Some([0x62]), [0x62]);
    var account := [BucketListing(bucket, [fileA, fileB])];
    var rA := Evaluated(bucket, fileA, TargetCharacter);
    var rB := Evaluated(bucket, fileB, TargetCharacter);
    CountExamples();
    assert rA.characterCount == 3 && rB.characterCount == 0;
    assert Evaluations(bucket, [fileA, fileB], TargetCharacter) == [rA, rB];
    assert account[..0] == [];
    assert AccountEvaluations(account, TargetCharacter) == [rA, rB];
    SortTwo(rA, rB);
    assert Line(rB) == [0x30, SPACE] + nameB;
    assert Line(rA) == [0x33, SPACE] + nameA;
  }

  lemma CountExamples()
    ensures Count([0x61, 0x61, 0x61], TargetCharacter) == 3
    ensures Count([0x62], TargetCharacter) == 0
  {
  }

  lemma SortTwo(x: FileResult, y: FileResult)
    requires x.characterCount > y.characterCount
    ensures SortResults([x, y]) == [y, x]
    ensures PrintFileResults([x, y]) == [Line(y), Line(x)]
  {
  }
}
