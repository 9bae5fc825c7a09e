/**
 * The simulated video upload service. After its fixed delay the upload
 * fails when the file name carries the marker "fail" in any letter case,
 * and otherwise resolves with one fixed video id; the metadata is only logged.
 */
module YoutubeService {
  import opened Wrappers
  import opened JsText

  /** The selected video file; only its name is ever inspected. */
  datatype VideoFile = VideoFile(name: string)

  /** The metadata sent along with the upload. */
  datatype UploadMetadata = UploadMetadata(
    epNumber: string,
    title: string,
    lang: string,
    description: string,
    tags: seq<string>)

  const UploadFailureMessage := "Simulated upload failure: Invalid file format detected."
  const MockVideoId := "dQw4w9WgXcQ"

  /** The upload rule: `name.toLowerCase().includes("fail")`. */
  predicate MarksFailure(name: string) {
    Contains(Lower(name), "fail")
  }

  /** The awaited outcome of `uploadManager(file, metadata)`: the video id or the thrown message. */
  function Upload(file: VideoFile, metadata: UploadMetadata): (r: Result<string>)
    ensures r.Failure? ==> r.error == UploadFailureMessage
    ensures r.Success? ==> r.value == MockVideoId
  {
    if MarksFailure(file.name) then Failure(UploadFailureMessage) else Success(MockVideoId)
  }

  /** The letters f, a, i, l, each in either case, start at index `i` of `name`. */
  predicate FailMarkerAt(name: string, i: int) {
    && 0 <= i && i + 4 <= |name|
    && (name[i] == 'f' || name[i] == 'F')
    && (name[i + 1] == 'a' || name[i + 1] == 'A')
    && (name[i + 2] == 'i' || name[i + 2] == 'I')
    && (name[i + 3] == 'l' || name[i + 3] == 'L')
  }

  /** Lower-casing a character yields the small letter `c` exactly when it is `c` or its capital. */
  lemma LowerCharIs(x: char, c: char)
    requires 'a' <= c <= 'z'
    ensures LowerChar(x) == c <==> x == c || x == (c as int - 32) as char
  {
  }

  /**
   * The upload fails exactly when the name holds "fail" spelled in any mix of
   * letter cases, whatever the metadata.
   */
  lemma UploadFailsIffMarker(file: VideoFile, metadata: UploadMetadata)
    ensures Upload(file, metadata).Failure? <==> exists i :: FailMarkerAt(file.name, i)
  {
    var name := file.name;
    var low := Lower(name);
    forall i | 0 <= i <= |low| - 4
      ensures OccursAt(low, "fail", i) <==> FailMarkerAt(name, i)
    {
      LowerCharIs(name[i], 'f');
      LowerCharIs(name[i + 1], 'a');
      LowerCharIs(name[i + 2], 'i');
      LowerCharIs(name[i + 3], 'l');
      assert low[i..i + 4] == [low[i], low[i + 1], low[i + 2], low[i + 3]];
    }
    if exists i :: FailMarkerAt(name, i) {
      var i :| FailMarkerAt(name, i);
      assert OccursAt(low, "fail", i);
    }
  }

  /** The outcome is the same for any two metadata records: metadata never matters. */
  lemma UploadIgnoresMetadata(file: VideoFile, m1: UploadMetadata, m2: UploadMetadata)
    ensures Upload(file, m1) == Upload(file, m2)
  {
  }

  /** A marker anywhere in the name makes the upload fail with the fixed message. */
  lemma MarkedNameFails(file: VideoFile, metadata: UploadMetadata, i: int)
    requires FailMarkerAt(file.name, i)
    ensures Upload(file, metadata) == Failure(UploadFailureMessage)
  {
    UploadFailsIffMarker(file, metadata);
  }

  /** "FAIL.mp4" and "Fail.mp4" are rejected just like "fail.mp4". */
  lemma UploadRejectsAnyCase(metadata: UploadMetadata)
    ensures Upload(VideoFile("FAIL.mp4"), metadata) == Failure(UploadFailureMessage)
    ensures Upload(VideoFile("Fail.mp4"), metadata) == Failure(UploadFailureMessage)
    ensures Upload(VideoFile("fail.mp4"), metadata) == Failure(UploadFailureMessage)
  {
    MarkedNameFails(VideoFile("FAIL.mp4"), metadata, 0);
    MarkedNameFails(VideoFile("Fail.mp4"), metadata, 0);
    MarkedNameFails(VideoFile("fail.mp4"), metadata, 0);
  }

  /** A name with no letter f in either case always uploads, to the fixed video id. */
  lemma UploadAcceptsNameWithoutF(file: VideoFile, metadata: UploadMetadata)
    requires 'f' !in file.name && 'F' !in file.name
    ensures Upload(file, metadata) == Success(MockVideoId)
  {
    UploadFailsIffMarker(file, metadata);
    forall i | 0 <= i && i + 4 <= |file.name|
      ensures !FailMarkerAt(file.name, i)
    {
      assert file.name[i] in file.name;
    }
  }
}
