/** `generateQuizQuestions` in index.js: assemble one generation request out of a fixed
    prompt and the page images that exist on disk, send it to the model and hand back its
    text; a failure on the way is passed on to the caller. */
module QuizGenerator {
  import opened Wrappers
  import opened Filtering

  const ModelName: string := "gemini-2.0-flash"
  const UserRole: string := "user"
  const PngMimeType: string := "image/png"

  /** The instruction text that opens every request (the line breaks and indentation of the
      template literal are part of it). */
  const QuizPrompt: string :=
    "Analyze these educational materials and determine the appropriate grade level (elementary, middle school, high school, or college).\n"
    + "        Then generate 5 multiple-choice questions with 4 options each and provide the correct answers.\n"
    + "        The questions should be appropriate for the identified grade level, using vocabulary and concepts suitable for that age group. Focus on diagrams, charts, and exact visual information in the images.\n"
    + "        [IMPORTANT] For each question that references a visual element, Always describe that element and its details for better understandig of question.\n"
    + "        [IMPORTANT] Always explain detailed describtion of visual elements rather than referancing them."

  /** One element of `contentParts`: `{ text }` or `{ inlineData: { data, mimeType } }`. */
  datatype Part = Text(text: string) | InlineData(data: string, mimeType: string)

  datatype Content = Content(role: string, parts: seq<Part>)

  /** The model chosen with `getGenerativeModel` and the argument of `generateContent`. */
  datatype Request = Request(model: string, contents: seq<Content>)

  /** What a path names on disk: `existsSync` holds for both, `readFileSync` reads a file
      and throws on a directory. */
  datatype Entry = File(bytes: seq<bv8>) | Directory

  type FileSystem = map<string, Entry>

  datatype QuizError =
    | ReadFailed(path: string)        // readFileSync threw on an existing path
    | GenerationFailed(message: string) // the model call threw

  /** `fs.existsSync(path)`. */
  function ExistsOn(fs: FileSystem): string -> bool {
    path => path in fs
  }

  /** An existing path that cannot be read as a file. */
  predicate Unreadable(fs: FileSystem, path: string) {
    path in fs && fs[path].Directory?
  }

  /** The paths the loop attaches, in input order. */
  function ExistingPaths(fs: FileSystem, paths: seq<string>): seq<string> {
    Filter(ExistsOn(fs), paths)
  }

  /** The part attached for an image: its bytes in base64, declared as PNG. */
  function ImagePart(encode: seq<bv8> -> string, bytes: seq<bv8>): Part {
    InlineData(encode(bytes), PngMimeType)
  }

  /** The image parts the loop pushes for `paths`, or the first read error it meets. */
  function ImageParts(fs: FileSystem, encode: seq<bv8> -> string, paths: seq<string>)
    : Result<seq<Part>, QuizError>
  {
    if paths == [] then Success([])
    else
      var last := paths[|paths| - 1];
      match ImageParts(fs, encode, paths[..|paths| - 1])
      case Failure(e) => Failure(e)
      case Success(parts) =>
        if last !in fs then Success(parts)
        else if fs[last].Directory? then Failure(ReadFailed(last))
        else Success(parts + [ImagePart(encode, fs[last].bytes)])
  }

  /** The single user-role content: the prompt, then the image parts. */
  function BuildRequest(imageParts: seq<Part>): Request {
    Request(ModelName, [Content(UserRole, [Text(QuizPrompt)] + imageParts)])
  }

  /** What `generateQuizQuestions` resolves to, or the error it rethrows. */
  function QuizOutcome(fs: FileSystem, encode: seq<bv8> -> string,
                       generate: Request -> Result<string, string>, imagePaths: seq<string>)
    : Result<string, QuizError>
  {
    match ImageParts(fs, encode, imagePaths)
    case Failure(e) => Failure(e)
    case Success(parts) =>
      match generate(BuildRequest(parts))
      case Success(text) => Success(text)
      case Failure(message) => Failure(GenerationFailed(message))
  }

  /** The imperative procedure: start from the prompt part, push one part per existing path,
      then make the one model call. The default argument `[]` is the empty sequence. */
  method GenerateQuizQuestions(fs: FileSystem, encode: seq<bv8> -> string,
                               generate: Request -> Result<string, string>,
                               imagePaths: seq<string>)
    returns (result: Result<string, QuizError>)
    ensures result == QuizOutcome(fs, encode, generate, imagePaths)
  {
    var contentParts := [Text(QuizPrompt)];
    var i := 0;
    while i < |imagePaths|
      invariant 0 <= i <= |imagePaths|
      invariant ImageParts(fs, encode, imagePaths[..i]).Success?
      invariant contentParts == [Text(QuizPrompt)] + ImageParts(fs, encode, imagePaths[..i]).value
    {
      var imagePath := imagePaths[i];
      assert imagePaths[..i + 1][..i] == imagePaths[..i];
      if imagePath in fs {
        match fs[imagePath]
        case Directory =>
          FailureSticks(fs, encode, imagePaths, i + 1);
          return Failure(ReadFailed(imagePath));
        case File(bytes) =>
          contentParts := contentParts + [ImagePart(encode, bytes)];
      }
      i := i + 1;
    }
    assert imagePaths[..i] == imagePaths;
    var request := Request(ModelName, [Content(UserRole, contentParts)]);
    var response := generate(request);
    match response
    case Success(text) =>
      result := Success(text);
    case Failure(message) =>
      result := Failure(GenerationFailed(message));
  }

  /** Once a read has failed, the paths after it change nothing: the loop has stopped. */
  lemma {:induction false} FailureSticks(fs: FileSystem, encode: seq<bv8> -> string,
                                         paths: seq<string>, k: nat)
    requires k <= |paths|
    requires ImageParts(fs, encode, paths[..k]).Failure?
    ensures ImageParts(fs, encode, paths) == ImageParts(fs, encode, paths[..k])
  {
    if k < |paths| {
      var init := paths[..|paths| - 1];
      assert init[..k] == paths[..k];
      FailureSticks(fs, encode, init, k);
    } else {
      assert paths[..k] == paths;
    }
  }

  /** When every existing path is a readable file there is exactly one image part per
      existing path, in input order, carrying that file's bytes. */
  lemma {:induction false} ImagePartsShape(fs: FileSystem, encode: seq<bv8> -> string,
                                           paths: seq<string>)
    requires forall i :: 0 <= i < |paths| ==> !Unreadable(fs, paths[i])
    ensures ImageParts(fs, encode, paths).Success?
    ensures |ImageParts(fs, encode, paths).value| == |ExistingPaths(fs, paths)|
    ensures forall i :: 0 <= i < |ExistingPaths(fs, paths)| ==>
      ExistingPaths(fs, paths)[i] in fs && fs[ExistingPaths(fs, paths)[i]].File? &&
      ImageParts(fs, encode, paths).value[i] ==
        ImagePart(encode, fs[ExistingPaths(fs, paths)[i]].bytes)
  {
    if paths != [] {
      var init := paths[..|paths| - 1];
      ImagePartsShape(fs, encode, init);
    }
  }

  /** A read error comes from the first existing path that is not a readable file. */
  lemma {:induction false} FirstUnreadableFails(fs: FileSystem, encode: seq<bv8> -> string,
                                                paths: seq<string>, i: nat)
    requires i < |paths| && Unreadable(fs, paths[i])
    requires forall j :: 0 <= j < i ==> !Unreadable(fs, paths[j])
    ensures ImageParts(fs, encode, paths) == Failure(ReadFailed(paths[i]))
  {
    var prefix := paths[..i];
    assert forall j :: 0 <= j < |prefix| ==> !Unreadable(fs, prefix[j]);
    ImagePartsShape(fs, encode, prefix);
    assert paths[..i + 1][..i] == prefix;
    FailureSticks(fs, encode, paths, i + 1);
  }

  /** Paths that do not exist are skipped without a trace: dropping them beforehand gives
      the same parts and the same errors. */
  lemma {:induction false} MissingPathsSkipped(fs: FileSystem, encode: seq<bv8> -> string,
                                               paths: seq<string>)
    ensures ImageParts(fs, encode, ExistingPaths(fs, paths)) == ImageParts(fs, encode, paths)
  {
    if paths != [] {
      var init, last := paths[..|paths| - 1], paths[|paths| - 1];
      MissingPathsSkipped(fs, encode, init);
      if last in fs {
        var existing := ExistingPaths(fs, paths);
        assert existing == ExistingPaths(fs, init) + [last];
        assert existing[..|existing| - 1] == ExistingPaths(fs, init);
        assert existing[|existing| - 1] == last;
      } else {
        assert ExistingPaths(fs, paths) == ExistingPaths(fs, init);
      }
    }
  }

  /** With no existing path, and in particular for the default empty argument, the request
      carries the prompt alone. */
  lemma PromptOnly(fs: FileSystem, encode: seq<bv8> -> string, paths: seq<string>)
    requires forall i :: 0 <= i < |paths| ==> paths[i] !in fs
    ensures ImageParts(fs, encode, paths) == Success([])
    ensures BuildRequest(ImageParts(fs, encode, paths).value)
      == Request(ModelName, [Content(UserRole, [Text(QuizPrompt)])])
  {
    FilterNone(ExistsOn(fs), paths);
    ImagePartsShape(fs, encode, paths);
    assert [Text(QuizPrompt)] + [] == [Text(QuizPrompt)];
  }

  /** The request sent: one user content whose parts open with the prompt, followed by one
      PNG part per existing path in input order. */
  lemma RequestShape(fs: FileSystem, encode: seq<bv8> -> string, paths: seq<string>)
    requires forall i :: 0 <= i < |paths| ==> !Unreadable(fs, paths[i])
    ensures ImageParts(fs, encode, paths).Success?
    ensures var request := BuildRequest(ImageParts(fs, encode, paths).value);
      request.model == ModelName && |request.contents| == 1 &&
      request.contents[0].role == UserRole &&
      |request.contents[0].parts| == 1 + |ExistingPaths(fs, paths)| &&
      request.contents[0].parts[0] == Text(QuizPrompt) &&
      forall i :: 1 <= i < |request.contents[0].parts| ==>
        request.contents[0].parts[i].InlineData? &&
        request.contents[0].parts[i].mimeType == PngMimeType
  {
    ImagePartsShape(fs, encode, paths);
  }

  /** The outcome is the model's text, the first read error, or the model's own error; the
      model's error is never swallowed. */
  lemma OutcomePropagates(fs: FileSystem, encode: seq<bv8> -> string,
                          generate: Request -> Result<string, string>, paths: seq<string>)
    requires forall i :: 0 <= i < |paths| ==> !Unreadable(fs, paths[i])
    ensures ImageParts(fs, encode, paths).Success?
    ensures var outcome := QuizOutcome(fs, encode, generate, paths);
      var reply := generate(BuildRequest(ImageParts(fs, encode, paths).value));
      (outcome.Success? <==> reply.Success?) &&
      (reply.Success? ==> outcome.value == reply.value) &&
      (reply.Failure? ==> outcome.error == GenerationFailed(reply.error))
  {
    ImagePartsShape(fs, encode, paths);
  }
}
