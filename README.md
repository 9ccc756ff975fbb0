# stupidizer: page-image ordering and quiz request assembly, in Dafny

stupidizer turns an uploaded PDF into a multiple-choice quiz. The PDF is rasterised into
one PNG per page, and the page images are sent to a Gemini model together with a fixed
prompt. Two pieces of `index.js` hold the repository's own logic, and this project models
both of them and proves what they promise.

- `convertPdfPagesToImages` (module `PageImages`, with `PageKey` and `PageSort`).
  - After pdf-poppler has written `page-<n>.png` files into `temp_images` next to the module,
    the function lists that directory and keeps the `page-*.png` entries.
  - It sorts them in place by the number in the first run of decimal digits of each name.
    The sort key is `parseInt(name.match(/\d+/)[0])`, and the comparator subtracts the two
    keys, so the order is numeric: `page-9.png`
    comes before `page-10.png`, and leading zeros are ignored.
  - It then pushes `path.join(tempDir, name)` for each sorted name.
  - Every error turns into the empty list. This includes the comparator throwing on a name
    that holds no digit.
- `generateQuizQuestions` (module `QuizGenerator`).
  - It starts the part list with the prompt text.
  - It pushes one base64 `image/png` inline part for each input path that exists, in input
    order.
  - It sends a single `user` content to `gemini-2.0-flash` and returns the reply text.
  - A failure is rethrown, whether the file read or the model call failed.

Both functions are imperative in the source, and the model keeps them imperative.
- `PageSort.SortInPlace` is an in-place insertion sort over an `array<string>`. It is proved
  to produce `PageSort.SortByPage`, a stable sort by page number. It reports failure exactly
  when the JavaScript comparator would have thrown.
- The `forEach` and `for` push loops are methods with loop invariants. Each ties the
  accumulated list to a specification function.
- The properties are lemmas about those specification functions.

Modules:
- `Wrappers`: `Option` and `Result`.
- `Filtering`: `Array.prototype.filter`.
- `PageKey`: the digit-run key.
- `PageSort`: the comparator, the sort and its proofs.
- `PageImages`: `convertPdfPagesToImages`.
- `QuizGenerator`: `generateQuizQuestions`.

Two consequences of the code are worth stating plainly:
- The function returns every `page-*.png` in the directory, including images left over
  from an earlier document (index.js:27, 47-48). The result therefore need not hold exactly
  one path per page of the current PDF.
- It also returns the empty list when the sort throws, not only when conversion fails.

External inputs become parameters:
- The directory listing after conversion is an `Option<seq<string>>`. `None` means that
  `convert` or `readdirSync` threw.
- The directory of the module (`__dirname`) is a string.
- The filesystem seen by the quiz generator is a `map` from path to file bytes or directory.
- The base64 encoder is a function of the bytes.
- The model call is a function from the request to a text or an error message.

## Model

| member | source | states |
|---|---|---|
| PageKey.DigitRunLength | index.js:52-53 | the length returned is that of the greedy `\d+` run at the start of the name: everything before it is a digit, the character after it is not |
| PageKey.DecimalValue | index.js:52-53 | the number `parseInt` reads from a string of ASCII digits, most significant digit first (characterised by LeadingZeros and DecimalRoundTrip) |
| PageKey.FirstDigitRun | index.js:52-53 | the sort key of a name: the value of the leftmost, longest ASCII digit run, None when `match` is null and indexing it throws (characterised by FirstDigitRunNone and FirstDigitRunMatch) |
| PageKey.FirstDigitRunNone | index.js:52-53 | the regex match is null (the key is None, the comparator throws) exactly when the name contains no ASCII digit |
| PageKey.FirstDigitRunMatch | index.js:52-53 | for a maximal digit run with no digit before it, the key is the decimal value of that run (leftmost, longest match, read by parseInt) |
| PageKey.LeadingZeros | index.js:52-53 | parseInt ignores any number of leading zeros in the matched digits |
| PageKey.DecimalRoundTrip | index.js:52-53 | reading back the decimal digits of a page number gives that number |
| PageSort.Insert | index.js:51-55 | inserting one name into a sorted list lengthens it by one |
| PageSort.Comparable | index.js:51-55 | the condition under which the sort never throws: fewer than two names, or every name has a page number (used by SortInPlace and ComparableIffDigits) |
| PageSort.PageLe | index.js:51-55 | the comparator `numA - numB` is at most zero: both names have a page number and the first number is not larger (used by SortedByPage and InsertPosition) |
| PageSort.SortByPage | index.js:51-55 | the stable sort by page number keeps the number of names |
| PageSort.InsertPermutes | index.js:51-55 | insertion neither adds nor drops a name (multiset of the result = multiset of the input plus the name) |
| PageSort.SortByPagePermutes | index.js:51-55 | the sorted list is a permutation of the input names |
| PageSort.SortByPageNumbered | index.js:51-55 | sorting a list whose names all have page numbers gives a list whose names all have page numbers |
| PageSort.InsertSorted | index.js:51-55 | inserting a numbered name into a list sorted by page number leaves it sorted |
| PageSort.SortByPageSorted | index.js:51-55 | the sorted list ascends by page number whenever the comparator does not throw |
| PageSort.StrictNumbered | index.js:51-55 | in a strictly increasing arrangement of two or more names every name has a page number |
| PageSort.NumberedPermutation | index.js:51-55 | rearranging names that all have page numbers keeps them all numbered |
| PageSort.SortedUnique | index.js:51-55 | two arrangements of the same names that are both sorted by page number, one of them with strictly increasing numbers, are equal |
| PageSort.SameLast | index.js:51-55 | such arrangements end with the same name |
| PageSort.InsertStable | index.js:51-55 | inserting does not reorder names that share a page number |
| PageSort.SortByPageStable | index.js:51-55 | names with equal page number keep their listing order (the JavaScript sort is stable) |
| PageSort.InsertPosition | index.js:51-55 | the insertion place is after every name that may precede the new one and before the rest |
| PageSort.UnnumberedSurvives | index.js:51-55 | when the sorted prefix followed by the next name holds a name without page number, so does the whole input |
| PageSort.SortAborts | index.js:51-71 | when inserting the next name throws, the array still holds exactly the input's names and the input as a whole is not comparable |
| PageSort.ShortSorted | index.js:51-55 | fewer than two names are sorted as they stand, and the comparator is never called |
| PageSort.SortComplete | index.js:51-55 | once every name is inserted, the array holds the sort of the whole input, a permutation of it |
| PageSort.SortStep | index.js:51-55 | after the first i names are sorted and names i-1 and i are comparable, the first i+1 names can be sorted, and their sort is the insertion of name i |
| PageSort.SortInPlace | index.js:51-55 | the array is permuted in place; it succeeds exactly when the comparator never throws, and then holds the stable sort by page number |
| PageSort.InsertAt | index.js:51-55 | one insertion step: fails, leaving the array unchanged, exactly when the sorted prefix and the new name are not all numbered; otherwise the array holds the insertion of the new name followed by the untouched rest |
| PageSort.Sink | index.js:51-55 | moves the new name left past every name that may not precede it, yielding the insertion |
| Filtering.Filter | index.js:48 | the filtered list is no longer than the input |
| Filtering.FilterAppend | index.js:48 | filtering a concatenation filters each part, in order |
| Filtering.FilterCount | index.js:48 | a kept element occurs as often as in the input, a dropped one not at all |
| Filtering.FilterMember | index.js:48 | an element is in the result exactly when it is in the input and kept |
| Filtering.FilterKeeps | index.js:48 | every element of the result passes the filter |
| Filtering.FilterNone | index.js:91-92 | when nothing passes, the result is empty |
| Filtering.FilterAll | index.js:48 | when everything passes, the result is the input |
| PageImages.JoinPathBaseName | index.js:59 | the file name can be read back from the joined path, which lies directly under the directory |
| PageImages.JoinPathInjective | index.js:59 | distinct file names give distinct paths |
| PageImages.IsPageImageName | index.js:48 | the filter callback: the name starts with `page-` and ends with `.png` |
| PageImages.PageFiles | index.js:48 | the names the filter keeps, in listing order (characterised by PageFilesCount) |
| PageImages.JoinPath | index.js:59 | `path.join(dir, name)` for a plain file name: the directory, one separator, the name (characterised by JoinPathBaseName and JoinPathInjective) |
| PageImages.TempDir | index.js:27 | `path.join(__dirname, 'temp_images')` |
| PageImages.PagePaths | index.js:58-60 | one path per name |
| PageImages.PagePathsAt | index.js:58-60 | the i-th path is the i-th name joined onto the directory |
| PageImages.PagePathsCount | index.js:58-60 | a path occurs as often as its name |
| PageImages.JoinAll | index.js:58-60 | the push loop yields the joined path of every array element, in array order |
| PageImages.ConvertPdfPagesToImages | index.js:21-73 | the result is the empty list when the conversion fails or the sort throws, and otherwise the joined paths of the page images in stable page-number order |
| PageImages.ConvertedImages | index.js:21-73 | what the function returns: `[]` when conversion or listing threw or the sort throws, otherwise the joined paths of the `page-*.png` entries sorted by page number (characterised by ConversionFallsBack, ConvertedImagesFromListing, ConvertedImagesPermutes and ConvertedImagesSorted) |
| PageImages.PageFilesCount | index.js:47-48 | the filter keeps each `page-*.png` entry as often as listed and drops every other entry |
| PageImages.ComparableIffDigits | index.js:51-55 | the sort completes exactly when there are fewer than two page images or each holds a digit |
| PageImages.ConversionFallsBack | index.js:44-71 | the empty list comes back exactly when the conversion failed, no entry is a page image, or two or more page images exist and one has no digit |
| PageImages.ConvertedImagesFromListing | index.js:27-60 | after a completed sort there is one path per page image entry; each lies in the temp directory and names a `page-*.png` entry of the listing |
| PageImages.ConvertedImagesPermutes | index.js:47-60 | each listed entry contributes its path as often as listed if it is a page image, and never otherwise |
| PageImages.ConvertedImagesSorted | index.js:51-60 | the file names of the returned paths ascend by page number |
| PageImages.PopplerName | index.js:33-38 | a rasteriser output name passes the `page-*.png` filter |
| PageImages.PopplerNameKey | index.js:52-53 | the sort key of a rasteriser output name is its page number, whatever its zero padding |
| PageImages.PageOrderRestored | index.js:47-60 | whatever order the directory lists them in, page images with strictly increasing page numbers come back in that order |
| PageImages.NumericOrder | index.js:51-55 | `page-10.png` listed before `page-9.png` comes back after it, and a non-page entry is dropped |
| PageImages.PagesAroundOther | index.js:48 | an entry that is not a page image is dropped from between two that are |
| PageImages.ReorderedPair | index.js:51-60 | two page images listed in the wrong order come back swapped |
| QuizGenerator.GenerateQuizQuestions | index.js:76-114 | the outcome is the first read error, or the model's reply to the request holding the prompt and one part per existing path, with the model's error rethrown |
| QuizGenerator.QuizPrompt | index.js:83-87 | the prompt text, character for character, line breaks and indentation of the template literal included |
| QuizGenerator.ImageParts | index.js:91-101 | the parts the loop pushes, one per existing path in input order, or the read error of the first existing path that is not a file (characterised by ImagePartsShape, FirstUnreadableFails, FailureSticks and MissingPathsSkipped) |
| QuizGenerator.BuildRequest | index.js:104-106 | the single `user` content holding the prompt followed by the image parts, sent to `gemini-2.0-flash` (characterised by RequestShape and PromptOnly) |
| QuizGenerator.QuizOutcome | index.js:76-114 | what the function resolves to or rethrows: the first read error, otherwise the model's text or its error as `GenerationFailed` (characterised by OutcomePropagates) |
| QuizGenerator.FailureSticks | index.js:91-101 | once a read has failed, later paths change nothing |
| QuizGenerator.ImagePartsShape | index.js:91-101 | without unreadable paths, there is exactly one `image/png` part per existing path, in input order, holding that file's encoded bytes |
| QuizGenerator.FirstUnreadableFails | index.js:92-113 | the error raised is the read error of the first existing path that is not a readable file |
| QuizGenerator.MissingPathsSkipped | index.js:92 | paths that do not exist change neither the parts nor the error |
| QuizGenerator.PromptOnly | index.js:76-88 | with no existing path, as for the default empty argument, the request carries the prompt alone |
| QuizGenerator.RequestShape | index.js:79-106 | the request names the model, has one `user` content, opens with the prompt and continues with one PNG inline part per existing path |
| QuizGenerator.OutcomePropagates | index.js:104-113 | the model's text is returned when the call succeeds, and its error is passed on, never swallowed, when it fails |

## Left out

- The pdf-poppler `convert` call is not modelled as a step of its own. It is represented only
  by the listing it leaves behind, or by `None` when it throws (index.js:33-44).
- The order in which `readdirSync` lists entries is not fixed; it is an input.
  `PageOrderRestored` shows that it does not matter for pages with distinct numbers.
- Creating the temp directory (`existsSync`/`mkdirSync`) is left out. Failures there are
  covered by the same empty-list fallback as the listing.
- `path.join` is modelled for a plain file name only: the directory, one `/`, and the
  name. Normalisation of `.`, `..` and repeated separators is not modelled.
- PageImages.ConvertPdfPagesToImages: parseInt is modelled on unbounded naturals. Digit runs
  above 2^53 lose precision in JavaScript, and runs of more than about 308 digits parse as
  Infinity, where `Infinity - Infinity` is NaN. Neither is modelled.
- PageSort.SortInPlace: the engine's sort is replaced by a stable insertion sort.
  - The two give the same result, because the JavaScript sort is stable and a stable sort
    by a total preorder is unique.
  - They fail under the same condition: a comparison sort of two or more elements compares
    every element.
  - Which pair is compared first is not modelled.
- Base64 encoding (`Buffer.toString('base64')`) is an opaque function parameter.
- The Gemini SDK is an opaque function parameter: client construction, `getGenerativeModel`
  and `response.text()`. A failure of `getGenerativeModel` itself is not modelled.
- `readFileSync` errors other than reading a directory are not modelled separately. Such an
  error would take the same rethrow path as `ReadFailed`.
- Console logging is not modelled.
- The CLI `main`, dotenv and the API key are not modelled.
- server.js, netlify/functions/process-pdf.js and index-cjs.js are not part of this model:
  they are HTTP wiring and a one-element wrapper.
- The shared temp directory under concurrent requests is not modelled.
