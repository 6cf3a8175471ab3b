# Video frame extraction and reassembly

This project models the ingestion pipeline of the image editor's root component, `AppComponent`. The component takes a batch of uploaded files and splits it into still images and videos. Each video becomes a pending job with capture interval 1. The jobs are edited in a configuration modal: a job can be removed, and the modal can be cancelled or confirmed. On confirm, all videos and their intervals go to the frame-extraction service in one request. The service answers with a ZIP archive of PNG frames. Every file entry of that archive is decoded, and its name `<index>-frame-<frame>.png` gives the key it is sorted by. The sorted frames are appended after the uploaded images, and the whole list goes to the image service.

Modules, one per concern of `src/app/app.component.ts`:

- `Results`: the `Option` and `Result` types.
- `Media`: files, blobs, video jobs, and the `video/` type test.
- `FrameNames`: the entry-name pattern `/(\d+)-frame-(\d+)\.png$/` with `parseInt`, the naming convention the service follows, and the sort comparator.
- `FrameSort`: the stable sort of `Array.prototype.sort` (section 22.1.3.27 of ECMA-262, 2019 edition), driven by that comparator.
- `ZipFrames`: `extractImagesFromZip`, from a loaded archive to the ordered frame files.
- `App`: the classification of an upload, and the class `AppComponent` with the component's fields and its modal handlers.

Parsing follows the regular expression exactly. A name parses when it ends in `<digits>-frame-<digits>.png`. The first group is the whole run of digits before `-frame-`, because the engine reports the leftmost match. Every other name gets the key (-1, -1). `ParseUnorderedIff` and `ParseFound` prove this against a declarative statement of the match (`FrameNameMatch`, `LeftmostMatch`).

The sort is modelled as an insertion sort with the same comparator. `SortByKeyUnique` proves that a stable sort with this comparator has exactly one possible result. So the model's result is the result of any conforming `sort`.

## Model

| member | source | states |
|---|---|---|
| FrameNames.ParseEntryName | src/app/app.component.ts:186-188 | The key is either (-1, -1) or two non-negative numbers. |
| FrameNames.ParseMatch | src/app/app.component.ts:186-188 | A name the pattern matches never gets (-1, -1). When the match's prefix does not end in a digit (the leftmost match), the key is the decimal value of the two groups. |
| FrameNames.ParseFound | src/app/app.component.ts:186-188 | A name that gets a real key holds a leftmost match whose two groups read as that key. |
| FrameNames.ParseUnorderedIff | src/app/app.component.ts:186-188 | A name gets (-1, -1) if and only if the pattern does not match it. |
| FrameNames.LeftmostMatch | src/app/app.component.ts:186 | All matches of the pattern in one name share the second group. The match whose prefix does not end in a digit is the leftmost one, and its first group is the longest. |
| FrameNames.FrameNameRoundTrip | src/app/app.component.ts:186-188 | A name built by the service's convention, `<index>-frame-<frame>.png` under any prefix that does not end in a digit, parses back to (index, frame). |
| FrameNames.DecimalValue | src/app/app.component.ts:187-188 | `parseInt(group, 10)` of a digit group; DecimalRoundTrip and LeadingZeroIgnored state its value. |
| FrameNames.DecimalRoundTrip | src/app/app.component.ts:187-188 | `parseInt` of the decimal rendering of a number gives that number. |
| FrameNames.LeadingZeroIgnored | src/app/app.component.ts:187-188 | Zero padding of a group does not change the number it is read as. |
| FrameNames.TrailingDigits | src/app/app.component.ts:186 | The trailing digit run that the greedy `\d+` captures is all digits, and the character before it is not a digit. |
| FrameNames.TrailingDigitsOf | src/app/app.component.ts:186 | Appending digits to a string lengthens its trailing digit run by exactly that many. |
| FrameNames.Compare | src/app/app.component.ts:209-214 | The comparator's sign is the lexicographic order on (index, frame number): negative, zero and positive in exactly the right cases. So it is a consistent comparator. |
| FrameNames.UnorderedIsLeast | src/app/app.component.ts:187-188 | The key (-1, -1) sorts before the key of every name that parses. |
| FrameSort.SortByKey | src/app/app.component.ts:209-214 | The array `sort` leaves; SortByKeySortedPermutation, SortByKeyStable and SortByKeyUnique state that it is the one sorted, stable permutation of the input. |
| FrameSort.SortByKeySortedPermutation | src/app/app.component.ts:209-214 | The sort's result is ascending by key and is a permutation of its input. |
| FrameSort.SortByKeyStable | src/app/app.component.ts:209-214 | For every key, the elements with that key keep their input order. |
| FrameSort.SortByKeyUnique | src/app/app.component.ts:209-214 | Any sorted sequence that keeps each key's elements in input order equals the sort's result. |
| FrameSort.SortByKeyOrderIndependent | src/app/app.component.ts:209-214 | When no two elements share a key, permuting the input does not change the result. |
| FrameSort.InsertSorted | src/app/app.component.ts:209-214 | Inserting into a sorted sequence keeps it sorted. |
| FrameSort.InsertPermutation | src/app/app.component.ts:209-214 | Inserting adds exactly the one element. |
| FrameSort.InsertWithKey | src/app/app.component.ts:209-214 | Inserting puts the element before every element with an equal key. |
| ZipFrames.FirstFailure | src/app/app.component.ts:172-199 | The `Promise.all` over the entries rejects if and only if some file entry fails to decode. It reports the first failure in decode order; directory entries are never decoded. |
| ZipFrames.ExtractImagesFromZip | src/app/app.component.ts:162-229 | The loop pushes one record per decoded file entry, then the records are sorted and mapped to their files. The result is `Reassemble`'s. |
| ZipFrames.Reassemble | src/app/app.component.ts:162-229 | What `extractImagesFromZip` resolves or rejects with; ReassembleFailure, ReassemblePermutation, ReassembleSorted, ReassembleStable, ReassembleUnorderedFirst and ReassembleOrderIndependent state its properties. |
| ZipFrames.FilesOf | src/app/app.component.ts:224 | The map from records to files; FilesOfSortByKey and FilesOfWithKey state what it keeps. |
| ZipFrames.ReassembleFailure | src/app/app.component.ts:165-199 | Extraction fails if and only if the archive does not load or some file entry does not decode. |
| ZipFrames.ReassemblePermutation | src/app/app.component.ts:177-224 | On success, the output holds every decoded file entry exactly once and nothing else; directories are excluded. |
| ZipFrames.ReassembleSorted | src/app/app.component.ts:186-224 | On success, the output is ascending by the key each file's name parses to. |
| ZipFrames.ReassembleStable | src/app/app.component.ts:196-224 | On success, files whose names give the same key, including all unparsable names, keep their push order. |
| ZipFrames.ReassembleUnorderedFirst | src/app/app.component.ts:186-224 | On success, files with unparsable names come before every file whose name parses. |
| ZipFrames.ReassembleOrderIndependent | src/app/app.component.ts:172-224 | When no two decoded names share a key, the output depends neither on the entry order nor on the decode completion order. |
| ZipFrames.SortedRecords | src/app/app.component.ts:196-224 | The pushed records' files are the decoded files in entry order. Every record carries its name's key, and the sorted records' files are ascending by that key. |
| ZipFrames.PushedPermutation | src/app/app.component.ts:172-196 | Decodes that finish in another order push the same records in another order. |
| ZipFrames.PushedAppend | src/app/app.component.ts:173-196 | The records pushed for two runs of entries are the first run's records followed by the second's. |
| ZipFrames.FilesOfWithKey | src/app/app.component.ts:224 | Mapping records to files and then selecting a key's files equals selecting that key's records and then mapping. |
| ZipFrames.FilesOfSortByKey | src/app/app.component.ts:209-224 | Sorting does not change which files the map returns. |
| App.ClassificationPartition | src/app/app.component.ts:67-79 | Every uploaded file lands in exactly one of the two lists, with its multiplicity. |
| App.ImagesAreNonVideos | src/app/app.component.ts:71-78 | The images are exactly the uploaded files whose type does not start with `video/`. |
| App.JobsAreVideos | src/app/app.component.ts:71-75 | The jobs are exactly the uploaded videos, each with capture interval 1. |
| App.ClassifyConcat | src/app/app.component.ts:69-79 | Classifying a batch in two parts gives the parts' lists one after the other, so both lists keep upload order. |
| App.RequestPairsJobs | src/app/app.component.ts:136-137 | The request holds one file and one interval per job, in job order: pairing the i-th file with the i-th interval gives back the i-th job. |
| App.JobFilesAppend | src/app/app.component.ts:136 | The files of two runs of jobs are the first run's files followed by the second's. |
| App.SpliceStart | src/app/app.component.ts:98 | The start position `splice` computes always lies within the array. |
| App.SpliceOne | src/app/app.component.ts:98 | `splice(i, 1)` removes the element at i when 0 <= i < length, and the element at length + i for a negative i in range. A start below -length removes the first element, and a start at or past the end removes nothing. The length drops by one exactly when an element is removed, and no element is added. |
| App.ExtractionResolves | src/app/app.component.ts:134-159 | The promise resolves if and only if the service sends an archive that loads and whose file entries all decode. Its frames are then the decoded files, each once, ascending by key. |
| App.AppComponent.ExtractFrames | src/app/app.component.ts:134-159 | The method runs the extraction step by step, sending the files and intervals built as RequestPairsJobs states and calling the ExtractImagesFromZip loop. Its result is the settlement `Extraction` specifies: an API error rejects the promise, an archive resolves or rejects as the reassembly does, and completion without a value leaves the promise pending. |
| App.Extraction | src/app/app.component.ts:134-159 | The settlement of `extractFrames` as a function of the jobs and the service; ExtractionResolves states when it resolves and what the frames then are. |
| App.ImagesOf | src/app/app.component.ts:67-79 | The image list the loop builds; ImagesAreNonVideos, ClassificationPartition and ClassifyConcat state its contents and order. |
| App.VideoJobsOf | src/app/app.component.ts:67-79 | The job list the loop builds; JobsAreVideos, ClassificationPartition and ClassifyConcat state its contents, intervals and order. |
| App.AppComponent.constructor | src/app/app.component.ts:25-30 | The component starts with the modal hidden, all lists empty and no call to the image service. |
| App.AppComponent.HandleFilesUploaded | src/app/app.component.ts:63-88 | Both lists are rebuilt from the new batch alone, in upload order, and every job is a video. With a video, the modal opens and the image service is not called. Without one, the images go to the image service and the modal is left as it was. |
| App.AppComponent.ShowModal | src/app/app.component.ts:92-94 | Only the modal flag changes, to shown. |
| App.AppComponent.RemoveFile | src/app/app.component.ts:97-103 | The jobs become `splice(i, 1)` of the old jobs, and every job is still a video. The modal closes when no job and no image remains; otherwise it keeps its state. Nothing else changes. |
| App.AppComponent.Cancel | src/app/app.component.ts:106-108 | Only the modal flag changes, to hidden: no image reaches the image service. |
| App.AppComponent.Confirm | src/app/app.component.ts:111-131 | The modal always closes and the jobs are kept. When the extraction resolves, its frames are appended after the images and the whole list goes to the image service once. When it rejects or stays pending, the images and the image service calls are unchanged. |

## Left out

- `src/app/service/propertierstool.service.ts` is not part of this model: it holds the label, colour and thickness of the drawing tools, which the pipeline does not use.
- The event emitters and their handlers (`src/app/app.component.ts:17-20`, `46-61`), `ngOnInit` and `showSpinner` (lines 24, 40-44), and the spinner calls of `confirm` (lines 113 and 129) are presentation wiring, and no modelled state depends on them.
- `apiService.processVideo` is an HTTP call. It is a parameter of `Confirm`, reduced to one notification: an archive, an error, or completion without a value.
- ExtractFrames: the Observable is reduced to a single notification, and the wait for `extractImagesFromZip` inside the `next` handler (lines 141-152) is taken as one step. The model therefore does not capture an `error` notification that arrives while the archive is being reassembled and rejects the promise first (lines 153-156). Nor does it capture two `next` notifications, where the reassembly that finishes first settles the promise.
- Confirm: the `await` at line 117 is taken as one step, so no other handler runs between the call to `extractFrames` and the reads of `imageToService` at lines 123 and 125. The model therefore does not capture an upload (`handleFilesUploaded`, lines 63-88) during the extraction. In the code, that upload replaces `imageToService`, and the old batch's frames are then pushed onto the new batch's images and sent with them.
- `JSZip.loadAsync` and `zipEntry.async('blob')` are given as their outcomes: the `Archive` value and each entry's optional `Blob`. The `File` constructor is a record of the name, the blob's type and its bytes.
- The decodes that `Promise.all` runs concurrently are modelled by their completion order. The entries are listed in the order their decodes finish, which is the order they are pushed. Every ordering is covered, because each lemma quantifies over all entry sequences.
- `parseInt` is read as an unbounded natural. Numbers that do not fit a double (above 2^53) are not rounded.
- `console.log` and `console.error` are left out.
- Confirm: `addImages` receives the `imageToService` array itself. The model records a copy of its contents at the time of the call, so a later change to the array made through the image service is not reflected.
- App.SpliceOne: `splice` truncates a fractional start toward zero. The model takes integer starts only.
- Capture intervals stay at their default 1 here. Editing them happens in the configuration UI, which is not part of this model.
- `frameRate` (line 26) is never read by the pipeline.
- `push(...frames)` has an engine-dependent limit on the number of spread arguments. The model appends any number of frames.
- `FrameNames.DigitValue` is total and gives 0 for a non-digit character. The parse applies it to digits only.

Where the code does something other than what one would expect of such a pipeline, the model follows the code:

- One would expect Cancel to discard the videos and pass the images already collected on to the image service. The code only hides the modal, so those images are never added.
- One would expect an upload without videos to close the modal. The code calls the image service and leaves the modal flag as it was.
- One would expect Confirm with every job removed to skip the extraction service. The code still calls it, with two empty lists.
- One would expect the frame order to be fixed by the archive. For frames that share a key, including every unparsable name, the order is their decode completion order.
- One would expect Confirm to clear the pending jobs. The code keeps them until a later upload replaces them.
