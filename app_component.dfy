/** `AppComponent`: the upload classification, the editing of the pending
    videos in the configuration modal, and the merge of the frames the
    extraction service returns with the directly uploaded images. */
module App {
  import opened Results
  import opened Media
  import opened FrameNames
  import opened FrameSort
  import opened ZipFrames

  /** The uploaded files that are not videos, in upload order. */
  function ImagesOf(files: seq<File>): seq<File> {
    if files == [] then []
    else
      var f := files[|files| - 1];
      ImagesOf(files[..|files| - 1]) + (if IsVideo(f) then [] else [f])
  }

  /** One job with the default capture interval 1 per uploaded video, in upload order. */
  function VideoJobsOf(files: seq<File>): seq<VideoJob> {
    if files == [] then []
    else
      var f := files[|files| - 1];
      VideoJobsOf(files[..|files| - 1]) + (if IsVideo(f) then [VideoJob(f, 1.0)] else [])
  }

  /** `videoFilesWithSettings.map(videoFile => videoFile.file)`. */
  function JobFiles(jobs: seq<VideoJob>): seq<File> {
    seq(|jobs|, i requires 0 <= i < |jobs| => jobs[i].file)
  }

  /** `videoFilesWithSettings.map(videoFile => videoFile.captureInterval)`. */
  function JobIntervals(jobs: seq<VideoJob>): seq<real> {
    seq(|jobs|, i requires 0 <= i < |jobs| => jobs[i].captureInterval)
  }

  /** The request carries one file and one interval per job, in job order:
      pairing the i-th file with the i-th interval gives back the i-th job. */
  lemma {:induction false} RequestPairsJobs(jobs: seq<VideoJob>)
    ensures |JobFiles(jobs)| == |jobs|
    ensures |JobIntervals(jobs)| == |jobs|
    ensures forall i :: 0 <= i < |jobs| ==> VideoJob(JobFiles(jobs)[i], JobIntervals(jobs)[i]) == jobs[i]
  {
  }

  lemma {:induction false} JobFilesAppend(jobs: seq<VideoJob>, more: seq<VideoJob>)
    ensures JobFiles(jobs + more) == JobFiles(jobs) + JobFiles(more)
  {
  }

  /** Every uploaded file lands in exactly one of the two lists. */
  lemma {:induction false} ClassificationPartition(files: seq<File>)
    ensures multiset(files) == multiset(ImagesOf(files)) + multiset(JobFiles(VideoJobsOf(files)))
  {
    if files != [] {
      var init, f := files[..|files| - 1], files[|files| - 1];
      ClassificationPartition(init);
      assert files == init + [f];
      JobFilesAppend(VideoJobsOf(init), if IsVideo(f) then [VideoJob(f, 1.0)] else []);
    }
  }

  /** The images are exactly the uploaded files whose type does not start with `video/`. */
  lemma {:induction false} ImagesAreNonVideos(files: seq<File>)
    ensures forall f :: f in ImagesOf(files) <==> f in files && !IsVideo(f)
  {
    if files != [] {
      var init := files[..|files| - 1];
      ImagesAreNonVideos(init);
      assert files == init + [files[|files| - 1]];
    }
  }

  /** The jobs are exactly the uploaded videos, each with capture interval 1. */
  lemma {:induction false} JobsAreVideos(files: seq<File>)
    ensures forall j :: j in VideoJobsOf(files) <==> j.file in files && IsVideo(j.file) && j.captureInterval == 1.0
  {
    if files != [] {
      var init := files[..|files| - 1];
      JobsAreVideos(init);
      assert files == init + [files[|files| - 1]];
    }
  }

  /** Classifying a batch in two parts gives the two parts' lists one after
      the other: both lists keep upload order. */
  lemma {:induction false} ClassifyConcat(a: seq<File>, b: seq<File>)
    ensures ImagesOf(a + b) == ImagesOf(a) + ImagesOf(b)
    ensures VideoJobsOf(a + b) == VideoJobsOf(a) + VideoJobsOf(b)
  {
    if b == [] {
      assert a + b == a;
    } else {
      var init, f := b[..|b| - 1], b[|b| - 1];
      assert (a + b)[..|a + b| - 1] == a + init;
      ClassifyConcat(a, init);
    }
  }

  /** The start position `Array.prototype.splice` computes from its first
      argument: a negative start counts from the end, and the result is
      clamped to the array. */
  function SpliceStart(len: nat, start: int): (k: nat)
    ensures k <= len
  {
    if start < 0 then (if len + start < 0 then 0 else len + start)
    else if start > len then len
    else start
  }

  /** `s.splice(i, 1)`: the array without the one element at the computed
      start, or unchanged when the start is past the end. */
  function SpliceOne<T>(s: seq<T>, i: int): (r: seq<T>)
    ensures 0 <= i < |s| ==> r == s[..i] + s[i + 1..]
    ensures i >= |s| ==> r == s
    ensures -|s| <= i < 0 ==> r == s[..|s| + i] + s[|s| + i + 1..]
    ensures i < -|s| && s != [] ==> r == s[1..]
    ensures |r| == if s == [] || i >= |s| then |s| else |s| - 1
    ensures multiset(r) <= multiset(s)
  {
    var k := SpliceStart(|s|, i);
    if k < |s| then
      assert s == s[..k] + [s[k]] + s[k + 1..];
      s[..k] + s[k + 1..]
    else s
  }

  /** The first notification of `apiService.processVideo(files, frameRates)`:
      a ZIP body that loads as `archive`, an error, or completion without a
      value. */
  datatype ServiceReply = Delivered(archive: Archive) | ApiError | NoReply

  datatype ExtractionError = ServiceFailed | UnzipFailed(cause: ZipError)

  /** How the promise `extractFrames` returns settles; it never settles when
      the service completes without sending anything. */
  datatype Settlement = Resolved(frames: seq<File>) | Rejected(error: ExtractionError) | Pending

  /** The settlement of `extractFrames(jobs)` when the service answers
      `processVideo(files, intervals)`. */
  function Extraction(jobs: seq<VideoJob>, processVideo: (seq<File>, seq<real>) -> ServiceReply): Settlement {
    match processVideo(JobFiles(jobs), JobIntervals(jobs))
    case ApiError => Rejected(ServiceFailed)
    case NoReply => Pending
    case Delivered(archive) =>
      match Reassemble(archive)
      case Success(frames) => Resolved(frames)
      case Failure(e) => Rejected(UnzipFailed(e))
  }

  /** `extractFrames` resolves exactly when the service sends an archive whose
      every file entry decodes; the frames are then those entries' files, each
      once, ascending by the key of their names. */
  lemma {:induction false} ExtractionResolves(jobs: seq<VideoJob>, processVideo: (seq<File>, seq<real>) -> ServiceReply)
    ensures Extraction(jobs, processVideo).Resolved? <==>
      var reply := processVideo(JobFiles(jobs), JobIntervals(jobs));
      reply.Delivered? && reply.archive.Zip? && FirstFailure(reply.archive.entries) == None
    ensures Extraction(jobs, processVideo).Resolved? ==>
      var es := processVideo(JobFiles(jobs), JobIntervals(jobs)).archive.entries;
      var frames := Extraction(jobs, processVideo).frames;
      multiset(frames) == multiset(DecodedFiles(es)) && SortedBy(frames, ParseEntryName)
  {
    var reply := processVideo(JobFiles(jobs), JobIntervals(jobs));
    if reply.Delivered? && reply.archive.Zip? && FirstFailure(reply.archive.entries) == None {
      ReassemblePermutation(reply.archive.entries);
      ReassembleSorted(reply.archive.entries);
    }
  }

  class AppComponent {
    var isModalVisible: bool
    var filesFromHeader: seq<File>
    var videoFilesWithSettings: seq<VideoJob>
    var imageToService: seq<File>
    /** The lists handed to `imageService.addImages`, oldest first, as they
        were when handed over. */
    var addImagesCalls: seq<seq<File>>

    /** Every pending job is a video. */
    ghost predicate Valid()
      reads this
    {
      forall j :: j in videoFilesWithSettings ==> IsVideo(j.file)
    }

    constructor ()
      ensures !isModalVisible
      ensures filesFromHeader == [] && videoFilesWithSettings == [] && imageToService == []
      ensures addImagesCalls == []
      ensures Valid()
    {
      isModalVisible := false;
      filesFromHeader := [];
      videoFilesWithSettings := [];
      imageToService := [];
      addImagesCalls := [];
    }

    /** Both lists are rebuilt from the new batch alone; the modal opens when
        the batch holds a video, and otherwise the images go straight to the
        image service while the modal is left as it was. */
    method HandleFilesUploaded(files: seq<File>)
      modifies this
      ensures filesFromHeader == files
      ensures videoFilesWithSettings == VideoJobsOf(files)
      ensures imageToService == ImagesOf(files)
      ensures isModalVisible == if VideoJobsOf(files) != [] then true else old(isModalVisible)
      ensures addImagesCalls == if VideoJobsOf(files) != [] then old(addImagesCalls)
                                else old(addImagesCalls) + [ImagesOf(files)]
      ensures Valid()
    {
      filesFromHeader := files;
      videoFilesWithSettings := [];
      imageToService := [];
      for i := 0 to |filesFromHeader|
        invariant filesFromHeader == files
        invariant videoFilesWithSettings == VideoJobsOf(files[..i])
        invariant imageToService == ImagesOf(files[..i])
        invariant isModalVisible == old(isModalVisible) && addImagesCalls == old(addImagesCalls)
      {
        var file := filesFromHeader[i];
        assert files[..i + 1][..i] == files[..i];
        if StartsWith(file.mimeType, VIDEO_PREFIX) {
          videoFilesWithSettings := videoFilesWithSettings + [VideoJob(file, 1.0)];
        } else {
          imageToService := imageToService + [file];
        }
      }
      assert files[..|files|] == files;
      JobsAreVideos(files);
      if |videoFilesWithSettings| > 0 {
        ShowModal();
      } else {
        addImagesCalls := addImagesCalls + [imageToService];
      }
    }

    method ShowModal()
      modifies this
      ensures isModalVisible
      ensures filesFromHeader == old(filesFromHeader) && videoFilesWithSettings == old(videoFilesWithSettings)
      ensures imageToService == old(imageToService) && addImagesCalls == old(addImagesCalls)
    {
      isModalVisible := true;
    }

    /** The modal's remove button: `splice(i, 1)` on the pending jobs, and the
        modal closes when no job and no image is left. */
    method RemoveFile(i: int)
      requires Valid()
      modifies this
      ensures videoFilesWithSettings == SpliceOne(old(videoFilesWithSettings), i)
      ensures isModalVisible == if videoFilesWithSettings == [] && imageToService == [] then false
                                else old(isModalVisible)
      ensures filesFromHeader == old(filesFromHeader) && imageToService == old(imageToService)
      ensures addImagesCalls == old(addImagesCalls)
      ensures Valid()
    {
      var before := videoFilesWithSettings;
      videoFilesWithSettings := SpliceOne(videoFilesWithSettings, i);
      forall j | j in videoFilesWithSettings ensures IsVideo(j.file) {
        assert j in multiset(videoFilesWithSettings);
        assert j in multiset(before);
      }
      if |videoFilesWithSettings| == 0 && |imageToService| == 0 {
        isModalVisible := false;
      }
    }

    /** The modal's cancel button only closes the modal. */
    method Cancel()
      modifies this
      ensures !isModalVisible
      ensures filesFromHeader == old(filesFromHeader) && videoFilesWithSettings == old(videoFilesWithSettings)
      ensures imageToService == old(imageToService) && addImagesCalls == old(addImagesCalls)
    {
      isModalVisible := false;
    }

    /** `extractFrames`: sends the jobs' files and intervals, in job order, and
        reassembles the archive of the first reply. */
    method ExtractFrames(jobs: seq<VideoJob>, processVideo: (seq<File>, seq<real>) -> ServiceReply)
      returns (s: Settlement)
      ensures s == Extraction(jobs, processVideo)
    {
      var files := JobFiles(jobs);
      var frameRates := JobIntervals(jobs);
      var reply := processVideo(files, frameRates);
      match reply {
        case ApiError =>
          s := Rejected(ServiceFailed);
        case NoReply =>
          s := Pending;
        case Delivered(archive) =>
          var images := ExtractImagesFromZip(archive);
          match images {
            case Success(frames) => s := Resolved(frames);
            case Failure(e) => s := Rejected(UnzipFailed(e));
          }
      }
    }

    /** The modal's confirm button: the modal closes, and once the frames
        arrive they are appended after the images and the whole list goes to
        the image service; a failed or unanswered extraction adds nothing. */
    method Confirm(processVideo: (seq<File>, seq<real>) -> ServiceReply)
      modifies this
      ensures !isModalVisible
      ensures filesFromHeader == old(filesFromHeader) && videoFilesWithSettings == old(videoFilesWithSettings)
      ensures match Extraction(old(videoFilesWithSettings), processVideo)
        case Resolved(frames) =>
          imageToService == old(imageToService) + frames && addImagesCalls == old(addImagesCalls) + [imageToService]
        case _ =>
          imageToService == old(imageToService) && addImagesCalls == old(addImagesCalls)
    {
      isModalVisible := false;
      var s := ExtractFrames(videoFilesWithSettings, processVideo);
      if s.Resolved? {
        imageToService := imageToService + s.frames;
        addImagesCalls := addImagesCalls + [imageToService];
      }
    }
  }
}
