/** `extractImagesFromZip`: from the loaded archive to the ordered list of
    frame files. The archive's entries are given in the order in which their
    decodes finished, which is the order the decode callbacks push into
    `extractedFiles`; decoding itself happens outside this model. */
module ZipFrames {
  import opened Results
  import opened Media
  import opened FrameNames
  import opened FrameSort

  /** One entry of the loaded archive: its name (the key in `zip.files`), the
      directory flag, and the outcome of `zipEntry.async('blob')`, which is
      `None` when that decode rejects. */
  datatype ArchiveEntry = ArchiveEntry(name: string, dir: bool, content: Option<Blob>)

  /** The outcome of `JSZip.loadAsync` on the service's response. */
  datatype Archive = Unreadable | Zip(entries: seq<ArchiveEntry>)

  datatype ZipError = ArchiveUnreadable | EntryUnreadable(name: string)

  /** A file entry whose decode succeeds. */
  predicate Decodes(e: ArchiveEntry) {
    !e.dir && e.content.Some?
  }

  /** A file entry whose decode rejects; directory entries are never decoded. */
  predicate Fails(e: ArchiveEntry) {
    !e.dir && e.content.None?
  }

  /** `new File([fileData], zipEntry.name, { type: fileData.type })`. */
  function FileOf(e: ArchiveEntry): File
    requires e.content.Some?
  {
    File(e.name, e.content.value.mimeType, e.content.value.bytes)
  }

  /** The name of the first file entry whose decode rejects: the rejection
      that `Promise.all` reports. */
  function FirstFailure(es: seq<ArchiveEntry>): (r: Option<string>)
    ensures r == None <==> forall i :: 0 <= i < |es| ==> !Fails(es[i])
    ensures r != None ==> exists i :: 0 <= i < |es| && Fails(es[i]) && es[i].name == r.value &&
                                      forall j :: 0 <= j < i ==> !Fails(es[j])
  {
    if es == [] then None
    else if Fails(es[0]) then Some(es[0].name)
    else
      var r := FirstFailure(es[1..]);
      assert forall j :: 0 <= j < |es[1..]| ==> es[1..][j] == es[j + 1];
      r
  }

  /** The file of every entry that decodes, in entry order. */
  function DecodedFiles(es: seq<ArchiveEntry>): seq<File> {
    if es == [] then []
    else (if Decodes(es[0]) then [FileOf(es[0])] else []) + DecodedFiles(es[1..])
  }

  /** The records the decode callbacks push, in push order: one per decoded
      file entry, keyed by `parse` of the entry's name. */
  function Pushed(es: seq<ArchiveEntry>, parse: string -> FrameKey): seq<Extracted> {
    if es == [] then []
    else (if Decodes(es[0]) then [Extracted(parse(es[0].name), FileOf(es[0]))] else []) + Pushed(es[1..], parse)
  }

  /** `extractedFiles.map(item => item.file)`. */
  function FilesOf(s: seq<Extracted>): seq<File> {
    seq(|s|, i requires 0 <= i < |s| => s[i].file)
  }

  /** What `extractImagesFromZip` resolves with, or the error it rejects with. */
  function Reassemble(archive: Archive): Result<seq<File>, ZipError> {
    match archive
    case Unreadable => Failure(ArchiveUnreadable)
    case Zip(es) =>
      match FirstFailure(es)
      case Some(name) => Failure(EntryUnreadable(name))
      case None => Success(FilesOf(SortByKey(Pushed(es, ParseEntryName))))
  }

  /** The loop over the entries pushes one record per decoded file entry, then
      the array is sorted and mapped to its files. */
  method ExtractImagesFromZip(archive: Archive) returns (r: Result<seq<File>, ZipError>)
    ensures r == Reassemble(archive)
  {
    if archive.Unreadable? {
      return Failure(ArchiveUnreadable);
    }
    var entries := archive.entries;
    var extractedFiles: seq<Extracted> := [];
    for i := 0 to |entries|
      invariant FirstFailure(entries[..i]) == None
      invariant extractedFiles == Pushed(entries[..i], ParseEntryName)
    {
      var entry := entries[i];
      assert entries[..i + 1] == entries[..i] + [entry];
      PushedAppend(entries[..i], [entry], ParseEntryName);
      FirstFailureAppend(entries[..i], [entry]);
      if !entry.dir {
        match entry.content {
          case None =>
            assert entries == entries[..i + 1] + entries[i + 1..];
            FirstFailureAppend(entries[..i + 1], entries[i + 1..]);
            return Failure(EntryUnreadable(entry.name));
          case Some(blob) =>
            var file := File(entry.name, blob.mimeType, blob.bytes);
            extractedFiles := extractedFiles + [Extracted(ParseEntryName(entry.name), file)];
        }
      }
    }
    assert entries[..|entries|] == entries;
    extractedFiles := SortByKey(extractedFiles);
    r := Success(FilesOf(extractedFiles));
  }


  lemma {:induction false} PushedAppend(a: seq<ArchiveEntry>, b: seq<ArchiveEntry>, parse: string -> FrameKey)
    ensures Pushed(a + b, parse) == Pushed(a, parse) + Pushed(b, parse)
  {
    if a != [] {
      assert (a + b)[1..] == a[1..] + b;
      PushedAppend(a[1..], b, parse);
    } else {
      assert a + b == b;
    }
  }

  lemma {:induction false} FirstFailureAppend(a: seq<ArchiveEntry>, b: seq<ArchiveEntry>)
    ensures FirstFailure(a + b) == if FirstFailure(a) != None then FirstFailure(a) else FirstFailure(b)
  {
    if a != [] {
      assert (a + b)[1..] == a[1..] + b;
      FirstFailureAppend(a[1..], b);
    } else {
      assert a + b == b;
    }
  }

  /** The pushed records are the decoded files, position by position, each
      keyed by `parse` of its name. */
  lemma {:induction false} PushedAt(es: seq<ArchiveEntry>, parse: string -> FrameKey)
    ensures |Pushed(es, parse)| == |DecodedFiles(es)|
    ensures forall i :: 0 <= i < |Pushed(es, parse)| ==>
      Pushed(es, parse)[i] == Extracted(parse(DecodedFiles(es)[i].name), DecodedFiles(es)[i])
  {
    if es != [] {
      PushedAt(es[1..], parse);
    }
  }

  lemma {:induction false} PushedSplit(a: seq<ArchiveEntry>, e: ArchiveEntry, b: seq<ArchiveEntry>, parse: string -> FrameKey)
    ensures multiset(Pushed(a + ([e] + b), parse)) == multiset(Pushed([e], parse)) + multiset(Pushed(a + b, parse))
  {
    PushedAppend(a, [e] + b, parse);
    PushedAppend([e], b, parse);
    PushedAppend(a, b, parse);
  }

  lemma {:induction false} RemoveAt<T>(s: seq<T>, i: nat)
    requires i < |s|
    ensures s == s[..i] + ([s[i]] + s[i + 1..])
    ensures multiset(s) == multiset{s[i]} + multiset(s[..i] + s[i + 1..])
  {
    assert s == s[..i] + ([s[i]] + s[i + 1..]);
  }

  /** Reordering the entries reorders the pushed records and nothing more. */
  lemma {:induction false} PushedPermutation(es: seq<ArchiveEntry>, fs: seq<ArchiveEntry>, parse: string -> FrameKey)
    requires multiset(es) == multiset(fs)
    ensures multiset(Pushed(es, parse)) == multiset(Pushed(fs, parse))
    decreases |es|
  {
    if es == [] {
      assert |fs| == |multiset(fs)| == 0;
    } else {
      var e := es[0];
      assert e in multiset(fs);
      var i :| 0 <= i < |fs| && fs[i] == e;
      RemoveAt(fs, i);
      var rest := fs[..i] + fs[i + 1..];
      assert es == [e] + es[1..];
      assert multiset(es) == multiset{e} + multiset(es[1..]);
      assert multiset(es[1..]) == multiset(es) - multiset{e};
      assert multiset(rest) == multiset(fs) - multiset{e};
      PushedPermutation(es[1..], rest, parse);
      PushedAppend([e], es[1..], parse);
      PushedSplit(fs[..i], e, fs[i + 1..], parse);
    }
  }

  /** Every record carries the key `parse` gives its own file's name. */
  ghost predicate KeyedBy(s: seq<Extracted>, parse: string -> FrameKey) {
    forall i :: 0 <= i < |s| ==> s[i].key == parse(s[i].file.name)
  }

  lemma {:induction false} KeyedByPermutation(s: seq<Extracted>, t: seq<Extracted>, parse: string -> FrameKey)
    requires KeyedBy(s, parse) && multiset(s) == multiset(t)
    ensures KeyedBy(t, parse)
  {
    forall i | 0 <= i < |t| ensures t[i].key == parse(t[i].file.name) {
      assert t[i] in multiset(s);
    }
  }

  lemma {:induction false} KeyedByTail(s: seq<Extracted>, parse: string -> FrameKey)
    requires KeyedBy(s, parse) && s != []
    ensures s[0].key == parse(s[0].file.name)
    ensures KeyedBy(s[1..], parse)
  {
    forall i | 0 <= i < |s[1..]| ensures s[1..][i].key == parse(s[1..][i].file.name) {
      assert s[1..][i] == s[i + 1];
    }
  }

  lemma {:induction false} FilesOfCons(a: Extracted, r: seq<Extracted>)
    ensures FilesOf([a] + r) == [a.file] + FilesOf(r)
  {
  }

  lemma {:induction false} FilesOfAppend(a: seq<Extracted>, b: seq<Extracted>)
    ensures FilesOf(a + b) == FilesOf(a) + FilesOf(b)
  {
  }

  lemma {:induction false} FilesOfInsert(x: Extracted, s: seq<Extracted>)
    ensures multiset(FilesOf(Insert(x, s))) == multiset(FilesOf(s)) + multiset{x.file}
  {
    if s == [] {
    } else if Compare(x.key, s[0].key) <= 0 {
      FilesOfCons(x, s);
    } else {
      FilesOfInsert(x, s[1..]);
      FilesOfCons(s[0], Insert(x, s[1..]));
      FilesOfCons(s[0], s[1..]);
      assert s == [s[0]] + s[1..];
    }
  }

  lemma {:induction false} FilesOfSortByKey(s: seq<Extracted>)
    ensures multiset(FilesOf(SortByKey(s))) == multiset(FilesOf(s))
  {
    if s != [] {
      FilesOfSortByKey(s[1..]);
      FilesOfInsert(s[0], SortByKey(s[1..]));
      FilesOfCons(s[0], s[1..]);
      assert s == [s[0]] + s[1..];
    }
  }

  /** The files of `fs` whose name `parse` maps to `k`, in their order in `fs`. */
  function FilesWithKey(fs: seq<File>, parse: string -> FrameKey, k: FrameKey): seq<File> {
    if fs == [] then []
    else (if parse(fs[0].name) == k then [fs[0]] else []) + FilesWithKey(fs[1..], parse, k)
  }

  lemma {:induction false} FilesWithKeyCons(f: File, r: seq<File>, parse: string -> FrameKey, k: FrameKey)
    ensures FilesWithKey([f] + r, parse, k) == (if parse(f.name) == k then [f] else []) + FilesWithKey(r, parse, k)
  {
    assert ([f] + r)[1..] == r;
  }

  /** Taking the files of the records with key `k` is filtering the files by
      the key of their names. */
  lemma {:induction false} FilesOfWithKey(s: seq<Extracted>, parse: string -> FrameKey, k: FrameKey)
    requires KeyedBy(s, parse)
    ensures FilesOf(WithKey(s, k)) == FilesWithKey(FilesOf(s), parse, k)
  {
    if s != [] {
      KeyedByTail(s, parse);
      FilesOfWithKey(s[1..], parse, k);
      assert s == [s[0]] + s[1..];
      FilesOfCons(s[0], s[1..]);
      FilesWithKeyCons(s[0].file, FilesOf(s[1..]), parse, k);
      WithKeyCons(s[0], s[1..], k);
      FilesOfAppend(if s[0].key == k then [s[0]] else [], WithKey(s[1..], k));
    }
  }

  /** Files ascending by the key `parse` gives their names. */
  ghost predicate SortedBy(fs: seq<File>, parse: string -> FrameKey) {
    forall i, j :: 0 <= i < j < |fs| ==> KeyLeq(parse(fs[i].name), parse(fs[j].name))
  }

  /** The pushed records, sorted, and the facts about them that the output
      lemmas share. */
  lemma {:induction false} SortedRecords(es: seq<ArchiveEntry>, parse: string -> FrameKey)
    ensures FilesOf(Pushed(es, parse)) == DecodedFiles(es)
    ensures KeyedBy(Pushed(es, parse), parse)
    ensures KeyedBy(SortByKey(Pushed(es, parse)), parse)
    ensures Sorted(SortByKey(Pushed(es, parse)))
    ensures SortedBy(FilesOf(SortByKey(Pushed(es, parse))), parse)
  {
    PushedAt(es, parse);
    var s := SortByKey(Pushed(es, parse));
    SortByKeySortedPermutation(Pushed(es, parse));
    KeyedByPermutation(Pushed(es, parse), s, parse);
  }

  /** Reassembly fails exactly when the archive cannot be loaded or some file
      entry cannot be decoded; directory entries never cause a failure. */
  lemma {:induction false} ReassembleFailure(archive: Archive)
    ensures Reassemble(archive).Failure? <==>
      archive.Unreadable? || exists i :: 0 <= i < |archive.entries| && Fails(archive.entries[i])
  {
  }

  /** The output holds every decoded file entry exactly once and nothing else:
      directory entries never appear. */
  lemma {:induction false} ReassemblePermutation(es: seq<ArchiveEntry>)
    requires FirstFailure(es) == None
    ensures Reassemble(Zip(es)).Success?
    ensures multiset(Reassemble(Zip(es)).value) == multiset(DecodedFiles(es))
  {
    SortedRecords(es, ParseEntryName);
    FilesOfSortByKey(Pushed(es, ParseEntryName));
  }

  /** The output is ascending by the (index, frame number) its names parse to. */
  lemma {:induction false} ReassembleSorted(es: seq<ArchiveEntry>)
    requires FirstFailure(es) == None
    ensures Reassemble(Zip(es)).Success?
    ensures SortedBy(Reassemble(Zip(es)).value, ParseEntryName)
  {
    SortedRecords(es, ParseEntryName);
  }

  /** Files whose names parse to the same key, including all unparsable ones,
      keep the order in which their decodes were pushed. */
  lemma {:induction false} ReassembleStable(es: seq<ArchiveEntry>, k: FrameKey)
    requires FirstFailure(es) == None
    ensures Reassemble(Zip(es)).Success?
    ensures FilesWithKey(Reassemble(Zip(es)).value, ParseEntryName, k) == FilesWithKey(DecodedFiles(es), ParseEntryName, k)
  {
    var p := Pushed(es, ParseEntryName);
    SortedRecords(es, ParseEntryName);
    SortByKeyStable(p, k);
    FilesOfWithKey(SortByKey(p), ParseEntryName, k);
    FilesOfWithKey(p, ParseEntryName, k);
  }

  /** Files with unparsable names come before every file whose name parses. */
  lemma {:induction false} ReassembleUnorderedFirst(es: seq<ArchiveEntry>)
    requires FirstFailure(es) == None
    ensures Reassemble(Zip(es)).Success?
    ensures var out := Reassemble(Zip(es)).value;
      forall i, j :: 0 <= i < j < |out| && ParseEntryName(out[j].name) == UNORDERED ==> ParseEntryName(out[i].name) == UNORDERED
  {
    ReassembleSorted(es);
    var out := Reassemble(Zip(es)).value;
    forall i, j | 0 <= i < j < |out| && ParseEntryName(out[j].name) == UNORDERED
      ensures ParseEntryName(out[i].name) == UNORDERED
    {
      UnorderedIsLeast(out[i].name);
    }
  }

  /** No two decoded files' names give the same key. */
  ghost predicate DistinctNames(fs: seq<File>, parse: string -> FrameKey) {
    forall i, j :: 0 <= i < j < |fs| ==> parse(fs[i].name) != parse(fs[j].name)
  }

  /** When no two decoded files' names parse to the same key, the output does
      not depend on the order of the entries: neither on the archive's layout
      nor on the order in which the decodes finished. */
  lemma {:induction false} ReassembleOrderIndependent(es: seq<ArchiveEntry>, fs: seq<ArchiveEntry>)
    requires multiset(es) == multiset(fs)
    requires FirstFailure(es) == None
    requires DistinctNames(DecodedFiles(es), ParseEntryName)
    ensures Reassemble(Zip(es)).Success?
    ensures Reassemble(Zip(es)) == Reassemble(Zip(fs))
  {
    forall i | 0 <= i < |fs| ensures !Fails(fs[i]) {
      assert fs[i] in multiset(es);
    }
    PushedAt(es, ParseEntryName);
    PushedPermutation(es, fs, ParseEntryName);
    SortByKeyOrderIndependent(Pushed(es, ParseEntryName), Pushed(fs, ParseEntryName));
  }
}
