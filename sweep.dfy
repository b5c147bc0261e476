/** One run of `sweep_directory` over a canonical directory: walk it
    recursively, stop when no audio file is found, otherwise collect the
    records, sort them and write the playlist into the directory. */
module Sweep {
  import opened Base
  import opened Compare
  import opened Paths
  import opened Walker
  import opened Track
  import opened Aggregator
  import opened Sorting
  import opened Seqs
  import opened M3u

  /** `RECURSE`: the sweep always descends into subdirectories. */
  const Recurse: bool := true

  /** How a sweep ends. The diagnostics printed on the way out are not
      modelled, only which way out was taken. */
  datatype Outcome =
    | NotADirectory
    | NoAudioFiles
    | Written(playlistPath: Path, content: seq<byte>)

  /** The records of the audio files below `pathToSearch`, in walk order. */
  function FoundRecords(pathToSearch: Path, tree: Node, mediainfo: MediaInfo): seq<TrackInfo> {
    Records(Walk(pathToSearch, tree, Recurse), pathToSearch, mediainfo)
  }

  /** `files_info.sort()`: the records sorted in place by `Ord::cmp`. */
  method SortRecords(filesInfo: seq<TrackInfo>) returns (sorted: seq<TrackInfo>)
    ensures sorted == SortedSeq(filesInfo, Cmp)
  {
    var buffer := new TrackInfo[|filesInfo|](i requires 0 <= i < |filesInfo| => filesInfo[i]);
    assert buffer[..] == filesInfo;
    CmpIsComparator();
    Sort(buffer, Cmp);
    sorted := buffer[..];
  }

  /** `sweep_directory` after `canonicalize`: `tree` is what the
      filesystem holds at `pathToSearch`. */
  method SweepDirectory(pathToSearch: Path, tree: Node, mediainfo: MediaInfo) returns (outcome: Outcome)
    ensures !tree.Dir? <==> outcome == NotADirectory
    ensures outcome == NoAudioFiles <==> tree.Dir? && Walk(pathToSearch, tree, Recurse) == []
    ensures outcome.Written? ==>
      && outcome.playlistPath == FilePath(pathToSearch)
      && outcome.content == Content(SortedSeq(FoundRecords(pathToSearch, tree, mediainfo), Cmp))
  {
    if !tree.Dir? {
      return NotADirectory;
    }

    var audioFiles := AppendAudioFiles([], pathToSearch, tree, Recurse);
    assert audioFiles == Walk(pathToSearch, tree, Recurse);
    if |audioFiles| == 0 {
      return NoAudioFiles;
    }

    var filesInfo := GetAudioFilesInfo(audioFiles, pathToSearch, mediainfo);
    assert filesInfo == FoundRecords(pathToSearch, tree, mediainfo);

    filesInfo := SortRecords(filesInfo);

    var m3uFilePath, written := WriteM3uFile(filesInfo, pathToSearch);
    return Written(m3uFilePath, written);
  }

  /** The playlist lists the records in ascending order and holds each of
      them exactly as often as it was found. */
  lemma PlaylistOrder(pathToSearch: Path, tree: Node, mediainfo: MediaInfo)
    ensures Sorted(SortedSeq(FoundRecords(pathToSearch, tree, mediainfo), Cmp), Cmp)
    ensures multiset(SortedSeq(FoundRecords(pathToSearch, tree, mediainfo), Cmp)) ==
      multiset(FoundRecords(pathToSearch, tree, mediainfo))
  {
    CmpIsComparator();
    SortedSeqCorrect(FoundRecords(pathToSearch, tree, mediainfo), Cmp);
  }

  /** The order in which records arrive does not matter: any two lists of
      the same records give the same playlist text. */
  lemma ContentIgnoresArrivalOrder(a: seq<TrackInfo>, b: seq<TrackInfo>)
    requires multiset(a) == multiset(b)
    ensures Content(SortedSeq(a, Cmp)) == Content(SortedSeq(b, Cmp))
  {
    CmpIsComparator();
    SortedSeqCorrect(a, Cmp);
    SortedSeqCorrect(b, Cmp);
    SortedUnique(SortedSeq(a, Cmp), SortedSeq(b, Cmp), Cmp);
  }

  /** Every record built from a walked file carries the path relative to
      the scanned directory, and that path is text. */
  lemma FoundRecordPaths(pathToSearch: Path, tree: Node, mediainfo: MediaInfo, r: TrackInfo)
    requires pathToSearch != []
    requires r in FoundRecords(pathToSearch, tree, mediainfo)
    ensures exists p | p in Walk(pathToSearch, tree, Recurse) :: pathToSearch + r.path == p
    ensures r.path != [] && AllNormal(r.path)
    ensures ToStr(r.path).Some?
  {
    var files := Walk(pathToSearch, tree, Recurse);
    RecordsMembers(files, pathToSearch, mediainfo, r);
    var i :| 0 <= i < |files| && ToStr(files[i]).Some? &&
      r == RecordFor(DisplayPath(files[i], pathToSearch), mediainfo(ToStr(files[i]).value));
    var p := files[i];
    WalkSound(pathToSearch, tree, Recurse, p);
    assert IsPrefix(pathToSearch, p);
    assert r.path == p[|pathToSearch|..];
    StrippedToStr(p, pathToSearch);
  }

  /** Every record in the playlist writes its path line: no audio file that
      was found and read is silently dropped by the writer. */
  lemma EveryRecordListed(pathToSearch: Path, tree: Node, mediainfo: MediaInfo)
    requires pathToSearch != []
    ensures forall r | r in SortedSeq(FoundRecords(pathToSearch, tree, mediainfo), Cmp) ::
      RecordLines(r) != [] && RecordLines(r)[|RecordLines(r)| - 1] == Render(r.path)
  {
    var found := FoundRecords(pathToSearch, tree, mediainfo);
    PlaylistOrder(pathToSearch, tree, mediainfo);
    forall r | r in SortedSeq(found, Cmp)
      ensures RecordLines(r) != [] && RecordLines(r)[|RecordLines(r)| - 1] == Render(r.path)
    {
      assert r in multiset(SortedSeq(found, Cmp));
      FoundRecordPaths(pathToSearch, tree, mediainfo, r);
    }
  }
}
