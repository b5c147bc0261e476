/** The metadata aggregator `get_audio_files_info`: one track record per
    audio file whose absolute path is text, in input order, filled from the
    metadata collaborator (MediaInfo). */
module Aggregator {
  import opened Base
  import opened Paths
  import opened Track
  import opened Seqs

  /** What the collaborator answers for one opened file. Empty text is its
      way of saying a field is missing; numbers are optional. */
  datatype MediaTags = MediaTags(
    performer: Text,
    title: Text,
    durationMs: Option<u32>,
    trackNumber: Option<u32>,
    album: Text)

  /** The collaborator as a lookup from the absolute path (as text) to the
      tags it reports. A file it cannot open reports every field missing,
      which this lookup represents like any other answer. */
  type MediaInfo = seq<byte> -> MediaTags

  /** The path written for a file: relative to the scanned directory when
      `strip_prefix` succeeds, the absolute path otherwise. */
  function DisplayPath(audioFile: Path, pathToSearch: Path): (r: Path)
    ensures IsPrefix(pathToSearch, audioFile) ==> pathToSearch + r == audioFile
    ensures !IsPrefix(pathToSearch, audioFile) ==> r == audioFile
  {
    match StripPrefix(audioFile, pathToSearch)
    case Some(relative) => relative
    case None => audioFile
  }

  /** Text that the collaborator returned, kept only when non-empty. */
  function NonEmpty(t: Text): Option<Text> {
    if t == [] then None else Some(t)
  }

  /** The record for a displayed path and its tags: text fields present
      exactly when non-empty, numbers copied, the duration in whole seconds. */
  function RecordFor(display: Path, tags: MediaTags): (r: TrackInfo)
    ensures r.path == display
    ensures r.artist.Some? <==> |tags.performer| != 0
    ensures r.album.Some? <==> |tags.album| != 0
    ensures r.title.Some? <==> |tags.title| != 0
    ensures r.artist.Some? ==> r.artist.value == tags.performer
    ensures r.album.Some? ==> r.album.value == tags.album
    ensures r.title.Some? ==> r.title.value == tags.title
    ensures r.trackNumber == tags.trackNumber
    ensures r.durationInSecs.Some? <==> tags.durationMs.Some?
    ensures r.durationInSecs.Some? ==>
      r.durationInSecs.value as int * 1000 <= tags.durationMs.value as int < (r.durationInSecs.value as int + 1) * 1000
  {
    TrackInfo(
      path := display,
      title := NonEmpty(tags.title),
      artist := NonEmpty(tags.performer),
      durationInSecs := match tags.durationMs case Some(ms) => Some(ms / 1000) case None => None,
      trackNumber := tags.trackNumber,
      album := NonEmpty(tags.album))
  }

  /** What one file contributes: nothing when its absolute path is not
      text, otherwise its record. */
  function FileRecord(audioFile: Path, pathToSearch: Path, mediainfo: MediaInfo): seq<TrackInfo> {
    match ToStr(audioFile)
    case None => []
    case Some(text) => [RecordFor(DisplayPath(audioFile, pathToSearch), mediainfo(text))]
  }

  /** The per-file step as a value, for `FlatMap`. */
  function FileStep(pathToSearch: Path, mediainfo: MediaInfo): Path -> seq<TrackInfo> {
    audioFile => FileRecord(audioFile, pathToSearch, mediainfo)
  }

  /** The records for a list of files, file by file. */
  function Records(audioFiles: seq<Path>, pathToSearch: Path, mediainfo: MediaInfo): seq<TrackInfo> {
    FlatMap(audioFiles, FileStep(pathToSearch, mediainfo))
  }

  /** `get_audio_files_info`. */
  method GetAudioFilesInfo(audioFiles: seq<Path>, pathToSearch: Path, mediainfo: MediaInfo)
    returns (filesInfo: seq<TrackInfo>)
    ensures filesInfo == Records(audioFiles, pathToSearch, mediainfo)
  {
    filesInfo := [];
    var i := 0;
    while i < |audioFiles|
      invariant 0 <= i <= |audioFiles|
      invariant filesInfo == Records(audioFiles[..i], pathToSearch, mediainfo)
    {
      var audioFile := audioFiles[i];
      assert audioFiles[..i + 1][..i] == audioFiles[..i];
      assert audioFiles[..i + 1][i] == audioFile;
      i := i + 1;
      var filePath;
      var relativePath := StripPrefix(audioFile, pathToSearch);
      if relativePath.Some? {
        filePath := relativePath.value;
      } else {
        filePath := audioFile;
      }
      var fileInfo := TrackInfo.New(filePath);
      var pathAsStr := ToStr(audioFile);
      if pathAsStr.None? {
        continue;
      }
      var tags := mediainfo(pathAsStr.value);
      if |tags.performer| != 0 { fileInfo := fileInfo.AddArtist(tags.performer); }
      if |tags.album| != 0 { fileInfo := fileInfo.AddAlbum(tags.album); }
      if |tags.title| != 0 { fileInfo := fileInfo.AddTitle(tags.title); }
      if tags.durationMs.Some? { fileInfo := fileInfo.AddDuration(tags.durationMs.value / 1000); }
      if tags.trackNumber.Some? { fileInfo := fileInfo.AddTrackNumber(tags.trackNumber.value); }
      filesInfo := filesInfo + [fileInfo];
    }
    assert audioFiles[..i] == audioFiles;
  }

  /** Files contribute independently and in order: the records for two
      lists one after the other are the records of the first list followed
      by those of the second. */
  lemma RecordsAppend(a: seq<Path>, b: seq<Path>, pathToSearch: Path, mediainfo: MediaInfo)
    ensures Records(a + b, pathToSearch, mediainfo) == Records(a, pathToSearch, mediainfo) + Records(b, pathToSearch, mediainfo)
  {
    FlatMapAppend(a, b, FileStep(pathToSearch, mediainfo));
  }

  /** At most one record per file, and exactly one per file exactly when
      every absolute path is text. */
  lemma RecordsLength(audioFiles: seq<Path>, pathToSearch: Path, mediainfo: MediaInfo)
    ensures |Records(audioFiles, pathToSearch, mediainfo)| <= |audioFiles|
    ensures |Records(audioFiles, pathToSearch, mediainfo)| == |audioFiles| <==>
      forall i | 0 <= i < |audioFiles| :: ToStr(audioFiles[i]).Some?
  {
    var step := FileStep(pathToSearch, mediainfo);
    assert forall i | 0 <= i < |audioFiles| :: |step(audioFiles[i])| == if ToStr(audioFiles[i]).Some? then 1 else 0;
    FlatMapLength(audioFiles, step);
  }

  /** The records are exactly the records of the files whose absolute path
      is text: a record comes from some such file, and every such file has
      its record. */
  lemma RecordsMembers(audioFiles: seq<Path>, pathToSearch: Path, mediainfo: MediaInfo, r: TrackInfo)
    ensures r in Records(audioFiles, pathToSearch, mediainfo) <==>
      exists i | 0 <= i < |audioFiles| ::
        ToStr(audioFiles[i]).Some? &&
        r == RecordFor(DisplayPath(audioFiles[i], pathToSearch), mediainfo(ToStr(audioFiles[i]).value))
  {
    FlatMapMembers(audioFiles, FileStep(pathToSearch, mediainfo), r);
  }
}
