/** The playlist writer `write_m3u_file`: the name of the playlist file and
    the extended-M3U text written into it. The text is a `#EXTM3U` header
    line followed, for each record whose path is text, by an optional
    `#EXTINF:<seconds>,<artist> - <title>` line and the path line; every
    line ends with a line feed. */
module M3u {
  import opened Base
  import opened Paths
  import opened Classifier
  import opened Track
  import opened Seqs

  const Newline: byte := 0x0A
  const Comma: byte := 0x2C
  const Zero: byte := 0x30

  predicate IsDigit(b: byte) {
    Zero <= b <= 0x39
  }

  /** A number written in decimal, as `{}` formats an integer: no sign, no
      leading zero except in `0` itself. */
  function Decimal(n: nat): (r: seq<byte>)
    ensures r != []
    ensures forall k | 0 <= k < |r| :: IsDigit(r[k])
    ensures r[0] == Zero <==> n == 0
    decreases n
  {
    if n < 10 then [Zero + n as byte] else Decimal(n / 10) + [Zero + (n % 10) as byte]
  }

  /** Reads back a run of decimal digits. */
  function ParseDecimal(s: seq<byte>): nat
    decreases |s|
  {
    if s == [] then 0
    else
      var last := s[|s| - 1];
      ParseDecimal(s[..|s| - 1]) * 10 + (if IsDigit(last) then (last - Zero) as nat else 0)
  }

  lemma {:induction false} DecimalRoundTrip(n: nat)
    ensures ParseDecimal(Decimal(n)) == n
    decreases n
  {
    if n >= 10 {
      DecimalRoundTrip(n / 10);
      var d := Decimal(n);
      assert d[..|d| - 1] == Decimal(n / 10);
    }
  }

  /** The metadata line of a record. */
  function ExtInfLine(seconds: u32, artist: seq<byte>, title: seq<byte>): seq<byte> {
    Ascii("#EXTINF:") + Decimal(seconds as nat) + [Comma] + artist + Ascii(" - ") + title
  }

  /** Position of the first occurrence of `b` in `s`. */
  function IndexOf(s: seq<byte>, b: byte): (r: Option<nat>)
    ensures r.Some? ==> r.value < |s| && s[r.value] == b
    ensures r.Some? ==> b !in s[..r.value]
    ensures r.None? <==> b !in s
  {
    if s == [] then None
    else if s[0] == b then Some(0)
    else match IndexOf(s[1..], b)
      case None => None
      case Some(i) => Some(i + 1)
  }

  lemma IndexOfFirst(s: seq<byte>, b: byte, j: nat)
    requires j < |s| && s[j] == b && b !in s[..j]
    ensures IndexOf(s, b) == Some(j)
  {
  }

  /** A reader for metadata lines: the duration and the text after the
      comma, or nothing when the line is not one. */
  function ParseExtInf(line: seq<byte>): Option<(nat, seq<byte>)> {
    var tag := Ascii("#EXTINF:");
    if |line| < |tag| || line[..|tag|] != tag then None
    else
      var rest := line[|tag|..];
      match IndexOf(rest, Comma)
      case None => None
      case Some(i) =>
        if i == 0 || exists k | 0 <= k < i :: !IsDigit(rest[k]) then None
        else Some((ParseDecimal(rest[..i]), rest[i + 1..]))
  }

  /** The duration written in a metadata line can be read back, and the
      rest of the line is `<artist> - <title>`. */
  lemma ExtInfRoundTrip(seconds: u32, artist: seq<byte>, title: seq<byte>)
    ensures ParseExtInf(ExtInfLine(seconds, artist, title)) ==
      Some((seconds as nat, artist + Ascii(" - ") + title))
  {
    var tag := Ascii("#EXTINF:");
    var digits := Decimal(seconds as nat);
    var line := ExtInfLine(seconds, artist, title);
    var tail := artist + Ascii(" - ") + title;
    assert line == tag + (digits + [Comma] + tail);
    assert line[..|tag|] == tag;
    var rest := line[|tag|..];
    assert rest == digits + [Comma] + tail;
    assert Comma !in digits;
    assert rest[|digits|] == Comma;
    assert rest[..|digits|] == digits;
    IndexOfFirst(rest, Comma, |digits|);
    assert rest[|digits| + 1..] == tail;
    DecimalRoundTrip(seconds as nat);
  }

  /** What one record writes: nothing when its path is not text; otherwise
      the metadata line when duration, artist and title are all known, then
      the path line. */
  function RecordLines(info: TrackInfo): (r: seq<seq<byte>>)
    ensures ToStr(info.path).None? <==> r == []
    ensures r != [] ==> r[|r| - 1] == Render(info.path)
    ensures |r| <= 2
    ensures |r| == 2 <==>
      ToStr(info.path).Some? && info.durationInSecs.Some? && info.artist.Some? && info.title.Some?
  {
    match ToStr(info.path)
    case None => []
    case Some(pathStr) =>
      if info.durationInSecs.Some? && info.artist.Some? && info.title.Some? then
        [ExtInfLine(info.durationInSecs.value, info.artist.value, info.title.value), pathStr]
      else
        [pathStr]
  }

  /** A record's metadata line reads back as its duration, then its
      artist and title separated by ` - `. */
  lemma RecordExtInf(info: TrackInfo)
    requires |RecordLines(info)| == 2
    ensures ParseExtInf(RecordLines(info)[0]) ==
      Some((info.durationInSecs.value as nat, info.artist.value + Ascii(" - ") + info.title.value))
  {
    ExtInfRoundTrip(info.durationInSecs.value, info.artist.value, info.title.value);
  }

  const Header: seq<byte> := Ascii("#EXTM3U")

  /** Every line, header first, records in order. */
  function Lines(filesInfo: seq<TrackInfo>): seq<seq<byte>> {
    [Header] + FlatMap(filesInfo, RecordLines)
  }

  /** Lines written one after another, each followed by a line feed. */
  function JoinLines(lines: seq<seq<byte>>): seq<byte>
    decreases |lines|
  {
    if lines == [] then [] else lines[0] + [Newline] + JoinLines(lines[1..])
  }

  /** The playlist text. */
  function Content(filesInfo: seq<TrackInfo>): seq<byte> {
    JoinLines(Lines(filesInfo))
  }

  /** Cuts text into the lines that each end with a line feed; text after
      the last line feed is a last, unterminated line. */
  function SplitLines(s: seq<byte>): seq<seq<byte>>
    decreases |s|
  {
    match IndexOf(s, Newline)
    case None => if s == [] then [] else [s]
    case Some(i) => [s[..i]] + SplitLines(s[i + 1..])
  }

  lemma {:induction false} JoinLinesAppend(a: seq<seq<byte>>, b: seq<seq<byte>>)
    ensures JoinLines(a + b) == JoinLines(a) + JoinLines(b)
    decreases |a|
  {
    if a == [] {
      assert a + b == b;
    } else {
      assert (a + b)[1..] == a[1..] + b;
      JoinLinesAppend(a[1..], b);
    }
  }

  /** Cutting text that starts with a line and a line feed yields that
      line, then the cuts of the rest. */
  lemma SplitLinesCons(first: seq<byte>, rest: seq<byte>)
    requires Newline !in first
    ensures SplitLines(first + [Newline] + rest) == [first] + SplitLines(rest)
  {
    var s := first + [Newline] + rest;
    assert s[..|first|] == first;
    IndexOfFirst(s, Newline, |first|);
    assert s[|first| + 1..] == rest;
  }

  /** Lines without line feeds are recovered by cutting their join. */
  lemma {:induction false} SplitJoinLines(lines: seq<seq<byte>>)
    requires forall k | 0 <= k < |lines| :: Newline !in lines[k]
    ensures SplitLines(JoinLines(lines)) == lines
    decreases |lines|
  {
    if lines != [] {
      SplitLinesCons(lines[0], JoinLines(lines[1..]));
      SplitJoinLines(lines[1..]);
      assert lines == [lines[0]] + lines[1..];
    }
  }

  /** The texts a record can write hold no line feed. */
  predicate SingleLineText(info: TrackInfo) {
    && Newline !in Render(info.path)
    && (info.artist.Some? ==> Newline !in info.artist.value)
    && (info.title.Some? ==> Newline !in info.title.value)
  }

  lemma RecordLinesSingle(info: TrackInfo)
    requires SingleLineText(info)
    ensures forall line | line in RecordLines(info) :: Newline !in line
  {
    var r := RecordLines(info);
    if |r| == 2 {
      var digits := Decimal(info.durationInSecs.value as nat);
      assert r[0] == Ascii("#EXTINF:") + digits + [Comma] + info.artist.value + Ascii(" - ") + info.title.value;
      assert Newline !in Ascii("#EXTINF:") && Newline !in Ascii(" - ");
      assert Newline !in digits;
    }
  }

  lemma LinesSingle(filesInfo: seq<TrackInfo>)
    requires forall k | 0 <= k < |filesInfo| :: SingleLineText(filesInfo[k])
    ensures forall k | 0 <= k < |Lines(filesInfo)| :: Newline !in Lines(filesInfo)[k]
  {
    var lines := Lines(filesInfo);
    forall k | 0 <= k < |lines| ensures Newline !in lines[k] {
      if k == 0 {
        assert lines[k] == Header;
      } else {
        assert lines[k] in FlatMap(filesInfo, RecordLines);
        FlatMapMembers(filesInfo, RecordLines, lines[k]);
        var j :| 0 <= j < |filesInfo| && lines[k] in RecordLines(filesInfo[j]);
        RecordLinesSingle(filesInfo[j]);
      }
    }
  }

  /** When no path, artist or title holds a line feed, the playlist text
      cuts back into exactly its lines: the header, then each record's lines
      in order. */
  lemma ContentLines(filesInfo: seq<TrackInfo>)
    requires forall k | 0 <= k < |filesInfo| :: SingleLineText(filesInfo[k])
    ensures SplitLines(Content(filesInfo)) == [Header] + FlatMap(filesInfo, RecordLines)
  {
    LinesSingle(filesInfo);
    SplitJoinLines(Lines(filesInfo));
  }

  /** Records write independently and in order: the text for two lists of
      records is the text for the first followed by the lines of the
      second. */
  lemma ContentAppend(a: seq<TrackInfo>, b: seq<TrackInfo>)
    ensures Content(a + b) == Content(a) + JoinLines(FlatMap(b, RecordLines))
  {
    FlatMapAppend(a, b, RecordLines);
    assert Lines(a + b) == Lines(a) + FlatMap(b, RecordLines);
    JoinLinesAppend(Lines(a), FlatMap(b, RecordLines));
  }

  const M3uToken: seq<byte> := Ascii("m3u")
  const Suffix: seq<byte> := [Dot] + M3uToken
  const Fallback: seq<byte> := Ascii("playlist") + Suffix

  /** The playlist's file name: the scanned directory's stem plus `.m3u`
      when the stem exists and is text, `playlist.m3u` otherwise. */
  function Filename(pathToSearch: Path): (r: seq<byte>)
    ensures |r| >= |Suffix| && r[|r| - |Suffix|..] == Suffix
  {
    var directoryName := FileStem(pathToSearch);
    if directoryName.Some? && Utf8(directoryName.value) then directoryName.value + Suffix else Fallback
  }

  /** The playlist goes inside the scanned directory. */
  function FilePath(pathToSearch: Path): (r: Path)
    ensures |r| == |pathToSearch| + 1 && r[..|pathToSearch|] == pathToSearch
  {
    Join(pathToSearch, Filename(pathToSearch))
  }

  /** The stem of a canonical path is never empty. */
  lemma StemNonEmpty(p: Path)
    requires WellFormed(p) && FileStem(p).Some?
    ensures FileStem(p).value != []
  {
    StemAndExtension(p);
    var name := FileName(p).value;
    assert p[|p| - 1] == Normal(name);
  }

  /** A name `stem.m3u` splits back into `stem` and `m3u`. */
  lemma M3uNameParts(dir: Path, stem: seq<byte>)
    requires stem != []
    ensures Extension(dir + [Normal(stem + Suffix)]) == Some(M3uToken)
    ensures FileStem(dir + [Normal(stem + Suffix)]) == Some(stem)
  {
    assert stem + Suffix == stem + [Dot] + M3uToken;
    assert Dot !in M3uToken;
    assert |stem + [Dot] + M3uToken| > 2;
    SplitStemDotToken(stem, M3uToken);
  }

  /** The name the playlist is written under, read back as a path: its
      extension is `m3u`, and its stem is the rest of the name. */
  lemma FilePathParts(pathToSearch: Path)
    requires WellFormed(pathToSearch)
    ensures Extension(FilePath(pathToSearch)) == Some(M3uToken)
    ensures FileStem(FilePath(pathToSearch)).Some?
    ensures FileStem(FilePath(pathToSearch)).value + Suffix == Filename(pathToSearch)
  {
    var stem := if FileStem(pathToSearch).Some? && Utf8(FileStem(pathToSearch).value)
      then FileStem(pathToSearch).value else Ascii("playlist");
    if FileStem(pathToSearch).Some? && Utf8(FileStem(pathToSearch).value) {
      StemNonEmpty(pathToSearch);
    }
    var name := Filename(pathToSearch);
    assert name == stem + Suffix;
    assert FilePath(pathToSearch) == pathToSearch + [Normal(name)];
    M3uNameParts(pathToSearch, stem);
  }

  /** A directory named `stem.token` gets the playlist `stem.m3u` when the
      stem is text, and `playlist.m3u` when it is not. */
  lemma FilenameOfDottedName(dir: Path, stem: seq<byte>, token: seq<byte>)
    requires stem != [] && Dot !in token && stem + [Dot] + token != [Dot, Dot]
    ensures Utf8(stem) ==> Filename(dir + [Normal(stem + [Dot] + token)]) == stem + Suffix
    ensures !Utf8(stem) ==> Filename(dir + [Normal(stem + [Dot] + token)]) == Fallback
  {
    SplitStemDotToken(stem, token);
  }

  /** A directory whose name has no dot gets the playlist `<name>.m3u` when
      the name is text, and `playlist.m3u` when it is not. */
  lemma FilenameOfPlainName(dir: Path, name: seq<byte>)
    requires Dot !in name
    ensures Utf8(name) ==> Filename(dir + [Normal(name)]) == name + Suffix
    ensures !Utf8(name) ==> Filename(dir + [Normal(name)]) == Fallback
  {
    assert LastIndexOf(name, Dot).None?;
  }

  /** The root directory has no name, so its playlist is `playlist.m3u`. */
  lemma FilenameOfRoot()
    ensures Filename([RootDir]) == Fallback
  {
  }

  /** A directory named `My.Album` gets the playlist `My.m3u`. */
  lemma FilenameUsesStem()
    ensures Filename([RootDir, Normal(Ascii("My.Album"))]) == Ascii("My") + Suffix
  {
    var name := Ascii("My.Album");
    var p := [RootDir, Normal(name)];
    assert FileName(p) == Some(name);
    assert name[2] == Dot;
    assert forall k | 0 <= k < |name| && k != 2 :: name[k] != Dot;
    assert LastIndexOf(name, Dot) == Some(2);
    var stem := name[..2];
    assert stem == Ascii("My");
    assert FileStem(p) == Some(stem);
    AsciiIsUtf8(stem);
  }

  lemma M3uIsNotAudio()
    ensures M3uToken !in ValidAudioFormats
  {
    var m := M3uToken;
    assert m[0] == 0x6D && m[1] == 0x33 && m[2] == 0x75;
    assert Ascii("mp3")[1] == 0x70;
    assert Ascii("ogg")[0] == 0x6F;
    assert Ascii("flac")[0] == 0x66;
    assert Ascii("wav")[0] == 0x77;
    assert Ascii("m4a")[1] == 0x34;
    assert Ascii("wma")[0] == 0x77;
  }

  /** A later scan of the same directory does not take the playlist for an
      audio file. */
  lemma PlaylistIsNotAudio(pathToSearch: Path)
    requires WellFormed(pathToSearch)
    ensures !KeepFile(FilePath(pathToSearch))
  {
    FilePathParts(pathToSearch);
    M3uIsNotAudio();
  }

  /** The text grows by one record's lines per record. */
  lemma PrefixStep(filesInfo: seq<TrackInfo>, i: nat)
    requires i < |filesInfo|
    ensures Content(filesInfo[..i + 1]) == Content(filesInfo[..i]) + JoinLines(RecordLines(filesInfo[i]))
  {
    assert filesInfo[..i + 1][..i] == filesInfo[..i];
    assert Lines(filesInfo[..i + 1]) == Lines(filesInfo[..i]) + RecordLines(filesInfo[i]);
    JoinLinesAppend(Lines(filesInfo[..i]), RecordLines(filesInfo[i]));
  }

  /** The text one record writes. */
  lemma RecordText(info: TrackInfo)
    requires ToStr(info.path).Some?
    ensures JoinLines(RecordLines(info)) ==
      (if info.durationInSecs.Some? && info.artist.Some? && info.title.Some?
       then ExtInfLine(info.durationInSecs.value, info.artist.value, info.title.value) + [Newline]
       else []) + Render(info.path) + [Newline]
  {
    var r := RecordLines(info);
    assert JoinLines(r[|r| - 1..]) == Render(info.path) + [Newline];
    if |r| == 2 {
      assert r[0] == ExtInfLine(info.durationInSecs.value, info.artist.value, info.title.value);
      assert r[1..] == r[|r| - 1..];
    } else {
      assert r == r[|r| - 1..];
    }
  }

  /** `write_m3u_file`, with the file's contents returned rather than
      written: the playlist's path, and the text written to it. */
  method WriteM3uFile(filesInfo: seq<TrackInfo>, pathToSearch: Path)
    returns (m3uFilePath: Path, written: seq<byte>)
    ensures m3uFilePath == FilePath(pathToSearch)
    ensures written == Content(filesInfo)
  {
    var playlistFilename := Fallback;
    var directoryName := FileStem(pathToSearch);
    if directoryName.Some? {
      var directoryNameStr := if Utf8(directoryName.value) then Some(directoryName.value) else None;
      if directoryNameStr.Some? {
        playlistFilename := directoryNameStr.value + Suffix;
      }
    }
    m3uFilePath := Join(pathToSearch, playlistFilename);

    written := Header + [Newline];
    assert written == Content([]);
    for i := 0 to |filesInfo|
      invariant written == Content(filesInfo[..i])
    {
      var fileInfo := filesInfo[i];
      PrefixStep(filesInfo, i);
      var pathStr := ToStr(fileInfo.path);
      if pathStr.None? {
        assert JoinLines(RecordLines(fileInfo)) == [];
        assert written + [] == written;
        continue;
      }
      ghost var before := written;
      var duration := fileInfo.durationInSecs;
      var artist := fileInfo.artist;
      var trackTitle := fileInfo.title;
      ghost var metadata: seq<byte> := [];
      if duration.Some? && artist.Some? && trackTitle.Some? {
        metadata := ExtInfLine(duration.value, artist.value, trackTitle.value) + [Newline];
        written := written + ExtInfLine(duration.value, artist.value, trackTitle.value) + [Newline];
        assert written == before + metadata;
      }
      written := written + pathStr.value + [Newline];
      AppendAssociative(before, metadata, pathStr.value);
      AppendAssociative(before, metadata + pathStr.value, [Newline]);
      RecordText(fileInfo);
      assert metadata + pathStr.value + [Newline] == JoinLines(RecordLines(fileInfo));
    }
    assert filesInfo[..|filesInfo|] == filesInfo;
  }
}
