/** The extension allow-list and the file classifier `keep_file`. */
module Classifier {
  import opened Base
  import opened Paths

  /** `VALID_AUDIO_FORMATS`: the six extensions, compared byte for byte. */
  const ValidAudioFormats: set<seq<byte>> :=
    {Ascii("mp3"), Ascii("ogg"), Ascii("flac"), Ascii("wav"), Ascii("m4a"), Ascii("wma")}

  /** Every allowed token is ASCII, hence text. */
  lemma FormatsAreText()
    ensures forall t | t in ValidAudioFormats :: Utf8(t)
  {
    AsciiIsUtf8(Ascii("mp3"));
    AsciiIsUtf8(Ascii("ogg"));
    AsciiIsUtf8(Ascii("flac"));
    AsciiIsUtf8(Ascii("wav"));
    AsciiIsUtf8(Ascii("m4a"));
    AsciiIsUtf8(Ascii("wma"));
  }

  /** `keep_file`: the path has an extension, the extension is text, and the
      text is one of the allowed formats (case-sensitive). Since every
      allowed token is text, the text check never rejects one: a file is
      kept exactly when its extension is in the allow-list. */
  function KeepFile(p: Path): (keep: bool)
    ensures keep <==> Extension(p).Some? && Extension(p).value in ValidAudioFormats
  {
    FormatsAreText();
    var extension := Extension(p);
    if extension.None? then false
    else if !Utf8(extension.value) then false
    else if extension.value !in ValidAudioFormats then false
    else true
  }

  /** A file is kept exactly when its name is `stem.token` for a non-empty
      stem and an allowed token (case-sensitive): `song.mp3` is kept,
      `song.MP3`, `song.mp3.bak`, `.mp3` and `mp3` are not. */
  lemma KeepFileByName(p: Path, stem: seq<byte>, token: seq<byte>)
    requires p != [] && p[|p| - 1] == Normal(stem + [Dot] + token)
    requires stem != [] && Dot !in token
    ensures KeepFile(p) <==> token in ValidAudioFormats
  {
    if stem + [Dot] + token == [Dot, Dot] {
      assert token == [];
    } else {
      SplitStemDotToken(stem, token);
    }
  }

  /** `song.mp3` is kept. */
  lemma KeepsLowerCaseMp3()
    ensures KeepFile([RootDir, Normal(Ascii("song.mp3"))])
  {
    assert Ascii("song.mp3") == Ascii("song") + [Dot] + Ascii("mp3");
    KeepFileByName([RootDir, Normal(Ascii("song.mp3"))], Ascii("song"), Ascii("mp3"));
  }

  /** `song.MP3` is not: the comparison is case-sensitive. */
  lemma RejectsUpperCaseMp3()
    ensures !KeepFile([RootDir, Normal(Ascii("song.MP3"))])
  {
    var token := Ascii("MP3");
    assert Ascii("song.MP3") == Ascii("song") + [Dot] + token;
    assert token[0] == 0x4D;
    assert Ascii("mp3")[0] == 0x6D && Ascii("ogg")[0] == 0x6F && Ascii("flac")[0] == 0x66;
    assert Ascii("wav")[0] == 0x77 && Ascii("m4a")[0] == 0x6D && Ascii("wma")[0] == 0x77;
    assert token !in ValidAudioFormats;
    KeepFileByName([RootDir, Normal(Ascii("song.MP3"))], Ascii("song"), token);
  }
}
