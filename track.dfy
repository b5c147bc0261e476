/** The track record `M3uFileInfo`: a display path and the optional
    metadata read for it, with its field-wise equality and its ordering by
    artist, album, track number, title, duration and finally path. */
module Track {
  import opened Base
  import opened Compare
  import opened Paths

  /** Metadata text as the collaborator returns it (the bytes of a `String`). */
  type Text = seq<byte>

  datatype TrackInfo = TrackInfo(
    path: Path,
    title: Option<Text>,
    artist: Option<Text>,
    durationInSecs: Option<u32>,
    // not written to the playlist, only used for ordering
    trackNumber: Option<u32>,
    album: Option<Text>)
  {
    /** `M3uFileInfo::new`: a record knowing nothing but its path. */
    static function New(path: Path): (r: TrackInfo)
      ensures r.path == path
      ensures r.title.None? && r.artist.None? && r.durationInSecs.None?
      ensures r.trackNumber.None? && r.album.None?
    {
      TrackInfo(path, None, None, None, None, None)
    }

    function AddTitle(title: Text): (r: TrackInfo)
      ensures r.title == Some(title)
      ensures r.path == path && r.artist == artist && r.durationInSecs == durationInSecs
      ensures r.trackNumber == trackNumber && r.album == album
    {
      this.(title := Some(title))
    }

    function AddArtist(artist: Text): (r: TrackInfo)
      ensures r.artist == Some(artist)
      ensures r.path == path && r.title == title && r.durationInSecs == durationInSecs
      ensures r.trackNumber == trackNumber && r.album == album
    {
      this.(artist := Some(artist))
    }

    function AddDuration(duration: u32): (r: TrackInfo)
      ensures r.durationInSecs == Some(duration)
      ensures r.path == path && r.title == title && r.artist == artist
      ensures r.trackNumber == trackNumber && r.album == album
    {
      this.(durationInSecs := Some(duration))
    }

    function AddTrackNumber(number: u32): (r: TrackInfo)
      ensures r.trackNumber == Some(number)
      ensures r.path == path && r.title == title && r.artist == artist
      ensures r.durationInSecs == durationInSecs && r.album == album
    {
      this.(trackNumber := Some(number))
    }

    function AddAlbum(album: Text): (r: TrackInfo)
      ensures r.album == Some(album)
      ensures r.path == path && r.title == title && r.artist == artist
      ensures r.durationInSecs == durationInSecs && r.trackNumber == trackNumber
    {
      this.(album := Some(album))
    }
  }

  /** `PartialEq::eq`: the six fields compared one after another. */
  function Eq(a: TrackInfo, b: TrackInfo): (r: bool)
    ensures r <==> a == b
  {
    if a.trackNumber != b.trackNumber then false
    else if a.artist != b.artist then false
    else if a.album != b.album then false
    else if a.title != b.title then false
    else if a.durationInSecs != b.durationInSecs then false
    else if a.path != b.path then false
    else true
  }

  function CmpText(a: Option<Text>, b: Option<Text>): Ordering {
    CmpOption(a, b, CmpBytes)
  }

  function CmpNumber(a: Option<u32>, b: Option<u32>): Ordering {
    CmpOption(a, b, CmpU32)
  }

  /** `Ord::cmp`: equal records are `Equal`; otherwise the first key that
      differs decides, in the order artist, album, track number, title,
      duration, path. */
  function Cmp(a: TrackInfo, b: TrackInfo): Ordering {
    if Eq(a, b) then Equal
    else
      var artistCmp := CmpText(a.artist, b.artist);
      if artistCmp != Equal then artistCmp
      else
        var albumCmp := CmpText(a.album, b.album);
        if albumCmp != Equal then albumCmp
        else
          var numberCmp := CmpNumber(a.trackNumber, b.trackNumber);
          if numberCmp != Equal then numberCmp
          else
            var titleCmp := CmpText(a.title, b.title);
            if titleCmp != Equal then titleCmp
            else
              var durationCmp := CmpNumber(a.durationInSecs, b.durationInSecs);
              if durationCmp != Equal then durationCmp
              else
                var pathCmp := CmpPath(a.path, b.path);
                if pathCmp != Equal then pathCmp
                else Equal
  }

  /** The six key comparators are strict total orders. */
  lemma KeysAreComparators()
    ensures forall x, y :: CmpText(x, y) == Equal <==> x == y
    ensures forall x, y :: CmpText(y, x) == CmpText(x, y).Reverse()
    ensures forall x, y, z :: CmpText(x, y) == Less && CmpText(y, z) == Less ==> CmpText(x, z) == Less
    ensures forall x, y :: CmpNumber(x, y) == Equal <==> x == y
    ensures forall x, y :: CmpNumber(y, x) == CmpNumber(x, y).Reverse()
    ensures forall x, y, z :: CmpNumber(x, y) == Less && CmpNumber(y, z) == Less ==> CmpNumber(x, z) == Less
    ensures forall x, y :: CmpPath(x, y) == Equal <==> x == y
    ensures forall x, y :: CmpPath(y, x) == CmpPath(x, y).Reverse()
    ensures forall x, y, z :: CmpPath(x, y) == Less && CmpPath(y, z) == Less ==> CmpPath(x, z) == Less
  {
    BytesIsComparator();
    OptionIsComparator(CmpBytes);
    U32IsComparator();
    OptionIsComparator(CmpU32);
    ComponentIsComparator();
    LexicographicIsComparator(CmpComponent);
  }

  /** `cmp` answers `Equal` exactly for equal records: two records with
      different paths never tie, so sorting has no ties to break. */
  lemma CmpEqualIff(a: TrackInfo, b: TrackInfo)
    ensures Cmp(a, b) == Equal <==> a == b
  {
    KeysAreComparators();
  }

  /** Swapping the arguments reverses the answer. */
  lemma CmpReverse(a: TrackInfo, b: TrackInfo)
    ensures Cmp(b, a) == Cmp(a, b).Reverse()
  {
    KeysAreComparators();
  }

  lemma CmpTransitive(a: TrackInfo, b: TrackInfo, c: TrackInfo)
    requires Cmp(a, b) == Less && Cmp(b, c) == Less
    ensures Cmp(a, c) == Less
  {
    KeysAreComparators();
  }

  /** Together: `cmp` is a strict total order on records, which is what
      `Ord` demands and what makes the sort well defined. */
  lemma CmpIsComparator()
    ensures IsComparator(Cmp)
  {
    forall a, b ensures Cmp(a, b) == Equal <==> a == b {
      CmpEqualIff(a, b);
    }
    forall a, b ensures Cmp(b, a) == Cmp(a, b).Reverse() {
      CmpReverse(a, b);
    }
    forall a, b, c | Cmp(a, b) == Less && Cmp(b, c) == Less ensures Cmp(a, c) == Less {
      CmpTransitive(a, b, c);
    }
  }

  /** The artist is the most significant key, and a record without an
      artist sorts before every record with one. */
  lemma ArtistDecides(a: TrackInfo, b: TrackInfo)
    requires a.artist != b.artist
    ensures Cmp(a, b) == CmpText(a.artist, b.artist)
    ensures a.artist.None? ==> Cmp(a, b) == Less
  {
    KeysAreComparators();
  }

  /** Below the artist the keys take their turn in the order album, track
      number, title, duration: the first one that differs decides alone,
      and a record missing that key sorts first. */
  lemma KeyPrecedence(a: TrackInfo, b: TrackInfo)
    ensures a.artist == b.artist && a.album != b.album ==>
      Cmp(a, b) == CmpText(a.album, b.album) && (a.album.None? ==> Cmp(a, b) == Less)
    ensures a.artist == b.artist && a.album == b.album && a.trackNumber != b.trackNumber ==>
      Cmp(a, b) == CmpNumber(a.trackNumber, b.trackNumber) && (a.trackNumber.None? ==> Cmp(a, b) == Less)
    ensures a.artist == b.artist && a.album == b.album && a.trackNumber == b.trackNumber && a.title != b.title ==>
      Cmp(a, b) == CmpText(a.title, b.title) && (a.title.None? ==> Cmp(a, b) == Less)
    ensures (a.artist == b.artist && a.album == b.album && a.trackNumber == b.trackNumber && a.title == b.title
             && a.durationInSecs != b.durationInSecs) ==>
      Cmp(a, b) == CmpNumber(a.durationInSecs, b.durationInSecs) && (a.durationInSecs.None? ==> Cmp(a, b) == Less)
  {
    KeysAreComparators();
  }

  /** The path is the least significant key: it decides only between
      records whose metadata all agree. */
  lemma PathDecidesLast(a: TrackInfo, b: TrackInfo)
    requires a.artist == b.artist && a.album == b.album && a.trackNumber == b.trackNumber
    requires a.title == b.title && a.durationInSecs == b.durationInSecs
    ensures Cmp(a, b) == CmpPath(a.path, b.path)
  {
    KeysAreComparators();
  }
}
