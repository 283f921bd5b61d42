/** Naming heuristics: artist and album from "<Artist> - <Album>" folder and
    file names, and track numbers from "<number> - <Title>" file names. */
module Naming {
  import opened Wrappers
  import opened Strings
  import opened Numbers
  import opened Paths

  const SEPARATOR := " - "
  const UNKNOWN_ARTIST := "Unknown"

  /** artistAndAlbumMetadata: the text before the first " - " is the artist,
      everything after it (later separators included) is the album; a text
      without the separator gives two empty strings. */
  function ArtistAndAlbum(text: string): (r: (string, string))
    ensures Find(text, SEPARATOR).None? ==> r == ("", "")
    ensures Find(text, SEPARATOR).Some? ==>
      var k := Find(text, SEPARATOR).value;
      r == (text[..k], text[k + |SEPARATOR|..])
  {
    SplitHead(text, SEPARATOR);
    var parts := Split(text, SEPARATOR);
    if |parts| > 1 then
      var k := Find(text, SEPARATOR).value;
      JoinSplit(text[k + |SEPARATOR|..], SEPARATOR);
      (parts[0], Join(parts[1..], SEPARATOR))
    else ("", "")
  }

  /** When the separator occurs, artist, separator and album rebuild the
      text, and the artist holds no separator. */
  lemma ArtistAndAlbumRejoins(text: string)
    ensures Contains(text, SEPARATOR) ==>
      ArtistAndAlbum(text).0 + SEPARATOR + ArtistAndAlbum(text).1 == text &&
      !Contains(ArtistAndAlbum(text).0, SEPARATOR)
  {
    if Contains(text, SEPARATOR) {
      var k := Find(text, SEPARATOR).value;
      Around(text, k, |SEPARATOR|);
      PrefixFree(text, SEPARATOR, k);
    }
  }

  /** "A - B" gives (A, B), and "A - B - C" gives (A, "B - C"). */
  lemma ArtistAndAlbumOf(artist: string, album: string)
    requires !Contains(artist + " -", SEPARATOR)
    ensures ArtistAndAlbum(artist + SEPARATOR + album) == (artist, album)
  {
    assert SEPARATOR[..2] == " -";
    FindAfter(artist, SEPARATOR, album);
    var text := artist + SEPARATOR + album;
    assert text[..|artist|] == artist;
    assert text[|artist| + 3..] == album;
  }

  /** The two results that the code treats as "no metadata". */
  lemma ArtistAndAlbumEmpty(text: string)
    ensures ArtistAndAlbum(text) == ("", "") <==> !Contains(text, SEPARATOR) || text == SEPARATOR
  {
    ArtistAndAlbumRejoins(text);
  }

  /** The playlist generator's metadata: the parent folder's stem first, the
      playlist file's stem when the folder gives nothing, and "Unknown" with
      the file stem when the chosen pair has an empty half. */
  function PlaylistMetadata(path: Path): (r: (string, string))
    ensures r.0 != ""
    ensures r == (UNKNOWN_ARTIST, Stem(path)) ||
            (r.1 != "" && (r.0 + SEPARATOR + r.1 == Stem(Parent(path)) ||
                           r.0 + SEPARATOR + r.1 == Stem(path)))
  {
    var fromFolder := ArtistAndAlbum(Stem(Parent(path)));
    var metadata := if fromFolder == ("", "") then ArtistAndAlbum(Stem(path)) else fromFolder;
    if metadata.0 == "" || metadata.1 == "" then (UNKNOWN_ARTIST, Stem(path))
    else
      ArtistAndAlbumRejoins(Stem(Parent(path)));
      ArtistAndAlbumRejoins(Stem(path));
      ArtistAndAlbumEmpty(Stem(Parent(path)));
      metadata
  }

  /** A folder named "<Artist> - <Album>" decides, whatever the file is called. */
  lemma PlaylistMetadataFromFolder(path: Path, artist: string, album: string)
    requires Stem(Parent(path)) == artist + SEPARATOR + album
    requires artist != "" && album != "" && !Contains(artist + " -", SEPARATOR)
    ensures PlaylistMetadata(path) == (artist, album)
  {
    ArtistAndAlbumOf(artist, album);
  }

  /** Without a separator in the folder name, the file name decides. */
  lemma PlaylistMetadataFromFile(path: Path, artist: string, album: string)
    requires !Contains(Stem(Parent(path)), SEPARATOR)
    requires Stem(path) == artist + SEPARATOR + album
    requires artist != "" && album != "" && !Contains(artist + " -", SEPARATOR)
    ensures PlaylistMetadata(path) == (artist, album)
  {
    ArtistAndAlbumOf(artist, album);
  }

  /** With a separator in neither name, the artist is "Unknown" and the
      album is the file stem. */
  lemma PlaylistMetadataUnknown(path: Path)
    requires !Contains(Stem(Parent(path)), SEPARATOR) && !Contains(Stem(path), SEPARATOR)
    ensures PlaylistMetadata(path) == (UNKNOWN_ARTIST, Stem(path))
  {
  }

  /** A folder named "<Artist> - " is not retried with the file name: its
      empty album sends the playlist to the "Unknown" fallback. */
  lemma PlaylistMetadataHalfNamedFolder(path: Path, artist: string)
    requires Stem(Parent(path)) == artist + SEPARATOR
    requires artist != "" && !Contains(artist + " -", SEPARATOR)
    ensures PlaylistMetadata(path) == (UNKNOWN_ARTIST, Stem(path))
  {
    ArtistAndAlbumOf(artist, "");
    assert artist + SEPARATOR + "" == artist + SEPARATOR;
  }

  /** The album generator's metadata when no playlist operation covers the
      folder: the folder stem, or "Unknown" with the stem. Unlike the
      playlist rule, a pair with one empty half is kept. */
  function AlbumMetadata(albumPath: Path): (r: (string, string))
    ensures Contains(Stem(albumPath), SEPARATOR) && Stem(albumPath) != SEPARATOR ==>
      r.0 + SEPARATOR + r.1 == Stem(albumPath)
    ensures !Contains(Stem(albumPath), SEPARATOR) ==> r == (UNKNOWN_ARTIST, Stem(albumPath))
  {
    var metadata := ArtistAndAlbum(Stem(albumPath));
    ArtistAndAlbumEmpty(Stem(albumPath));
    ArtistAndAlbumRejoins(Stem(albumPath));
    if metadata != ("", "") then metadata else (UNKNOWN_ARTIST, Stem(albumPath))
  }

  /** How a track's file stem gives its number. */
  datatype TrackNumberRule =
    | SplitError          // fewer than two " - " separated parts: no operation
    | Number(n: int)      // the number is read from the name
    | CountSiblings       // disc other than "1": position among the .mp3 files

  /** The rule of the track-number generator for a file stem. */
  function TrackRule(stem: string): (r: TrackNumberRule)
    ensures r.SplitError? <==> !Contains(stem, SEPARATOR)
    ensures Contains(stem, SEPARATOR) && !Contains(stem[..Find(stem, SEPARATOR).value], "-") ==>
      r == Number(ToInt(stem[..Find(stem, SEPARATOR).value]))
  {
    SplitHead(stem, SEPARATOR);
    var parts := Split(stem, SEPARATOR);
    if |parts| < 2 then SplitError
    else
      var numberPart := parts[0];
      SplitHead(numberPart, "-");
      var diskParts := Split(numberPart, "-");
      if |diskParts| > 1 then
        if diskParts[0] == "1" then Number(ToInt(diskParts[1])) else CountSiblings
      else Number(ToInt(numberPart))
  }

  /** A number part without spaces is the first part of "<part> - <title>". */
  lemma NumberPart(numberPart: string, title: string)
    requires ' ' !in numberPart
    ensures Split(numberPart + SEPARATOR + title, SEPARATOR) ==
      [numberPart] + Split(title, SEPARATOR)
  {
    NoOccurrenceBefore(numberPart, SEPARATOR);
    SplitAfter(numberPart, SEPARATOR, title);
  }

  /** A disc without '-' is the first part of "<disc>-<number>", and a
      number without '-' is the second and last. */
  lemma DiscParts(disc: string, number: string)
    requires '-' !in disc
    ensures Split(disc + "-" + number, "-") == [disc] + Split(number, "-")
    ensures '-' !in number ==> Split(number, "-") == [number]
  {
    NoOccurrenceBefore(disc, "-");
    SplitAfter(disc, "-", number);
    if '-' !in number {
      NoCharNoOccurrence(number, '-');
      assert !Contains(number, "-");
    }
  }

  /** Decimal digits hold neither a space nor a '-'. */
  lemma DigitsNoSpace(s: string)
    requires AllDigits(s)
    ensures ' ' !in s && '-' !in s
  {
    assert forall i :: 0 <= i < |s| ==> IsDigit(s[i]);
  }

  /** "NN - Title" gives NN. */
  lemma TrackRulePlain(n: nat, title: string)
    requires n <= INT_MAX
    ensures TrackRule(NatToString(n) + SEPARATOR + title) == Number(n)
  {
    var digits := NatToString(n);
    DigitsNoSpace(digits);
    NumberPart(digits, title);
    NoCharNoOccurrence(digits, '-');
    assert Split(digits, "-") == [digits];
    ToIntOfIntToString(n);
  }

  /** "1-NN - Title" gives NN, zero padded or not. */
  lemma TrackRuleFirstDisc(number: string, n: nat, title: string)
    requires number == NatToString(n) || number == "0" + NatToString(n)
    requires n <= INT_MAX
    ensures TrackRule("1-" + number + SEPARATOR + title) == Number(n)
  {
    if number == NatToString(n) {
      ToIntOfIntToString(n);
    } else {
      ToIntZeroPadded(n);
      LeadingZero(NatToString(n));
    }
    DigitsNoSpace(number);
    DiscRule("1", number, title);
    FirstDiscPrefix(number);
  }

  lemma FirstDiscPrefix(number: string)
    ensures "1-" + number == "1" + "-" + number
  {
    assert "1-" == "1" + "-";
  }

  /** "D-NN - Title": disc "1" reads the number, any other disc counts
      the siblings. */
  lemma DiscRule(disc: string, number: string, title: string)
    requires '-' !in disc && ' ' !in disc && ' ' !in number
    ensures TrackRule(disc + "-" + number + SEPARATOR + title) ==
      if disc != "1" then CountSiblings
      else if '-' in number then Number(ToInt(Split(number, "-")[0]))
      else Number(ToInt(number))
  {
    var numberPart := disc + "-" + number;
    NumberPart(numberPart, title);
    DiscParts(disc, number);
  }

  /** "D-NN - Title" with a disc D other than "1" counts the siblings. */
  lemma TrackRuleLaterDisc(disc: string, number: string, title: string)
    requires disc != "1" && '-' !in disc && ' ' !in disc && ' ' !in number
    ensures TrackRule(disc + "-" + number + SEPARATOR + title) == CountSiblings
  {
    DiscRule(disc, number, title);
  }

  /** path::extension() == ".mp3", in the closed form of
      Mp3IsExtension. */
  predicate IsMp3(name: string)
  {
    |name| > 4 && name[|name| - 4..] == ".mp3"
  }

  /** A name is an .mp3 exactly when its extension is ".mp3": its last dot
      is then four from the end and not the first character. */
  lemma Mp3IsExtension(name: string)
    ensures IsMp3(name) <==> ExtensionOf(name) == ".mp3"
  {
    LastIndexOfIsLast(name, '.');
    if IsMp3(name) {
      var d := |name| - 4;
      assert name[d] == '.' && name[d + 1] == 'm' && name[d + 2] == 'p' && name[d + 3] == '3' by {
        assert name[d..][0] == name[d];
      }
      assert name != "." && name != "..";
      assert LastIndexOf(name, '.') == Some(d);
    }
    if ExtensionOf(name) == ".mp3" {
      var i := ExtensionDot(name).value;
      assert name[i..] == ".mp3";
    }
  }

  /** The .mp3 names of a directory listing. */
  function Mp3Names(names: seq<string>): set<string>
  {
    set n | n in names && IsMp3(n)
  }

  /** The .mp3 names of a listing that sort before `bound`. */
  function Mp3NamesBefore(names: seq<string>, bound: string): set<string>
  {
    set n | n in names && IsMp3(n) && Less(n, bound)
  }

  /** The number given to a track of a later disc: 1 plus the .mp3 files of
      its directory that sort before it, or 1 plus all of them when the walk
      never meets the track (not listed, or not an .mp3 itself). */
  function TrackPosition(dir: Path, names: seq<string>, track: Path): nat
  {
    if Parent(track) == dir && |track| > 0 && FileName(track) in names && IsMp3(FileName(track))
    then 1 + |Mp3NamesBefore(names, FileName(track))|
    else 1 + |Mp3Names(names)|
  }
}
