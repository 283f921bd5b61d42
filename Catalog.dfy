/** The Jellyfin catalog table TypedBaseItems, reduced to the columns the
    pipeline reads or writes, and the pieces of SQL whose meaning the model
    needs: the selections, the LIKE pattern of the playlist update and the
    SET clause of the two metadata updates. */
module Catalog {
  import opened Wrappers
  import opened Strings
  import opened Numbers
  import opened Paths

  const PLAYLIST_TYPE := "MediaBrowser.Controller.Playlists.Playlist"
  const ALBUM_TYPE := "MediaBrowser.Controller.Entities.Audio.MusicAlbum"
  const TRACK_TYPE := "MediaBrowser.Controller.Entities.Audio.Audio"
  const AUDIO_MEDIA := "Audio"

  /** A JSON value, as Qt's QJsonValue holds it (object keys are unordered). */
  datatype Json =
    | JNull
    | JBool(b: bool)
    | JNumber(n: int)
    | JString(s: string)
    | JArray(items: seq<Json>)
    | JObject(fields: map<string, Json>)

  /** The DateLastSaved of a playlist Jellyfin has never saved. */
  const NEVER_SAVED := "0001-01-01T00:00:00.0000000Z"

  /** The data column of a playlist whose track list was never filled: the
      object the program's EMPTY_PLAYLIST_BLOB holds. */
  const EMPTY_PLAYLIST: Json := JObject(map[
    "OwnerUserId" := JString("00000000000000000000000000000000"),
    "Shares" := JArray([]),
    "PlaylistMediaType" := JString("Audio"),
    "IsRoot" := JBool(false),
    "LinkedChildren" := JArray([]),
    "IsHD" := JBool(false),
    "IsShortcut" := JBool(false),
    "Width" := JNumber(0),
    "Height" := JNumber(0),
    "ExtraIds" := JArray([]),
    "DateLastSaved" := JString(NEVER_SAVED),
    "RemoteTrailers" := JArray([]),
    "SupportsExternalTransfer" := JBool(false)])

  /** One catalog row; `None` is SQL NULL. */
  datatype Row = Row(
    id: string,
    kind: string,
    path: Path,
    images: Option<string>,
    album: Option<string>,
    artists: Option<string>,
    albumArtists: Option<string>,
    indexNumber: Option<int>,
    data: Option<Json>,
    mediaType: Option<string>)

  type Table = seq<Row>

  /** The columns no update of the pipeline writes. */
  predicate SameIdentity(a: Row, b: Row)
  {
    a.id == b.id && a.kind == b.kind && a.path == b.path && a.mediaType == b.mediaType
  }

  /** The four selections the pipeline works through. */
  datatype Query =
    | PlaylistsMissingMetadata
    | AlbumsMissingMetadata
    | TracksMissingNumber
    | PlaylistsWithEmptyTracklist

  predicate Matches(q: Query, r: Row)
  {
    match q
    case PlaylistsMissingMetadata =>
      r.kind == PLAYLIST_TYPE && (r.images.None? || r.album.None? || r.artists.None?)
    case AlbumsMissingMetadata =>
      r.kind == ALBUM_TYPE && (r.images.None? || r.album.None? || r.artists.None?)
    case TracksMissingNumber =>
      r.kind == TRACK_TYPE && r.indexNumber.None?
    case PlaylistsWithEmptyTracklist =>
      r.kind == PLAYLIST_TYPE && r.data == Some(EMPTY_PLAYLIST)
  }

  /** SELECT * with the query's WHERE clause, in table order. */
  function Select(table: Table, q: Query): (s: seq<Row>)
    ensures |s| <= |table|
    ensures forall r :: r in s <==> r in table && Matches(q, r)
  {
    if table == [] then []
    else
      var rest := Select(table[..|table| - 1], q);
      var last := table[|table| - 1];
      assert table == table[..|table| - 1] + [last];
      if Matches(q, last) then rest + [last] else rest
  }

  /** A one-row table selects its row exactly when the row matches. */
  lemma SelectSingle(r: Row, q: Query)
    ensures Select([r], q) == if Matches(q, r) then [r] else []
  {
    assert [r][..0] == [];
  }

  /** SELECT COUNT(*) with the query's WHERE clause. */
  function Count(table: Table, q: Query): nat
  {
    |Select(table, q)|
  }

  /** Selections over tables that agree on the matching rows agree. */
  lemma {:induction false} SelectAppend(a: Table, b: Table, q: Query)
    ensures Select(a + b, q) == Select(a, q) + Select(b, q)
    decreases |b|
  {
    if b == [] {
      assert a + b == a;
    } else {
      var b' := b[..|b| - 1];
      assert (a + b)[..|a + b| - 1] == a + b';
      assert (a + b)[|a + b| - 1] == b[|b| - 1];
      SelectAppend(a, b', q);
    }
  }

  // ---- SQLite LIKE ----

  /** SQLite folds ASCII letters, and only those, when comparing with LIKE. */
  function FoldAscii(c: char): char
  {
    if 'A' <= c <= 'Z' then (c as int + 32) as char else c
  }

  /** `s LIKE pattern` without an ESCAPE clause: '%' matches any run of
      characters, '_' any one character, and everything else itself up to
      ASCII case. */
  predicate Like(pattern: string, s: string)
    decreases |pattern| + |s|
  {
    if pattern == [] then s == []
    else if pattern[0] == '%' then Like(pattern[1..], s) || (s != [] && Like(pattern, s[1..]))
    else s != [] && (pattern[0] == '_' || FoldAscii(pattern[0]) == FoldAscii(s[0])) && Like(pattern[1..], s[1..])
  }

  /** Equal up to ASCII case. */
  predicate FoldEqual(a: string, b: string)
  {
    |a| == |b| && forall i :: 0 <= i < |a| ==> FoldAscii(a[i]) == FoldAscii(b[i])
  }

  lemma {:induction false} LikeAnything(s: string)
    ensures Like("%", s)
    decreases |s|
  {
    if s != [] {
      LikeAnything(s[1..]);
    }
  }

  /** A pattern `literal%` whose literal holds no wildcard matches exactly the
      texts that begin with the literal, ignoring ASCII case. */
  lemma {:induction false} LikePrefix(literal: string, s: string)
    requires '%' !in literal && '_' !in literal
    ensures Like(literal + "%", s) <==> |literal| <= |s| && FoldEqual(literal, s[..|literal|])
    decreases |literal|
  {
    if literal == [] {
      assert literal + "%" == "%";
      LikeAnything(s);
    } else {
      var pattern := literal + "%";
      assert pattern[0] == literal[0] && pattern[1..] == literal[1..] + "%";
      if s != [] {
        LikePrefix(literal[1..], s[1..]);
        if |literal| <= |s| {
          var a, b := literal, s[..|literal|];
          assert b[1..] == s[1..][..|literal[1..]|];
          assert FoldEqual(a, b) <==> FoldAscii(a[0]) == FoldAscii(b[0]) && FoldEqual(a[1..], b[1..]) by {
            if FoldAscii(a[0]) == FoldAscii(b[0]) && FoldEqual(a[1..], b[1..]) {
              forall i | 0 <= i < |a| ensures FoldAscii(a[i]) == FoldAscii(b[i]) {
                if i > 0 {
                  assert a[i] == a[1..][i - 1] && b[i] == b[1..][i - 1];
                }
              }
            }
          }
        }
      }
    }
  }

  /** The pattern of the playlist update, for a directory: every path below it. */
  function BelowPattern(dir: Path): string
  {
    Render(dir) + PATH_SEPARATOR + "%"
  }

  /** Without wildcards in the directory's text, the pattern selects the
      paths whose text starts with the directory and a separator, up to ASCII
      case. */
  lemma BelowPatternIsPrefix(dir: Path, s: string)
    requires '%' !in Render(dir) && '_' !in Render(dir)
    ensures var prefix := Render(dir) + PATH_SEPARATOR;
      Like(BelowPattern(dir), s) <==> |prefix| <= |s| && FoldEqual(prefix, s[..|prefix|])
  {
    var prefix := Render(dir) + PATH_SEPARATOR;
    assert BelowPattern(dir) == prefix + "%";
    assert '%' !in prefix && '_' !in prefix;
    LikePrefix(prefix, s);
  }

  // ---- the SET clause of the playlist and album updates ----

  const ARTISTS_PART := "Artists = :artist, AlbumArtists=:artist, Album = :album,"
  const IMAGES_PART := "Images = :image"

  /** The assignment list as the program assembles it. */
  function SetClause(artists: bool, images: bool): string
  {
    (if artists then ARTISTS_PART else "") + " " + (if images then IMAGES_PART else "")
  }

  /** The last character of a text that is not white space. */
  function LastNonSpace(s: string): (r: Option<char>)
    ensures r.Some? ==> r.value in s && !IsSpace(r.value)
    ensures r.None? ==> forall i :: 0 <= i < |s| ==> IsSpace(s[i])
    decreases |s|
  {
    if s == [] then None
    else if IsSpace(s[|s| - 1]) then LastNonSpace(s[..|s| - 1])
    else Some(s[|s| - 1])
  }

  /** What SQLite accepts after SET, as far as the clause's shape decides it:
      at least one assignment, and no comma left hanging at the end. */
  predicate AcceptedAssignments(clause: string)
  {
    var last := LastNonSpace(clause);
    last.Some? && last.value != ','
  }

  /** The update statements built from the clause compile exactly when images
      are processed: with artists alone the clause ends in a comma, and with
      neither it is empty. */
  lemma SetClauseAccepted(artists: bool, images: bool)
    ensures AcceptedAssignments(SetClause(artists, images)) <==> images
  {
    var clause := SetClause(artists, images);
    if images {
      assert clause[|clause| - 1] == 'e';
    } else if artists {
      assert clause == ARTISTS_PART + " ";
      assert clause[..|clause| - 1] == ARTISTS_PART;
      assert ARTISTS_PART[|ARTISTS_PART| - 1] == ',';
      assert IsSpace(clause[|clause| - 1]);
      assert LastNonSpace(clause) == LastNonSpace(ARTISTS_PART);
      assert LastNonSpace(ARTISTS_PART) == Some(',');
    } else {
      assert clause == " ";
      assert clause[..0] == [];
    }
  }

  /** The assignments the evidently intended clause lists. */
  function Assignments(artists: bool, images: bool): seq<string>
  {
    (if artists then ["Artists = :artist", "AlbumArtists=:artist", "Album = :album"] else [])
    + (if images then ["Images = :image"] else [])
  }

  /** The clause joined with commas from the assignments that are present. */
  function SetClauseJoined(artists: bool, images: bool): string
  {
    Join(Assignments(artists, images), ", ")
  }

  /** The joined clause compiles whenever there is something to set. */
  lemma SetClauseJoinedAccepted(artists: bool, images: bool)
    ensures AcceptedAssignments(SetClauseJoined(artists, images)) <==> artists || images
  {
    var clause := SetClauseJoined(artists, images);
    if images {
      JoinEndsWith(Assignments(artists, images), ", ");
      assert clause[|clause| - 1] == 'e';
    } else if artists {
      JoinEndsWith(Assignments(artists, images), ", ");
      assert clause[|clause| - 1] == 'm';
    } else {
      assert clause == "";
    }
  }

  /** A join of a non-empty list ends with its last element. */
  lemma {:induction false} JoinEndsWith(parts: seq<string>, sep: string)
    requires |parts| > 0
    ensures var j := Join(parts, sep); var e := parts[|parts| - 1];
      |e| <= |j| && j[|j| - |e|..] == e
    decreases |parts|
  {
    if |parts| > 1 {
      JoinEndsWith(parts[1..], sep);
      assert parts[1..][|parts[1..]| - 1] == parts[|parts| - 1];
    }
  }

  /** The columns a metadata update writes: the artist columns and the album
      under `artists`, the image under `images`. */
  function AssignMetadata(r: Row, artists: bool, images: bool, artist: string, album: string, image: string): (u: Row)
    ensures SameIdentity(u, r) && u.indexNumber == r.indexNumber && u.data == r.data
    ensures artists ==> u.artists == Some(artist) && u.albumArtists == Some(artist) && u.album == Some(album)
    ensures !artists ==> u.artists == r.artists && u.albumArtists == r.albumArtists && u.album == r.album
    ensures u.images == (if images then Some(image) else r.images)
  {
    r.(artists := if artists then Some(artist) else r.artists,
       albumArtists := if artists then Some(artist) else r.albumArtists,
       album := if artists then Some(album) else r.album,
       images := if images then Some(image) else r.images)
  }

  // ---- the track list payload ----

  /** One entry of LinkedChildren: the track's file name, "Manual", its id. */
  function TrackObject(track: Path, id: string): Json
  {
    JObject(map["Path" := JString(FileName(track)), "Type" := JString("Manual"), "ItemId" := JString(id)])
  }

  function LinkedChildren(tracks: seq<Path>, ids: seq<string>): (r: seq<Json>)
    requires |ids| >= |tracks|
    ensures |r| == |tracks|
    ensures forall i :: 0 <= i < |tracks| ==> r[i] == TrackObject(tracks[i], ids[i])
  {
    if tracks == [] then []
    else LinkedChildren(tracks[..|tracks| - 1], ids) + [TrackObject(tracks[|tracks| - 1], ids[|tracks| - 1])]
  }

  /** The data written for a playlist: the empty playlist object with its
      LinkedChildren replaced by the tracks and DateLastSaved by `savedAt`. */
  function TracklistDocument(tracks: seq<Path>, ids: seq<string>, savedAt: string): Json
    requires |ids| >= |tracks|
  {
    JObject(EMPTY_PLAYLIST.fields["LinkedChildren" := JArray(LinkedChildren(tracks, ids))]
                                 ["DateLastSaved" := JString(savedAt)])
  }

  /** The document keeps every other field of the empty playlist, saves
      `savedAt`, and links one entry per track with its id. */
  lemma TracklistDocumentFields(tracks: seq<Path>, ids: seq<string>, savedAt: string)
    requires |ids| >= |tracks|
    ensures var d := TracklistDocument(tracks, ids, savedAt);
      d.JObject? && d.fields.Keys == EMPTY_PLAYLIST.fields.Keys
      && (forall k :: k in d.fields && k != "LinkedChildren" && k != "DateLastSaved" ==>
            d.fields[k] == EMPTY_PLAYLIST.fields[k])
      && d.fields["DateLastSaved"] == JString(savedAt)
      && var children := d.fields["LinkedChildren"];
      children.JArray? && |children.items| == |tracks|
      && forall i :: 0 <= i < |tracks| ==>
        children.items[i] == JObject(map["Path" := JString(FileName(tracks[i])), "Type" := JString("Manual"),
                                         "ItemId" := JString(ids[i])])
  {
  }

  /** A written track list still reads as the empty sentinel only when it
      has no tracks and the save date is the sentinel's own. */
  lemma TracklistDocumentIsEmpty(tracks: seq<Path>, ids: seq<string>, savedAt: string)
    requires |ids| >= |tracks|
    ensures TracklistDocument(tracks, ids, savedAt) == EMPTY_PLAYLIST <==> tracks == [] && savedAt == NEVER_SAVED
  {
    var d := TracklistDocument(tracks, ids, savedAt);
    TracklistDocumentFields(tracks, ids, savedAt);
    if d == EMPTY_PLAYLIST {
      assert d.fields["DateLastSaved"] == JString(NEVER_SAVED);
      assert |d.fields["LinkedChildren"].items| == 0;
    }
  }
}
