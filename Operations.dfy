/** The operations the pipeline plans and the reference definitions of what
    each generator produces and each update does to the catalog. */
module Operations {
  import opened Wrappers
  import opened Strings
  import opened Numbers
  import opened Paths
  import opened Naming
  import opened Files
  import opened Cover
  import opened Catalog

  /** The options chosen in the dialog. */
  datatype Config = Config(
    processPlaylistImages: bool,
    processTracksArtists: bool,
    processPlaylistTracklist: bool,
    processTracksNumbers: bool,
    processAlbums: bool,
    imageName: string)

  /** What the pipeline consults outside the database. */
  datatype Environment = Environment(fs: FileSystem, encode: Encoder)

  /** Cover and names for the tracks of a playlist's folder, or for an album. */
  datatype PlaylistImageOp = PlaylistImageOp(path: Path, imageData: string, artist: string, album: string)

  datatype TrackNumberOp = TrackNumberOp(path: Path, trackNum: int)

  /** A playlist, the .mp3 files of its folder, and their catalog ids. */
  datatype PlaylistTracksOp = PlaylistTracksOp(path: Path, tracks: seq<Path>, trackIds: seq<string>)

  // ---- folding the per-row results of a generator ----

  /** The operations of a generator, row by row, stopping at the first
      exception. */
  function Gather<T>(steps: seq<Result<seq<T>>>): Result<seq<T>>
    decreases |steps|
  {
    if steps == [] then Ok([])
    else
      var init :- Gather(steps[..|steps| - 1]);
      var last :- steps[|steps| - 1];
      Ok(init + last)
  }

  lemma GatherStep<T>(steps: seq<Result<seq<T>>>, i: nat)
    requires i < |steps|
    ensures Gather(steps[..i + 1]) ==
      match Gather(steps[..i])
      case Exception(e) => Exception(e)
      case Ok(init) =>
        match steps[i]
        case Exception(e) => Exception(e)
        case Ok(last) => Ok(init + last)
  {
    assert steps[..i + 1][..i] == steps[..i];
  }

  /** A single step is the whole fold. */
  lemma GatherOne<T>(step: Result<seq<T>>)
    ensures Gather([step]) == step
  {
    assert [step][..0] == [];
    if step.Ok? {
      assert [] + step.value == step.value;
    }
  }

  /** An exception ends the fold. */
  lemma {:induction false} GatherSticky<T>(steps: seq<Result<seq<T>>>, k: nat)
    requires k <= |steps| && Gather(steps[..k]).Exception?
    ensures Gather(steps) == Gather(steps[..k])
    decreases |steps| - k
  {
    if k < |steps| {
      GatherStep(steps, k);
      GatherSticky(steps, k + 1);
    } else {
      assert steps[..k] == steps;
    }
  }

  /** One more step of the fold: a successful step appends its operations,
      and an exception is the result of the whole fold. */
  lemma GatherNext<T>(steps: seq<Result<seq<T>>>, i: nat, done: seq<T>)
    requires i < |steps| && Gather(steps[..i]) == Ok(done)
    ensures steps[i].Ok? ==> Gather(steps[..i + 1]) == Ok(done + steps[i].value)
    ensures steps[i].Exception? ==> Gather(steps) == Exception(steps[i].what)
  {
    GatherStep(steps, i);
    if steps[i].Exception? {
      GatherSticky(steps, i + 1);
    }
  }

  /** A successful fold took every step, and holds exactly their operations. */
  lemma {:induction false} GatherMembers<T>(steps: seq<Result<seq<T>>>)
    ensures Gather(steps).Ok? ==> forall i :: 0 <= i < |steps| ==> steps[i].Ok?
    ensures Gather(steps).Ok? ==> forall x :: x in Gather(steps).value <==>
      exists i :: 0 <= i < |steps| && steps[i].Ok? && x in steps[i].value
    decreases |steps|
  {
    if steps != [] && Gather(steps).Ok? {
      var init := steps[..|steps| - 1];
      GatherMembers(init);
      assert forall i :: 0 <= i < |init| ==> init[i] == steps[i];
    }
  }

  /** What one step makes is part of the gathered result. */
  lemma GatherHas<T>(steps: seq<Result<seq<T>>>, j: nat)
    requires j < |steps| && Gather(steps).Ok?
    ensures steps[j].Ok? && forall x :: x in steps[j].value ==> x in Gather(steps).value
  {
    GatherMembers(steps);
  }

  /** Steps of at most one operation give at most one operation per row. */
  lemma {:induction false} GatherAtMostOne<T>(steps: seq<Result<seq<T>>>)
    requires forall i :: 0 <= i < |steps| && steps[i].Ok? ==> |steps[i].value| <= 1
    ensures Gather(steps).Ok? ==> |Gather(steps).value| <= |steps|
    decreases |steps|
  {
    if steps != [] {
      GatherAtMostOne(steps[..|steps| - 1]);
    }
  }

  /** Steps of exactly one operation give one operation per row, in order. */
  lemma {:induction false} GatherSingletons<T>(steps: seq<Result<seq<T>>>)
    requires forall i :: 0 <= i < |steps| && steps[i].Ok? ==> |steps[i].value| == 1
    ensures Gather(steps).Ok? ==>
      (|Gather(steps).value| == |steps|
       && forall i :: 0 <= i < |steps| ==> steps[i].Ok? && Gather(steps).value[i] == steps[i].value[0])
    decreases |steps|
  {
    if steps != [] && Gather(steps).Ok? {
      var init := steps[..|steps| - 1];
      assert forall i :: 0 <= i < |init| ==> init[i] == steps[i];
      GatherSingletons(init);
    }
  }

  /** Steps that yield nothing yield nothing. */
  lemma {:induction false} GatherNothing<T>(steps: seq<Result<seq<T>>>)
    requires forall i :: 0 <= i < |steps| ==> steps[i] == Ok([])
    ensures Gather(steps) == Ok([])
    decreases |steps|
  {
    if steps != [] {
      var init := steps[..|steps| - 1];
      assert forall i :: 0 <= i < |init| ==> init[i] == steps[i];
      GatherNothing(init);
      assert steps[|steps| - 1] == Ok([]);
      assert Gather(init) == Ok([]);
      var none: seq<T> := [];
      assert none + none == none;
    }
  }

  /** The step of each row, in order. */
  function Steps<R, T>(step: R -> Result<seq<T>>, rows: seq<R>): (s: seq<Result<seq<T>>>)
    ensures |s| == |rows|
    decreases |rows|
  {
    if rows == [] then [] else Steps(step, rows[..|rows| - 1]) + [step(rows[|rows| - 1])]
  }

  lemma {:induction false} StepsAt<R, T>(step: R -> Result<seq<T>>, rows: seq<R>, i: nat)
    requires i < |rows|
    ensures Steps(step, rows)[i] == step(rows[i])
    decreases |rows|
  {
    var init := rows[..|rows| - 1];
    if i < |init| {
      StepsAt(step, init, i);
      assert init[i] == rows[i];
    }
  }

  lemma StepsAtMostOne<R, T>(step: R -> Result<seq<T>>, rows: seq<R>)
    requires forall r :: step(r).Ok? ==> |step(r).value| <= 1
    ensures forall i :: 0 <= i < |rows| && Steps(step, rows)[i].Ok? ==> |Steps(step, rows)[i].value| <= 1
  {
    forall i | 0 <= i < |rows| {
      StepsAt(step, rows, i);
    }
  }

  lemma StepsExactlyOne<R, T>(step: R -> Result<seq<T>>, rows: seq<R>)
    requires forall r :: step(r).Ok? ==> |step(r).value| == 1
    ensures forall i :: 0 <= i < |rows| && Steps(step, rows)[i].Ok? ==> |Steps(step, rows)[i].value| == 1
  {
    forall i | 0 <= i < |rows| {
      StepsAt(step, rows, i);
    }
  }

  // ---- generatePlaylistImageOperations ----

  /** One playlist row: nothing when the playlist file is gone, otherwise the
      cover of its folder and the names derived from folder or file. */
  function PlaylistImageStep(env: Environment, cfg: Config, row: Row): (r: Result<seq<PlaylistImageOp>>)
    ensures r.Ok? ==> |r.value| <= 1
  {
    if !env.fs.present(row.path) then Ok([])
    else
      var imageData :- CoverDescriptor(env.fs, env.encode, cfg.imageName, Parent(row.path));
      var names := PlaylistMetadata(row.path);
      Ok([PlaylistImageOp(row.path, imageData, names.0, names.1)])
  }

  function PlaylistImageStepOf(env: Environment, cfg: Config): Row -> Result<seq<PlaylistImageOp>>
  {
    row => PlaylistImageStep(env, cfg, row)
  }

  /** The steps of the rows, in order. */
  function PlaylistImageSteps(env: Environment, cfg: Config, rows: seq<Row>): (s: seq<Result<seq<PlaylistImageOp>>>)
    ensures |s| == |rows|
    ensures forall i :: 0 <= i < |s| && s[i].Ok? ==> |s[i].value| <= 1
  {
    StepsAtMostOne(PlaylistImageStepOf(env, cfg), rows);
    Steps(PlaylistImageStepOf(env, cfg), rows)
  }

  lemma PlaylistImageStepsAt(env: Environment, cfg: Config, rows: seq<Row>, i: nat)
    requires i < |rows|
    ensures PlaylistImageSteps(env, cfg, rows)[i] == PlaylistImageStep(env, cfg, rows[i])
  {
    StepsAt(PlaylistImageStepOf(env, cfg), rows, i);
  }

  function GeneratePlaylistImages(env: Environment, cfg: Config, table: Table): Result<seq<PlaylistImageOp>>
  {
    if !cfg.processPlaylistImages then Ok([])
    else Gather(PlaylistImageSteps(env, cfg, Select(table, PlaylistsMissingMetadata)))
  }

  /** Every planned playlist operation belongs to a selected playlist whose
      file exists, carries the cover of its folder and the names its folder
      or file give; there is at most one per selected row. */
  lemma PlaylistImageOpsFacts(env: Environment, cfg: Config, table: Table)
    requires GeneratePlaylistImages(env, cfg, table).Ok?
    ensures var ops := GeneratePlaylistImages(env, cfg, table).value;
      var rows := Select(table, PlaylistsMissingMetadata);
      (cfg.processPlaylistImages ==> |ops| <= |rows|) && (!cfg.processPlaylistImages ==> ops == [])
      && forall op :: op in ops ==>
        (exists i :: 0 <= i < |rows| && rows[i].path == op.path)
        && env.fs.present(op.path)
        && (op.artist, op.album) == PlaylistMetadata(op.path)
        && CoverDescriptor(env.fs, env.encode, cfg.imageName, Parent(op.path)) == Ok(op.imageData)
  {
    if cfg.processPlaylistImages {
      var rows := Select(table, PlaylistsMissingMetadata);
      var steps := PlaylistImageSteps(env, cfg, rows);
      GatherAtMostOne(steps);
      GatherMembers(steps);
      var ops := GeneratePlaylistImages(env, cfg, table).value;
      forall op | op in ops
        ensures (exists i :: 0 <= i < |rows| && rows[i].path == op.path)
          && env.fs.present(op.path)
          && (op.artist, op.album) == PlaylistMetadata(op.path)
          && CoverDescriptor(env.fs, env.encode, cfg.imageName, Parent(op.path)) == Ok(op.imageData)
      {
        var i :| 0 <= i < |steps| && steps[i].Ok? && op in steps[i].value;
        PlaylistImageStepsAt(env, cfg, rows, i);
      }
    }
  }

  // ---- generateAlbumsOperationsData ----

  /** The first playlist operation whose playlist lies directly in `dir`. */
  function CoveringOp(ops: seq<PlaylistImageOp>, dir: Path): (r: Option<nat>)
    ensures r.Some? ==> r.value < |ops| && Parent(ops[r.value].path) == dir
    ensures forall k :: 0 <= k < |ops| && (r.None? || k < r.value) ==> Parent(ops[k].path) != dir
    decreases |ops|
  {
    if ops == [] then None
    else if Parent(ops[0].path) == dir then Some(0)
    else
      match CoveringOp(ops[1..], dir)
      case None => None
      case Some(k) => Some(k + 1)
  }

  /** One album row: the data of a playlist of that folder when there is one,
      otherwise names from the folder and the folder's own cover. */
  function AlbumStep(env: Environment, cfg: Config, playlistOps: seq<PlaylistImageOp>, row: Row): (r: Result<seq<PlaylistImageOp>>)
    ensures r.Ok? ==> |r.value| == 1
  {
    match CoveringOp(playlistOps, row.path)
    case Some(k) =>
      var op := playlistOps[k];
      Ok([PlaylistImageOp(row.path, op.imageData, op.artist, op.album)])
    case None =>
      var names := AlbumMetadata(row.path);
      var imageData :- CoverDescriptor(env.fs, env.encode, cfg.imageName, row.path);
      Ok([PlaylistImageOp(row.path, imageData, names.0, names.1)])
  }

  function AlbumStepOf(env: Environment, cfg: Config, playlistOps: seq<PlaylistImageOp>): Row -> Result<seq<PlaylistImageOp>>
  {
    row => AlbumStep(env, cfg, playlistOps, row)
  }

  function AlbumSteps(env: Environment, cfg: Config, playlistOps: seq<PlaylistImageOp>, rows: seq<Row>): (s: seq<Result<seq<PlaylistImageOp>>>)
    ensures |s| == |rows|
    ensures forall i :: 0 <= i < |s| && s[i].Ok? ==> |s[i].value| == 1
  {
    StepsExactlyOne(AlbumStepOf(env, cfg, playlistOps), rows);
    Steps(AlbumStepOf(env, cfg, playlistOps), rows)
  }

  lemma AlbumStepsAt(env: Environment, cfg: Config, playlistOps: seq<PlaylistImageOp>, rows: seq<Row>, i: nat)
    requires i < |rows|
    ensures AlbumSteps(env, cfg, playlistOps, rows)[i] == AlbumStep(env, cfg, playlistOps, rows[i])
  {
    StepsAt(AlbumStepOf(env, cfg, playlistOps), rows, i);
  }

  function GenerateAlbums(env: Environment, cfg: Config, playlistOps: seq<PlaylistImageOp>, table: Table): Result<seq<PlaylistImageOp>>
  {
    if !cfg.processAlbums then Ok([])
    else Gather(AlbumSteps(env, cfg, playlistOps, Select(table, AlbumsMissingMetadata)))
  }

  /** The album operation planned for `row`: a copy of the first playlist
      operation of that folder when there is one, otherwise the album's names
      and its own cover. */
  predicate AlbumOpFor(env: Environment, cfg: Config, playlistOps: seq<PlaylistImageOp>, row: Row, op: PlaylistImageOp)
  {
    op.path == row.path
    && (CoveringOp(playlistOps, row.path).Some? ==>
         var p := playlistOps[CoveringOp(playlistOps, row.path).value];
         (op.imageData, op.artist, op.album) == (p.imageData, p.artist, p.album))
    && (CoveringOp(playlistOps, row.path).None? ==>
         (op.artist, op.album) == AlbumMetadata(row.path)
         && CoverDescriptor(env.fs, env.encode, cfg.imageName, row.path) == Ok(op.imageData))
  }

  lemma AlbumStepFor(env: Environment, cfg: Config, playlistOps: seq<PlaylistImageOp>, row: Row)
    ensures AlbumStep(env, cfg, playlistOps, row).Ok? ==>
      AlbumOpFor(env, cfg, playlistOps, row, AlbumStep(env, cfg, playlistOps, row).value[0])
  {
  }

  /** One album operation per album row, in order. */
  lemma AlbumRowsReuse(env: Environment, cfg: Config, playlistOps: seq<PlaylistImageOp>, rows: seq<Row>)
    requires Gather(AlbumSteps(env, cfg, playlistOps, rows)).Ok?
    ensures var ops := Gather(AlbumSteps(env, cfg, playlistOps, rows)).value;
      |ops| == |rows| && forall i :: 0 <= i < |rows| ==> AlbumOpFor(env, cfg, playlistOps, rows[i], ops[i])
  {
    var steps := AlbumSteps(env, cfg, playlistOps, rows);
    GatherSingletons(steps);
    var ops := Gather(steps).value;
    forall i | 0 <= i < |rows| ensures AlbumOpFor(env, cfg, playlistOps, rows[i], ops[i]) {
      AlbumStepsAt(env, cfg, playlistOps, rows, i);
      AlbumStepFor(env, cfg, playlistOps, rows[i]);
    }
  }

  /** One album operation per selected album, in order, each as `AlbumOpFor`
      describes. */
  lemma AlbumOpsReuse(env: Environment, cfg: Config, playlistOps: seq<PlaylistImageOp>, table: Table)
    requires cfg.processAlbums && GenerateAlbums(env, cfg, playlistOps, table).Ok?
    ensures var ops := GenerateAlbums(env, cfg, playlistOps, table).value;
      var rows := Select(table, AlbumsMissingMetadata);
      |ops| == |rows| && forall i :: 0 <= i < |rows| ==> AlbumOpFor(env, cfg, playlistOps, rows[i], ops[i])
  {
    AlbumRowsReuse(env, cfg, playlistOps, Select(table, AlbumsMissingMetadata));
  }

  // ---- generateTracksNumberOperationData ----

  /** One track row: nothing when the file is gone or its name has no
      " - "; otherwise the number its name gives, or its position among the
      .mp3 files of its folder. */
  function TrackNumberStep(env: Environment, row: Row): (r: Result<seq<TrackNumberOp>>)
    ensures r.Ok? ==> |r.value| <= 1
  {
    if !env.fs.present(row.path) then Ok([])
    else
      match TrackRule(Stem(row.path))
      case SplitError => Ok([])
      case Number(n) => Ok([TrackNumberOp(row.path, n)])
      case CountSiblings =>
        var names :- Entries(env.fs, Parent(row.path));
        Ok([TrackNumberOp(row.path, TrackPosition(Parent(row.path), names, row.path))])
  }

  function TrackNumberStepOf(env: Environment): Row -> Result<seq<TrackNumberOp>>
  {
    row => TrackNumberStep(env, row)
  }

  function TrackNumberSteps(env: Environment, rows: seq<Row>): (s: seq<Result<seq<TrackNumberOp>>>)
    ensures |s| == |rows|
    ensures forall i :: 0 <= i < |s| && s[i].Ok? ==> |s[i].value| <= 1
  {
    StepsAtMostOne(TrackNumberStepOf(env), rows);
    Steps(TrackNumberStepOf(env), rows)
  }

  lemma TrackNumberStepsAt(env: Environment, rows: seq<Row>, i: nat)
    requires i < |rows|
    ensures TrackNumberSteps(env, rows)[i] == TrackNumberStep(env, rows[i])
  {
    StepsAt(TrackNumberStepOf(env), rows, i);
  }

  function GenerateTrackNumbers(env: Environment, cfg: Config, table: Table): Result<seq<TrackNumberOp>>
  {
    if !cfg.processTracksNumbers then Ok([])
    else Gather(TrackNumberSteps(env, Select(table, TracksMissingNumber)))
  }

  /** An operation numbers an existing track whose name splits on " - ",
      with the number the name or the folder gives. */
  predicate TrackNumberFits(env: Environment, op: TrackNumberOp)
  {
    env.fs.present(op.path)
    && match TrackRule(Stem(op.path))
       case SplitError => false
       case Number(n) => op.trackNum == n
       case CountSiblings =>
         env.fs.listing(Parent(op.path)).Some?
         && op.trackNum == TrackPosition(Parent(op.path), env.fs.listing(Parent(op.path)).value, op.path)
  }

  lemma TrackNumberStepFits(env: Environment, row: Row)
    ensures var r := TrackNumberStep(env, row);
      r.Ok? ==> forall op :: op in r.value ==> op.path == row.path && TrackNumberFits(env, op)
  {
  }

  /** Every planned number belongs to an existing selected track whose name
      splits on " - ", and is the number that name or its folder gives. */
  lemma TrackNumberOpsFacts(env: Environment, cfg: Config, table: Table)
    requires GenerateTrackNumbers(env, cfg, table).Ok?
    ensures var ops := GenerateTrackNumbers(env, cfg, table).value;
      var rows := Select(table, TracksMissingNumber);
      (cfg.processTracksNumbers ==> |ops| <= |rows|) && (!cfg.processTracksNumbers ==> ops == [])
      && forall op :: op in ops ==>
        (exists i :: 0 <= i < |rows| && rows[i].path == op.path)
        && TrackNumberFits(env, op)
  {
    if cfg.processTracksNumbers {
      var rows := Select(table, TracksMissingNumber);
      var steps := TrackNumberSteps(env, rows);
      GatherAtMostOne(steps);
      GatherMembers(steps);
      var ops := GenerateTrackNumbers(env, cfg, table).value;
      forall op | op in ops
        ensures (exists i :: 0 <= i < |rows| && rows[i].path == op.path) && TrackNumberFits(env, op)
      {
        var i :| 0 <= i < |steps| && steps[i].Ok? && op in steps[i].value;
        TrackNumberStepsAt(env, rows, i);
        TrackNumberStepFits(env, rows[i]);
      }
    }
  }

  // ---- generatePlaylistTracksOperations ----

  /** The std::set of a folder's .mp3 entries: sorted, each name once. */
  function Mp3Set(names: seq<string>): (s: seq<string>)
    ensures StrictlySorted(s)
    ensures forall n :: n in s <==> n in names && IsMp3(n)
    decreases |names|
  {
    if names == [] then []
    else
      var init := names[..|names| - 1];
      var last := names[|names| - 1];
      assert names == init + [last];
      var rest := Mp3Set(init);
      if IsMp3(last) then
        InsertSorted(rest, last);
        Insert(rest, last)
      else rest
  }

  /** The paths of the given entries of `dir`. */
  function Under(dir: Path, names: seq<string>): (ps: seq<Path>)
    ensures |ps| == |names|
    ensures forall i :: 0 <= i < |names| ==> ps[i] == Child(dir, names[i])
  {
    seq(|names|, i requires 0 <= i < |names| => Child(dir, names[i]))
  }

  /** One playlist row of the first pass: nothing when its folder is gone,
      otherwise the folder's .mp3 files, still without ids. */
  function TracklistStep(env: Environment, row: Row): (r: Result<seq<PlaylistTracksOp>>)
    ensures r.Ok? ==> |r.value| <= 1
  {
    var dir := Parent(row.path);
    if !env.fs.present(dir) then Ok([])
    else
      var names :- Entries(env.fs, dir);
      Ok([PlaylistTracksOp(row.path, Under(dir, Mp3Set(names)), [])])
  }

  function TracklistStepOf(env: Environment): Row -> Result<seq<PlaylistTracksOp>>
  {
    row => TracklistStep(env, row)
  }

  function TracklistSteps(env: Environment, rows: seq<Row>): (s: seq<Result<seq<PlaylistTracksOp>>>)
    ensures |s| == |rows|
  {
    Steps(TracklistStepOf(env), rows)
  }

  lemma TracklistStepsAt(env: Environment, rows: seq<Row>, i: nat)
    requires i < |rows|
    ensures TracklistSteps(env, rows)[i] == TracklistStep(env, rows[i])
  {
    StepsAt(TracklistStepOf(env), rows, i);
  }

  /** The track rows stored at a path, in table order. */
  function TrackRows(table: Table, track: Path): (s: seq<Row>)
    decreases |table|
  {
    if table == [] then []
    else
      var rest := TrackRows(table[..|table| - 1], track);
      var last := table[|table| - 1];
      if last.kind == TRACK_TYPE && Render(last.path) == Render(track) then rest + [last] else rest
  }

  /** The rows found are exactly the track rows whose rendered path is the
      track's. */
  lemma {:induction false} TrackRowsMembers(table: Table, track: Path)
    ensures forall r :: r in TrackRows(table, track) <==>
      r in table && r.kind == TRACK_TYPE && Render(r.path) == Render(track)
    decreases |table|
  {
    if table != [] {
      var init := table[..|table| - 1];
      assert table == init + [table[|table| - 1]];
      TrackRowsMembers(init, track);
    }
  }

  datatype Lookup = Missing | Found(id: string, unique: bool)

  /** The id lookup of the second pass reads the first row and then expects
      no further row. */
  function LookupTrack(table: Table, track: Path): Lookup
  {
    var rows := TrackRows(table, track);
    if rows == [] then Missing else Found(rows[0].id, |rows| == 1)
  }

  /** A lookup misses exactly when no track row has the path, and otherwise
      yields the id of one that has. */
  lemma LookupTrackFacts(table: Table, track: Path)
    ensures LookupTrack(table, track).Missing? <==>
      forall r :: r in table && r.kind == TRACK_TYPE ==> Render(r.path) != Render(track)
    ensures LookupTrack(table, track).Found? ==>
      exists r :: r in table && r.kind == TRACK_TYPE && Render(r.path) == Render(track)
        && r.id == LookupTrack(table, track).id
  {
    TrackRowsMembers(table, track);
    var rows := TrackRows(table, track);
    if rows != [] {
      assert rows[0] in rows;
    }
  }

  /** What the lookup leaves in m_error when a second row follows. */
  const ANOTHER_ROW_ERROR := "SQLite3 ERROR in line 532. SQLite3 error is: another row available."

  /** What the program throws when the id of a track that has no row is read:
      the std::string built from the null column text (libstdc++'s text). */
  const NULL_TRACK_ID := "basic_string: construction from null is not valid"

  function TrackIdStep(table: Table, track: Path): (r: Result<seq<string>>)
    ensures r.Ok? ==> |r.value| == 1
  {
    match LookupTrack(table, track)
    case Missing => Exception(NULL_TRACK_ID)
    case Found(id, _) => Ok([id])
  }

  function TrackIdStepOf(table: Table): Path -> Result<seq<string>>
  {
    track => TrackIdStep(table, track)
  }

  function TrackIdSteps(table: Table, tracks: seq<Path>): (s: seq<Result<seq<string>>>)
    ensures |s| == |tracks|
  {
    Steps(TrackIdStepOf(table), tracks)
  }

  lemma TrackIdStepsAt(table: Table, tracks: seq<Path>, j: nat)
    requires j < |tracks|
    ensures TrackIdSteps(table, tracks)[j] == TrackIdStep(table, tracks[j])
  {
    StepsAt(TrackIdStepOf(table), tracks, j);
  }

  /** The second pass for one operation: the id of each of its tracks is
      appended to its ids. */
  function ResolveStep(table: Table, op: PlaylistTracksOp): (r: Result<seq<PlaylistTracksOp>>)
    ensures r.Ok? ==> |r.value| == 1
  {
    var ids :- Gather(TrackIdSteps(table, op.tracks));
    Ok([op.(trackIds := op.trackIds + ids)])
  }

  function ResolveStepOf(table: Table): PlaylistTracksOp -> Result<seq<PlaylistTracksOp>>
  {
    op => ResolveStep(table, op)
  }

  function ResolveSteps(table: Table, ops: seq<PlaylistTracksOp>): (s: seq<Result<seq<PlaylistTracksOp>>>)
    ensures |s| == |ops|
  {
    Steps(ResolveStepOf(table), ops)
  }

  lemma ResolveStepsAt(table: Table, ops: seq<PlaylistTracksOp>, i: nat)
    requires i < |ops|
    ensures ResolveSteps(table, ops)[i] == ResolveStep(table, ops[i])
  {
    StepsAt(ResolveStepOf(table), ops, i);
  }

  /** The first pass over the playlists with an empty track list. */
  function TracklistCandidates(env: Environment, table: Table): Result<seq<PlaylistTracksOp>>
  {
    Gather(TracklistSteps(env, Select(table, PlaylistsWithEmptyTracklist)))
  }

  function GenerateTracklists(env: Environment, cfg: Config, table: Table): Result<seq<PlaylistTracksOp>>
  {
    if !cfg.processPlaylistTracklist then Ok([])
    else
      var candidates :- TracklistCandidates(env, table);
      Gather(ResolveSteps(table, candidates))
  }

  /** Whether the lookup of a track finds a second row. */
  predicate SecondRow(table: Table, track: Path)
  {
    LookupTrack(table, track).Found? && !LookupTrack(table, track).unique
  }

  /** Whether the lookup of one of the first `j` tracks finds a second row. */
  predicate SecondRowAmong(table: Table, tracks: seq<Path>, j: nat)
    requires j <= |tracks|
    decreases j
  {
    j > 0 && (SecondRowAmong(table, tracks, j - 1) || SecondRow(table, tracks[j - 1]))
  }

  /** Whether the lookups for the first `k` operations find a second row,
      which leaves ANOTHER_ROW_ERROR in m_error. */
  predicate DuplicateSeen(table: Table, ops: seq<PlaylistTracksOp>, k: nat)
    requires k <= |ops|
    decreases k
  {
    k > 0 && (DuplicateSeen(table, ops, k - 1) || SecondRowAmong(table, ops[k - 1].tracks, |ops[k - 1].tracks|))
  }

  lemma {:induction false} SecondRowAmongExists(table: Table, tracks: seq<Path>, j: nat)
    requires j <= |tracks|
    ensures SecondRowAmong(table, tracks, j) <==> exists t :: 0 <= t < j && SecondRow(table, tracks[t])
    decreases j
  {
    if j > 0 {
      SecondRowAmongExists(table, tracks, j - 1);
    }
  }

  /** The lookups for the first `k` operations see a second row exactly when
      one of those operations has a track with two rows. */
  lemma {:induction false} DuplicateSeenExists(table: Table, ops: seq<PlaylistTracksOp>, k: nat)
    requires k <= |ops|
    ensures DuplicateSeen(table, ops, k) <==>
      exists i, t :: 0 <= i < k && 0 <= t < |ops[i].tracks| && SecondRow(table, ops[i].tracks[t])
    decreases k
  {
    if k > 0 {
      DuplicateSeenExists(table, ops, k - 1);
      SecondRowAmongExists(table, ops[k - 1].tracks, |ops[k - 1].tracks|);
    }
  }

  /** Whether generatePlaylistTracksOperations leaves ANOTHER_ROW_ERROR in
      m_error: the track lists are processed, the first pass succeeds and a
      lookup of the second finds a second row. */
  predicate TracklistDuplicate(env: Environment, cfg: Config, table: Table)
  {
    cfg.processPlaylistTracklist && TracklistCandidates(env, table).Ok?
    && DuplicateSeen(table, TracklistCandidates(env, table).value, |TracklistCandidates(env, table).value|)
  }

  /** The first pass makes one candidate at most per selected playlist. */
  lemma TracklistCandidatesWithin(env: Environment, rows: seq<Row>)
    ensures Gather(TracklistSteps(env, rows)).Ok? ==> |Gather(TracklistSteps(env, rows)).value| <= |rows|
  {
    StepsAtMostOne(TracklistStepOf(env), rows);
    GatherAtMostOne(TracklistSteps(env, rows));
  }

  /** The ids the second pass finds are those of the tracks, one per track,
      in order. */
  lemma TrackIdsFacts(table: Table, tracks: seq<Path>)
    requires Gather(TrackIdSteps(table, tracks)).Ok?
    ensures var ids := Gather(TrackIdSteps(table, tracks)).value;
      |ids| == |tracks|
      && forall j :: 0 <= j < |tracks| ==> LookupTrack(table, tracks[j]).Found? && ids[j] == LookupTrack(table, tracks[j]).id
  {
    var steps := TrackIdSteps(table, tracks);
    StepsExactlyOne(TrackIdStepOf(table), tracks);
    GatherSingletons(steps);
    var ids := Gather(steps).value;
    forall j | 0 <= j < |tracks|
      ensures LookupTrack(table, tracks[j]).Found? && ids[j] == LookupTrack(table, tracks[j]).id
    {
      TrackIdStepsAt(table, tracks, j);
    }
  }

  /** A track list operation for an existing folder: its tracks are the
      folder's .mp3 files in set order, each with the id of its row. */
  predicate TracklistFits(env: Environment, table: Table, op: PlaylistTracksOp)
  {
    var dir := Parent(op.path);
    env.fs.present(dir) && env.fs.listing(dir).Some?
    && op.tracks == Under(dir, Mp3Set(env.fs.listing(dir).value))
    && |op.trackIds| == |op.tracks|
    && forall j :: 0 <= j < |op.tracks| ==>
         LookupTrack(table, op.tracks[j]).Found? && op.trackIds[j] == LookupTrack(table, op.tracks[j]).id
  }

  /** A first-pass operation: the playlist's folder exists and the tracks
      are its .mp3 files, with no ids yet. */
  predicate Candidate(env: Environment, op: PlaylistTracksOp)
  {
    var dir := Parent(op.path);
    env.fs.present(dir) && env.fs.listing(dir).Some?
    && op.tracks == Under(dir, Mp3Set(env.fs.listing(dir).value)) && op.trackIds == []
  }

  lemma CandidateStep(env: Environment, row: Row)
    ensures var r := TracklistStep(env, row);
      r.Ok? ==> forall c :: c in r.value ==> c.path == row.path && Candidate(env, c)
  {
  }

  lemma ResolveFits(env: Environment, table: Table, c: PlaylistTracksOp)
    requires Candidate(env, c) && ResolveStep(table, c).Ok?
    ensures ResolveStep(table, c).value[0].path == c.path
    ensures TracklistFits(env, table, ResolveStep(table, c).value[0])
  {
    TrackIdsFacts(table, c.tracks);
  }

  /** Every planned track list is a selected playlist whose folder exists
      and whose tracks are that folder's .mp3 files, sorted by name and each
      once, with exactly one id per track, in the same order. */
  lemma TracklistOpsFacts(env: Environment, cfg: Config, table: Table)
    requires GenerateTracklists(env, cfg, table).Ok?
    ensures var ops := GenerateTracklists(env, cfg, table).value;
      var rows := Select(table, PlaylistsWithEmptyTracklist);
      (cfg.processPlaylistTracklist ==> |ops| <= |rows|) && (!cfg.processPlaylistTracklist ==> ops == [])
      && forall op :: op in ops ==>
        (exists i :: 0 <= i < |rows| && rows[i].path == op.path) && TracklistFits(env, table, op)
  {
    if cfg.processPlaylistTracklist {
      var rows := Select(table, PlaylistsWithEmptyTracklist);
      var first := TracklistSteps(env, rows);
      StepsAtMostOne(TracklistStepOf(env), rows);
      GatherAtMostOne(first);
      GatherMembers(first);
      var candidates := TracklistCandidates(env, table).value;
      var second := ResolveSteps(table, candidates);
      StepsExactlyOne(ResolveStepOf(table), candidates);
      GatherSingletons(second);
      var ops := GenerateTracklists(env, cfg, table).value;
      forall op | op in ops
        ensures (exists i :: 0 <= i < |rows| && rows[i].path == op.path) && TracklistFits(env, table, op)
      {
        var k :| 0 <= k < |ops| && ops[k] == op;
        var c := candidates[k];
        assert c in candidates;
        var i :| 0 <= i < |first| && first[i].Ok? && c in first[i].value;
        TracklistStepsAt(env, rows, i);
        CandidateStep(env, rows[i]);
        ResolveStepsAt(table, candidates, k);
        ResolveFits(env, table, c);
      }
    }
  }

  // ---- updatePlaylistImages ----

  /** Whether an update statement built from the SET clause, as the
      program assembles it, compiles. When it does not, prepare fails, the
      binds and steps of the loop fail too and no row is written. */
  predicate ClauseCompiles(cfg: Config)
  {
    AcceptedAssignments(SetClause(cfg.processTracksArtists, cfg.processPlaylistImages))
  }

  /** The metadata updates write only when images are processed; they
      would write under the comma-joined clause too exactly unless artists
      are processed without images. */
  lemma ClauseCompilesAsWritten(cfg: Config)
    ensures ClauseCompiles(cfg) <==> cfg.processPlaylistImages
    ensures ClauseCompiles(cfg)
      != AcceptedAssignments(SetClauseJoined(cfg.processTracksArtists, cfg.processPlaylistImages))
      <==> cfg.processTracksArtists && !cfg.processPlaylistImages
  {
    SetClauseAccepted(cfg.processTracksArtists, cfg.processPlaylistImages);
    SetClauseJoinedAccepted(cfg.processTracksArtists, cfg.processPlaylistImages);
  }

  /** The metadata columns one operation writes under the configuration. */
  function WriteMetadata(cfg: Config, r: Row, op: PlaylistImageOp): Row
  {
    AssignMetadata(r, cfg.processTracksArtists, cfg.processPlaylistImages, op.artist, op.album, op.imageData)
  }

  /** Only the artist, album and image columns are written. */
  predicate SameButMetadata(a: Row, b: Row)
  {
    SameIdentity(a, b) && a.indexNumber == b.indexNumber && a.data == b.data
  }

  /** The WHERE clause of the playlist update: the audio rows whose path is
      LIKE the playlist's folder followed by "\%". */
  predicate BelowWhere(op: PlaylistImageOp, r: Row)
  {
    Like(BelowPattern(Parent(op.path)), Render(r.path)) && r.mediaType == Some(AUDIO_MEDIA)
  }

  /** One operation: nothing when the folder is gone; otherwise every audio
      row below the folder gets the operation's names and cover, as the
      configuration selects, and no other row changes. */
  function ApplyPlaylistImage(fs: FileSystem, cfg: Config, table: Table, op: PlaylistImageOp): (t: Table)
    ensures |t| == |table|
    ensures forall i :: 0 <= i < |table| ==>
      (!(fs.present(Parent(op.path)) && ClauseCompiles(cfg) && BelowWhere(op, table[i])) ==> t[i] == table[i])
    ensures forall i :: 0 <= i < |table| && fs.present(Parent(op.path)) && ClauseCompiles(cfg) && BelowWhere(op, table[i]) ==>
      SameButMetadata(t[i], table[i])
      && (cfg.processTracksArtists ==>
            t[i].artists == Some(op.artist) && t[i].albumArtists == Some(op.artist) && t[i].album == Some(op.album))
      && (cfg.processPlaylistImages ==> t[i].images == Some(op.imageData))
  {
    if !fs.present(Parent(op.path)) || !ClauseCompiles(cfg) then table
    else seq(|table|, i requires 0 <= i < |table| => if BelowWhere(op, table[i]) then WriteMetadata(cfg, table[i], op) else table[i])
  }

  /** The operations in order: row identities are kept, only metadata
      columns change, and a row below none of the folders is untouched. */
  function ApplyPlaylistImages(fs: FileSystem, cfg: Config, table: Table, ops: seq<PlaylistImageOp>): (t: Table)
    ensures |t| == |table|
    ensures forall i :: 0 <= i < |table| ==> SameButMetadata(t[i], table[i])
    ensures forall i :: 0 <= i < |table| && (forall op :: op in ops ==> !BelowWhere(op, table[i])) ==> t[i] == table[i]
    decreases |ops|
  {
    if ops == [] then table
    else
      var init := ops[..|ops| - 1];
      assert forall op :: op in init ==> op in ops;
      ApplyPlaylistImage(fs, cfg, ApplyPlaylistImages(fs, cfg, table, init), ops[|ops| - 1])
  }

  /** One more operation applies on top of the earlier ones. */
  lemma PlaylistImagesPrefix(fs: FileSystem, cfg: Config, table: Table, ops: seq<PlaylistImageOp>, i: nat)
    requires i < |ops|
    ensures ApplyPlaylistImages(fs, cfg, table, ops[..i + 1])
      == ApplyPlaylistImage(fs, cfg, ApplyPlaylistImages(fs, cfg, table, ops[..i]), ops[i])
  {
    assert ops[..i + 1][..i] == ops[..i];
  }

  /** Without images the playlist update's clause does not compile, and no
      row is written. */
  lemma {:induction false} PlaylistImagesWithoutImages(fs: FileSystem, cfg: Config, table: Table, ops: seq<PlaylistImageOp>)
    requires !cfg.processPlaylistImages
    ensures ApplyPlaylistImages(fs, cfg, table, ops) == table
    decreases |ops|
  {
    ClauseCompilesAsWritten(cfg);
    if ops != [] {
      PlaylistImagesWithoutImages(fs, cfg, table, ops[..|ops| - 1]);
    }
  }

  // ---- updateAlbumOperations ----

  /** The WHERE clause of the album update: the album rows without a media
      type stored at exactly the canonical path. */
  predicate AlbumWhere(canonical: Path, r: Row)
  {
    Render(r.path) == Render(canonical) && r.mediaType.None? && r.kind == ALBUM_TYPE
  }

  /** One operation: canonical() throws for a folder that is gone; otherwise
      the album rows at the canonical path get the names and cover. */
  function ApplyAlbum(fs: FileSystem, cfg: Config, table: Table, op: PlaylistImageOp): (r: Result<Table>)
    ensures r.Exception? <==> !fs.present(op.path)
    ensures r.Ok? ==> |r.value| == |table|
    ensures r.Ok? ==> forall i :: 0 <= i < |table| ==>
      r.value[i] == if ClauseCompiles(cfg) && AlbumWhere(fs.canonical(op.path), table[i])
                    then WriteMetadata(cfg, table[i], op) else table[i]
  {
    var canonical :- Canonical(fs, op.path);
    if !fs.present(op.path) || !ClauseCompiles(cfg) then Ok(table)
    else Ok(seq(|table|, i requires 0 <= i < |table| =>
      if AlbumWhere(canonical, table[i]) then WriteMetadata(cfg, table[i], op) else table[i]))
  }

  /** The operations in order, up to the first album folder that is gone. */
  function ApplyAlbums(fs: FileSystem, cfg: Config, table: Table, ops: seq<PlaylistImageOp>): (r: Result<Table>)
    ensures r.Ok? ==> |r.value| == |table|
    decreases |ops|
  {
    if ops == [] then Ok(table)
    else
      var t :- ApplyAlbums(fs, cfg, table, ops[..|ops| - 1]);
      ApplyAlbum(fs, cfg, t, ops[|ops| - 1])
  }

  /** The phase fails exactly when one of its album folders is gone;
      otherwise row identities are kept, only metadata columns change, and
      a row at none of the canonical paths is untouched. */
  lemma {:induction false} AlbumsFacts(fs: FileSystem, cfg: Config, table: Table, ops: seq<PlaylistImageOp>)
    ensures var r := ApplyAlbums(fs, cfg, table, ops);
      (r.Exception? <==> exists k :: 0 <= k < |ops| && !fs.present(ops[k].path))
      && (r.Ok? ==> forall i :: 0 <= i < |table| ==> SameButMetadata(r.value[i], table[i]))
      && (r.Ok? ==> forall i :: 0 <= i < |table| ==>
            ((forall op :: op in ops ==> !AlbumWhere(fs.canonical(op.path), table[i])) ==> r.value[i] == table[i]))
    decreases |ops|
  {
    if ops != [] {
      var init := ops[..|ops| - 1];
      AlbumsFacts(fs, cfg, table, init);
      assert forall op :: op in init ==> op in ops;
      assert forall k :: 0 <= k < |init| ==> init[k] == ops[k];
      if !fs.present(ops[|ops| - 1].path) {
        assert ApplyAlbums(fs, cfg, table, ops).Exception?;
      }
    }
  }

  /** Without images the album update's clause does not compile: the phase
      can still end with a canonical() exception, but writes no row. */
  lemma {:induction false} AlbumsWithoutImages(fs: FileSystem, cfg: Config, table: Table, ops: seq<PlaylistImageOp>)
    requires !cfg.processPlaylistImages
    ensures ApplyAlbums(fs, cfg, table, ops).Ok? ==> ApplyAlbums(fs, cfg, table, ops).value == table
    decreases |ops|
  {
    ClauseCompilesAsWritten(cfg);
    if ops != [] {
      AlbumsWithoutImages(fs, cfg, table, ops[..|ops| - 1]);
    }
  }

  lemma AlbumsPrefix(fs: FileSystem, cfg: Config, table: Table, ops: seq<PlaylistImageOp>, i: nat)
    requires i < |ops| && ApplyAlbums(fs, cfg, table, ops[..i]).Ok?
    ensures ApplyAlbums(fs, cfg, table, ops[..i + 1])
      == ApplyAlbum(fs, cfg, ApplyAlbums(fs, cfg, table, ops[..i]).value, ops[i])
  {
    assert ops[..i + 1][..i] == ops[..i];
  }

  /** The exception of the first album folder that is gone ends the phase. */
  lemma {:induction false} ApplyAlbumsSticky(fs: FileSystem, cfg: Config, table: Table, ops: seq<PlaylistImageOp>, k: nat)
    requires k <= |ops| && ApplyAlbums(fs, cfg, table, ops[..k]).Exception?
    ensures ApplyAlbums(fs, cfg, table, ops) == ApplyAlbums(fs, cfg, table, ops[..k])
    decreases |ops| - k
  {
    if k < |ops| {
      assert ops[..k + 1][..k] == ops[..k];
      ApplyAlbumsSticky(fs, cfg, table, ops, k + 1);
    } else {
      assert ops[..k] == ops;
    }
  }

  // ---- updateTrackNumbers ----

  predicate TrackWhere(op: TrackNumberOp, r: Row)
  {
    Render(r.path) == Render(op.path) && r.kind == TRACK_TYPE
  }

  /** Only the track number is written. */
  predicate SameButIndex(a: Row, b: Row)
  {
    a == b.(indexNumber := a.indexNumber)
  }

  /** The k-th operation is the last one whose WHERE clause names the row. */
  predicate LastTrackWrite(ops: seq<TrackNumberOp>, k: int, r: Row)
  {
    0 <= k < |ops| && TrackWhere(ops[k], r) && forall m :: k < m < |ops| ==> !TrackWhere(ops[m], r)
  }

  function ApplyTrackNumber(table: Table, op: TrackNumberOp): (t: Table)
    ensures |t| == |table|
    ensures forall i :: 0 <= i < |table| ==>
      t[i] == if TrackWhere(op, table[i]) then table[i].(indexNumber := Some(op.trackNum)) else table[i]
  {
    seq(|table|, i requires 0 <= i < |table| =>
      if TrackWhere(op, table[i]) then table[i].(indexNumber := Some(op.trackNum)) else table[i])
  }

  /** The operations in order: only track numbers change, a row no operation
      names is untouched, and a named row ends with the number of the last
      operation naming it. */
  function ApplyTrackNumbers(table: Table, ops: seq<TrackNumberOp>): (t: Table)
    ensures |t| == |table|
    ensures forall i :: 0 <= i < |table| ==> SameButIndex(t[i], table[i])
    ensures forall i :: 0 <= i < |table| && (forall op :: op in ops ==> !TrackWhere(op, table[i])) ==> t[i] == table[i]
    decreases |ops|
  {
    if ops == [] then table
    else
      var init := ops[..|ops| - 1];
      assert forall op :: op in init ==> op in ops;
      assert forall k :: 0 <= k < |init| ==> init[k] == ops[k];
      ApplyTrackNumber(ApplyTrackNumbers(table, init), ops[|ops| - 1])
  }

  lemma TrackNumbersPrefix(table: Table, ops: seq<TrackNumberOp>, i: nat)
    requires i < |ops|
    ensures ApplyTrackNumbers(table, ops[..i + 1]) == ApplyTrackNumber(ApplyTrackNumbers(table, ops[..i]), ops[i])
  {
    assert ops[..i + 1][..i] == ops[..i];
  }

  /** A row named by an operation ends with the number of the last
      operation naming it. */
  lemma {:induction false} TrackNumberLastWrite(table: Table, ops: seq<TrackNumberOp>, i: nat, k: nat)
    requires i < |table| && LastTrackWrite(ops, k, table[i])
    ensures ApplyTrackNumbers(table, ops)[i].indexNumber == Some(ops[k].trackNum)
    decreases |ops|
  {
    var init := ops[..|ops| - 1];
    var before := ApplyTrackNumbers(table, init);
    assert SameButIndex(before[i], table[i]);
    if k < |ops| - 1 {
      assert LastTrackWrite(init, k, table[i]);
      TrackNumberLastWrite(table, init, i, k);
      assert !TrackWhere(ops[|ops| - 1], before[i]);
    }
  }

  // ---- updatePlaylistTracks ----

  predicate TracklistWhere(op: PlaylistTracksOp, r: Row)
  {
    Render(r.path) == Render(op.path) && r.kind == PLAYLIST_TYPE
  }

  /** Every operation has an id for each of its tracks. */
  predicate IdsCover(ops: seq<PlaylistTracksOp>)
  {
    forall k :: 0 <= k < |ops| ==> |ops[k].trackIds| >= |ops[k].tracks|
  }

  /** Only the data column is written. */
  predicate SameButData(a: Row, b: Row)
  {
    a == b.(data := a.data)
  }

  predicate LastTracklistWrite(ops: seq<PlaylistTracksOp>, k: int, r: Row)
  {
    0 <= k < |ops| && TracklistWhere(ops[k], r) && forall m :: k < m < |ops| ==> !TracklistWhere(ops[m], r)
  }

  function ApplyTracklist(table: Table, op: PlaylistTracksOp, savedAt: string): (t: Table)
    requires |op.trackIds| >= |op.tracks|
    ensures |t| == |table|
  {
    var doc := TracklistDocument(op.tracks, op.trackIds, savedAt);
    seq(|table|, i requires 0 <= i < |table| =>
      if TracklistWhere(op, table[i]) then table[i].(data := Some(doc)) else table[i])
  }

  /** Every playlist row at the operation's path gets the operation's
      document; every other row is untouched. */
  lemma ApplyTracklistAt(table: Table, op: PlaylistTracksOp, savedAt: string, i: nat)
    requires |op.trackIds| >= |op.tracks| && i < |table|
    ensures ApplyTracklist(table, op, savedAt)[i]
      == if TracklistWhere(op, table[i])
         then table[i].(data := Some(TracklistDocument(op.tracks, op.trackIds, savedAt)))
         else table[i]
  {
  }

  /** The operations in order, the k-th saved at the clock's reading
      `start + k`: only the data column changes, a row no operation names
      is untouched, and a named row ends with the document of the last
      operation naming it. */
  function ApplyTracklists(clock: nat -> string, start: nat, table: Table, ops: seq<PlaylistTracksOp>): (t: Table)
    requires IdsCover(ops)
    ensures |t| == |table|
    decreases |ops|
  {
    if ops == [] then table
    else
      var init := ops[..|ops| - 1];
      var last := ops[|ops| - 1];
      ApplyTracklist(ApplyTracklists(clock, start, table, init), last, clock(start + |ops| - 1))
  }

  /** Only the data column changes, and a row no operation names is
      untouched. */
  lemma {:induction false} TracklistsFacts(clock: nat -> string, start: nat, table: Table, ops: seq<PlaylistTracksOp>)
    requires IdsCover(ops)
    ensures var t := ApplyTracklists(clock, start, table, ops);
      (forall i :: 0 <= i < |table| ==> SameButData(t[i], table[i]))
      && (forall i :: 0 <= i < |table| && (forall op :: op in ops ==> !TracklistWhere(op, table[i])) ==> t[i] == table[i])
    decreases |ops|
  {
    if ops != [] {
      var init := ops[..|ops| - 1];
      assert forall op :: op in init ==> op in ops;
      TracklistsFacts(clock, start, table, init);
      assert ops[|ops| - 1] in ops;
      forall i | 0 <= i < |table| {
        ApplyTracklistAt(ApplyTracklists(clock, start, table, init), ops[|ops| - 1], clock(start + |ops| - 1), i);
      }
    }
  }

  lemma TracklistsPrefix(clock: nat -> string, start: nat, table: Table, ops: seq<PlaylistTracksOp>, i: nat)
    requires i < |ops| && IdsCover(ops)
    ensures IdsCover(ops[..i]) && IdsCover(ops[..i + 1]) && |ops[i].trackIds| >= |ops[i].tracks|
    ensures ApplyTracklists(clock, start, table, ops[..i + 1])
      == ApplyTracklist(ApplyTracklists(clock, start, table, ops[..i]), ops[i], clock(start + i))
  {
    CoverPrefix(ops, i);
    CoverPrefix(ops, i + 1);
    var p := ops[..i + 1];
    assert p[..i] == ops[..i];
  }

  /** A prefix of a list of operations whose ids cover their tracks. */
  lemma CoverPrefix(ops: seq<PlaylistTracksOp>, n: nat)
    requires n <= |ops| && IdsCover(ops)
    ensures IdsCover(ops[..n])
  {
  }

  /** Row `i` keeps every column but the data one. */
  lemma {:induction false} TracklistsKeepRow(clock: nat -> string, start: nat, table: Table, ops: seq<PlaylistTracksOp>, i: nat)
    requires IdsCover(ops) && i < |table|
    ensures SameButData(ApplyTracklists(clock, start, table, ops)[i], table[i])
    decreases |ops|
  {
    if ops != [] {
      var init := ops[..|ops| - 1];
      TracklistsKeepRow(clock, start, table, init, i);
      ApplyTracklistAt(ApplyTracklists(clock, start, table, init), ops[|ops| - 1], clock(start + |ops| - 1), i);
    }
  }

  /** A playlist row named by an operation ends with the document of the
      last operation naming it, saved at that operation's clock reading. */
  lemma {:induction false} TracklistLastWrite(clock: nat -> string, start: nat, table: Table, ops: seq<PlaylistTracksOp>, i: nat, k: nat)
    requires IdsCover(ops) && i < |table| && LastTracklistWrite(ops, k, table[i])
    ensures ApplyTracklists(clock, start, table, ops)[i].data
      == Some(TracklistDocument(ops[k].tracks, ops[k].trackIds, clock(start + k)))
    decreases |ops|
  {
    var init := ops[..|ops| - 1];
    var last := ops[|ops| - 1];
    var before := ApplyTracklists(clock, start, table, init);
    TracklistsKeepRow(clock, start, table, init, i);
    ApplyTracklistAt(before, last, clock(start + |ops| - 1), i);
    if k < |ops| - 1 {
      assert LastTracklistWrite(init, k, table[i]);
      TracklistLastWrite(clock, start, table, init, i, k);
      assert init[k] == ops[k];
      assert !TracklistWhere(last, before[i]);
    } else {
      assert TracklistWhere(last, before[i]);
    }
  }
}
