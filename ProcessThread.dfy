/** The worker thread: the configuration, the abort flag, the error text,
    the progress counters and the catalog it updates, with the four
    generators, the four updates and the run that sequences them. */
module ProcessThreads {
  import opened Wrappers
  import opened Strings
  import opened Paths
  import opened Naming
  import opened Files
  import opened Cover
  import opened Catalog
  import opened Operations
  import opened Pipeline

  const ABORTED := "Aborted operation."

  predicate NonDecreasing(s: seq<int>)
  {
    forall i, j :: 0 <= i <= j < |s| ==> s[i] <= s[j]
  }

  /** The first n values of a progress log start at 0, never go down and
      end within the bound, so that they stay within 0..bound. */
  predicate Emitted(s: seq<int>, n: int, bound: int)
  {
    0 < n <= |s| && s[0] == 0 && (forall i, j :: 0 <= i <= j < n ==> s[i] <= s[j]) && s[n - 1] <= bound
  }

  /** The outcomes after which run reaches its final progress(100). */
  predicate EndsSignalled(outcome: Outcome)
  {
    outcome.Completed? || (outcome.Aborted? && outcome.phase == UpdatingTracklists)
  }

  class ProcessThread {
    const config: Config
    const env: Environment
    /** The k-th reading of the UTC clock, formatted for DateLastSaved. */
    const clock: nat -> string
    /** The abort check at which the stop() of the user interface thread is
        first seen, if it is ever called. */
    const stopAt: Option<nat>

    var catalog: Table
    var m_abort: bool
    /** Abort checks made so far. */
    var polls: nat
    var m_error: string
    var m_dbModified: bool
    var operationCount: nat
    var totalOperations: nat
    /** The operations a run makes at most: the count with albums counted
        for both their steps, which totalOperations counts once. */
    ghost var budget: nat
    var currentProgress: int
    /** The values of the progress signals emitted so far. */
    var progressLog: seq<int>

    /** The abort flag is set exactly once the scheduled check is reached. */
    predicate Valid()
      reads this`m_abort, this`polls
    {
      m_abort <==> stopAt.Some? && stopAt.value < polls
    }

    /** After counting: the operations made stay within the budget, and the
        progress values emitted start at 0, never go down and never pass the
        share of totalOperations done so far. */
    ghost predicate Progressing()
      reads this`totalOperations, this`budget, this`operationCount, this`progressLog, this`currentProgress
    {
      0 < totalOperations && operationCount <= budget
      && |progressLog| > 0 && progressLog[|progressLog| - 1] == currentProgress
      && NonDecreasing(progressLog) && progressLog[0] == 0
      && currentProgress <= Percent(operationCount, totalOperations)
    }

    /** The progress values emitted while operations were counted start at
        0, never go down and stay within the share of totalOperations the
        budget makes; when `final`, progress(100) follows them. */
    ghost predicate Reported(final: bool)
      reads this`progressLog, this`budget, this`totalOperations
    {
      0 < totalOperations
      && Emitted(progressLog, if final then |progressLog| - 1 else |progressLog|, Percent(budget, totalOperations))
      && (final ==> progressLog[|progressLog| - 1] == 100)
    }

    /** The state of a thread that has not run yet, in a process that has
        not run one before. */
    ghost predicate Fresh()
      reads this
    {
      !m_abort && polls == 0 && m_error == "" && !m_dbModified
      && operationCount == 0 && totalOperations == 0 && budget == 0 && currentProgress == 0 && progressLog == []
    }

    constructor(config: Config, env: Environment, clock: nat -> string, stopAt: Option<nat>, catalog: Table)
      ensures this.config == config && this.env == env && this.clock == clock && this.stopAt == stopAt
      ensures this.catalog == catalog
      ensures Fresh() && Valid()
    {
      this.config := config;
      this.env := env;
      this.clock := clock;
      this.stopAt := stopAt;
      this.catalog := catalog;
      m_abort := false;
      polls := 0;
      m_error := "";
      m_dbModified := false;
      operationCount := 0;
      totalOperations := 0;
      budget := 0;
      currentProgress := 0;
      progressLog := [];
    }

    /** One read of m_abort. */
    method PollAbort() returns (stop: bool)
      requires Valid()
      modifies this`polls, this`m_abort
      ensures Valid() && polls == old(polls) + 1
      ensures stop == m_abort
      ensures m_abort <==> stopAt == Some(old(polls)) || old(m_abort)
    {
      polls := polls + 1;
      m_abort := stopAt.Some? && stopAt.value < polls;
      stop := m_abort;
    }

    /** checkProgress: the share of operations done, emitted when it
        changes. */
    method CheckProgress(n: nat)
      requires Progressing() && n == operationCount
      modifies this`currentProgress, this`progressLog
      ensures Progressing() && currentProgress == Percent(n, totalOperations)
      ensures progressLog == old(progressLog) + if old(currentProgress) == currentProgress then [] else [currentProgress]
    {
      var progressValue := (n * 100) / totalOperations;
      PercentIsDiv(n, totalOperations);
      if currentProgress != progressValue {
        currentProgress := progressValue;
        progressLog := progressLog + [currentProgress];
      }
    }

    /** One more operation done. */
    method Tick()
      requires Progressing() && operationCount < budget
      modifies this`operationCount
      ensures Progressing() && operationCount == old(operationCount) + 1
    {
      PercentMonotone(operationCount, operationCount + 1, totalOperations);
      operationCount := operationCount + 1;
    }

    /** The operations one row added, counted and reported. */
    method Advance(added: nat)
      requires Progressing() && added <= 1 && operationCount + added <= budget
      modifies this`operationCount, this`currentProgress, this`progressLog
      ensures Progressing() && operationCount == old(operationCount) + added
    {
      if added == 1 {
        Tick();
        CheckProgress(operationCount);
      }
    }

    /** countOperations: two steps per selected playlist, track list and
        track, one per selected album; the budget counts both album steps. */
    method CountOperations()
      modifies this`totalOperations, this`budget
      ensures totalOperations == old(totalOperations) + OperationsToCount(config, catalog)
      ensures budget == old(budget) + IntendedOperations(config, catalog)
    {
      if config.processPlaylistImages {
        totalOperations := totalOperations + 2 * Count(catalog, PlaylistsMissingMetadata);
      }
      if config.processPlaylistTracklist {
        totalOperations := totalOperations + 2 * Count(catalog, PlaylistsWithEmptyTracklist);
      }
      if config.processTracksNumbers {
        totalOperations := totalOperations + 2 * Count(catalog, TracksMissingNumber);
      }
      if config.processAlbums {
        totalOperations := totalOperations + Count(catalog, AlbumsMissingMetadata);
      }
      budget := budget + IntendedOperations(config, catalog);
    }

    /** albumBlurhash: the first entry of `dir` whose path contains the image
        name, decoded and described. */
    method AlbumBlurhash(dir: Path) returns (r: Result<string>)
      ensures r == CoverDescriptor(env.fs, env.encode, config.imageName, dir)
    {
      var entries :- Entries(env.fs, dir);
      var found := CoverEntry(dir, entries);
      if found.None? {
        return Ok("");
      }
      var imagePath := Child(dir, entries[found.value]);
      var loaded := env.fs.load(imagePath);
      if loaded.None? {
        return Ok("");
      }
      var bitmap := loaded.value;
      if bitmap.channels != 3 {
        return Ok("");
      }
      var x, y := Grid(bitmap.width, bitmap.height).0, Grid(bitmap.width, bitmap.height).1;
      var blurHash := env.encode(bitmap, x, y);
      var writeTime := env.fs.lastModifiedMs(imagePath) * 10000 + TICKS_OFFSET;
      var canonical :- Canonical(env.fs, imagePath);
      r := Ok(Descriptor(canonical, writeTime, bitmap.width, bitmap.height, blurHash));
    }

    /** The loop of albumBlurhash over the directory: the first entry whose
        path contains the image name. */
    method CoverEntry(dir: Path, entries: seq<string>) returns (found: Option<nat>)
      ensures found == FirstCover(dir, entries, config.imageName)
    {
      found := None;
      var j := 0;
      while j < |entries| && found.None?
        invariant 0 <= j <= |entries|
        invariant found.None? ==> forall k :: 0 <= k < j ==> !IsCover(dir, entries[k], config.imageName)
        invariant found.Some? ==>
          (found.value < |entries| && IsCover(dir, entries[found.value], config.imageName)
           && forall k :: 0 <= k < found.value ==> !IsCover(dir, entries[k], config.imageName))
        decreases |entries| - j + if found.None? then 1 else 0
      {
        if Find(Render(Child(dir, entries[j])), config.imageName).Some? {
          found := Some(j);
        } else {
          j := j + 1;
        }
      }
    }

    /** The number of a track of a later disc: the walk over the sorted
        entries of its folder, counting the .mp3 files before it. */
    method SiblingPosition(track: Path) returns (r: Result<int>)
      ensures env.fs.listing(Parent(track)).None? ==> r == Exception(env.fs.errorText(Parent(track)))
      ensures env.fs.listing(Parent(track)).Some? ==>
        r == Ok(TrackPosition(Parent(track), env.fs.listing(Parent(track)).value, track))
    {
      var dir := Parent(track);
      var entries :- Entries(env.fs, dir);
      var filenames: seq<string> := [];
      for j := 0 to |entries|
        invariant filenames == SortedSet(entries[..j])
      {
        assert entries[..j + 1][..j] == entries[..j];
        filenames := Insert(filenames, entries[j]);
      }
      assert entries[..|entries|] == entries;
      var fileCount, k, reached := CountBefore(dir, filenames, track);
      SortedSetSpec(entries);
      WalkPosition(dir, entries, filenames, track, k, reached);
      r := Ok(fileCount);
    }

    /** Whether the entry `name` of the track's folder is the track. */
    method IsEntryOf(dir: Path, name: string, track: Path) returns (b: bool)
      requires dir == Parent(track)
      ensures b <==> |track| > 0 && name == FileName(track)
    {
      ChildIsTrack(dir, name, track);
      b := Child(dir, name) == track;
    }

    /** The walk itself: 1 plus the .mp3 names passed before the track. */
    method CountBefore(dir: Path, filenames: seq<string>, track: Path) returns (fileCount: int, ghost k: nat, ghost reached: bool)
      requires dir == Parent(track)
      ensures k <= |filenames| && fileCount == 1 + CountMp3(filenames, k)
      ensures IsMp3Track(track) ==> FileName(track) !in filenames[..k]
      ensures reached ==> k < |filenames| && IsMp3Track(track) && filenames[k] == FileName(track)
      ensures !reached ==> k == |filenames|
    {
      fileCount := 1;
      var i := 0;
      while i < |filenames|
        invariant 0 <= i <= |filenames|
        invariant fileCount == 1 + CountMp3(filenames, i)
        invariant IsMp3Track(track) ==> FileName(track) !in filenames[..i]
      {
        if IsMp3(filenames[i]) {
          var isTrack := IsEntryOf(dir, filenames[i], track);
          if isTrack {
            return fileCount, i, true;
          }
          fileCount := fileCount + 1;
        }
        PrefixGrows(filenames, i);
        i := i + 1;
      }
      k, reached := i, false;
    }

    /** The .mp3 entries of `dir` as the std::set the tracklist generator
        fills. */
    method Mp3Tracks(dir: Path) returns (r: Result<seq<Path>>)
      ensures env.fs.listing(dir).None? ==> r == Exception(env.fs.errorText(dir))
      ensures env.fs.listing(dir).Some? ==> r == Ok(Under(dir, Mp3Set(env.fs.listing(dir).value)))
    {
      var entries :- Entries(env.fs, dir);
      var filenames: seq<string> := [];
      for j := 0 to |entries|
        invariant filenames == Mp3Set(entries[..j])
      {
        assert entries[..j + 1][..j] == entries[..j];
        if IsMp3(entries[j]) {
          filenames := Insert(filenames, entries[j]);
        }
      }
      assert entries[..|entries|] == entries;
      r := Ok(Under(dir, filenames));
    }

    /** The data written for one playlist: the empty playlist document with
        its LinkedChildren built track by track and its save time set. */
    method TracklistPayload(op: PlaylistTracksOp, savedAt: string) returns (doc: Json)
      requires |op.trackIds| >= |op.tracks|
      ensures doc == TracklistDocument(op.tracks, op.trackIds, savedAt)
    {
      var trackList: seq<Json> := [];
      var i := 0;
      while i < |op.tracks|
        invariant 0 <= i <= |op.tracks|
        invariant trackList == LinkedChildren(op.tracks[..i], op.trackIds)
      {
        assert op.tracks[..i + 1][..i] == op.tracks[..i];
        var track := JObject(map["Path" := JString(FileName(op.tracks[i])), "Type" := JString("Manual"),
                                 "ItemId" := JString(op.trackIds[i])]);
        trackList := trackList + [track];
        i := i + 1;
      }
      assert op.tracks[..i] == op.tracks;
      var root := EMPTY_PLAYLIST.fields;
      root := root["LinkedChildren" := JArray(trackList)];
      root := root["DateLastSaved" := JString(savedAt)];
      doc := JObject(root);
    }

    // ---- the generators ----

    /** generatePlaylistImageOperations: row by row, checking for an abort
        first; an abort returns what was gathered so far. */
    method GeneratePlaylistImageOperations() returns (r: Result<seq<PlaylistImageOp>>, ghost done: nat)
      requires Valid() && Progressing() && !m_abort
      requires operationCount + PlaylistImagesSelected(config, catalog)
        <= budget
      modifies this`polls, this`m_abort, this`m_error, this`operationCount, this`currentProgress, this`progressLog
      ensures Valid() && Progressing()
      ensures !config.processPlaylistImages ==> r == Ok([]) && unchanged(this)
      ensures config.processPlaylistImages ==>
        var steps := PlaylistImageSteps(env, config, Select(catalog, PlaylistsMissingMetadata));
        done <= |steps|
        && (m_abort ==> r == Gather(steps[..done]) && r.Ok? && m_error == ABORTED)
        && (!m_abort ==> r == Gather(steps) && m_error == old(m_error))
      ensures r.Ok? ==> operationCount == old(operationCount) + |r.value|
    {
      done := 0;
      if !config.processPlaylistImages {
        return Ok([]), 0;
      }
      r, done := GatherPlaylistImages(Select(catalog, PlaylistsMissingMetadata));
      if m_abort {
        m_error := ABORTED;
      }
    }

    /** The loop of generatePlaylistImageOperations over the selected rows. */
    method GatherPlaylistImages(rows: seq<Row>) returns (r: Result<seq<PlaylistImageOp>>, ghost done: nat)
      requires Valid() && Progressing() && !m_abort
      requires operationCount + |rows| <= budget
      modifies this`polls, this`m_abort, this`operationCount, this`currentProgress, this`progressLog
      ensures Valid() && Progressing() && done <= |rows|
      ensures m_abort ==> r == Gather(PlaylistImageSteps(env, config, rows)[..done]) && r.Ok?
      ensures !m_abort ==> r == Gather(PlaylistImageSteps(env, config, rows))
      ensures r.Ok? ==> operationCount == old(operationCount) + |r.value|
    {
      ghost var steps := PlaylistImageSteps(env, config, rows);
      var operations: seq<PlaylistImageOp> := [];
      var i := 0;
      while i < |rows|
        invariant 0 <= i <= |rows| && |operations| <= i
        invariant Valid() && Progressing() && !m_abort
        invariant Gather(steps[..i]) == Ok(operations)
        invariant operationCount == old(operationCount) + |operations|
      {
        var stop := PollAbort();
        if stop {
          return Ok(operations), i;
        }
        GatherNext(steps, i, operations);
        var step := PlaylistImageRow(rows, i);
        if step.Exception? {
          return Exception(step.what), i;
        }
        operations := operations + step.value;
        Advance(|step.value|);
        i := i + 1;
      }
      assert steps[..i] == steps;
      r, done := Ok(operations), i;
    }

    /** One row of generatePlaylistImageOperations: nothing for a playlist
        file that is gone, else its folder's cover and names. */
    method PlaylistImageRow(rows: seq<Row>, i: nat) returns (step: Result<seq<PlaylistImageOp>>)
      requires i < |rows|
      ensures step == PlaylistImageSteps(env, config, rows)[i]
    {
      PlaylistImageStepsAt(env, config, rows, i);
      var playlistPath := rows[i].path;
      if !env.fs.present(playlistPath) {
        return Ok([]);
      }
      var entryData :- AlbumBlurhash(Parent(playlistPath));
      var metadata := PlaylistMetadata(playlistPath);
      step := Ok([PlaylistImageOp(playlistPath, entryData, metadata.0, metadata.1)]);
    }

    /** generateAlbumsOperationsData: a playlist operation of the album's
        folder is copied; otherwise the album's names and cover are taken. */
    method GenerateAlbumsOperationsData(playlistOps: seq<PlaylistImageOp>) returns (r: Result<seq<PlaylistImageOp>>, ghost done: nat)
      requires Valid() && Progressing() && !m_abort
      requires operationCount + AlbumsSelected(config, catalog)
        <= budget
      modifies this`polls, this`m_abort, this`m_error, this`operationCount, this`currentProgress, this`progressLog
      ensures Valid() && Progressing()
      ensures !config.processAlbums ==> r == Ok([]) && unchanged(this)
      ensures config.processAlbums ==>
        var steps := AlbumSteps(env, config, playlistOps, Select(catalog, AlbumsMissingMetadata));
        done <= |steps|
        && (m_abort ==> r == Gather(steps[..done]) && r.Ok? && m_error == ABORTED)
        && (!m_abort ==> r == Gather(steps) && m_error == old(m_error))
      ensures r.Ok? ==> operationCount == old(operationCount) + |r.value|
    {
      done := 0;
      if !config.processAlbums {
        return Ok([]), 0;
      }
      r, done := GatherAlbums(playlistOps, Select(catalog, AlbumsMissingMetadata));
      if m_abort {
        m_error := ABORTED;
      }
    }

    /** The loop of generateAlbumsOperationsData over the selected rows. */
    method GatherAlbums(playlistOps: seq<PlaylistImageOp>, rows: seq<Row>) returns (r: Result<seq<PlaylistImageOp>>, ghost done: nat)
      requires Valid() && Progressing() && !m_abort
      requires operationCount + |rows| <= budget
      modifies this`polls, this`m_abort, this`operationCount, this`currentProgress, this`progressLog
      ensures Valid() && Progressing() && done <= |rows|
      ensures m_abort ==> r == Gather(AlbumSteps(env, config, playlistOps, rows)[..done]) && r.Ok?
      ensures !m_abort ==> r == Gather(AlbumSteps(env, config, playlistOps, rows))
      ensures r.Ok? ==> operationCount == old(operationCount) + |r.value|
    {
      ghost var steps := AlbumSteps(env, config, playlistOps, rows);
      var operations: seq<PlaylistImageOp> := [];
      var i := 0;
      while i < |rows|
        invariant 0 <= i <= |rows| && |operations| == i
        invariant Valid() && Progressing() && !m_abort
        invariant Gather(steps[..i]) == Ok(operations)
        invariant operationCount == old(operationCount) + |operations|
      {
        var stop := PollAbort();
        if stop {
          return Ok(operations), i;
        }
        GatherNext(steps, i, operations);
        var step := AlbumRow(playlistOps, rows, i);
        if step.Exception? {
          return Exception(step.what), i;
        }
        operations := operations + step.value;
        Advance(|step.value|);
        i := i + 1;
      }
      assert steps[..i] == steps;
      r, done := Ok(operations), i;
    }

    /** One row of generateAlbumsOperationsData. */
    method AlbumRow(playlistOps: seq<PlaylistImageOp>, rows: seq<Row>, i: nat) returns (step: Result<seq<PlaylistImageOp>>)
      requires i < |rows|
      ensures step == AlbumSteps(env, config, playlistOps, rows)[i]
    {
      AlbumStepsAt(env, config, playlistOps, rows, i);
      var albumPath := rows[i].path;
      match CoveringOp(playlistOps, albumPath) {
        case Some(k) =>
          var same := playlistOps[k];
          step := Ok([PlaylistImageOp(albumPath, same.imageData, same.artist, same.album)]);
        case None =>
          var metadata := AlbumMetadata(albumPath);
          var entryData :- AlbumBlurhash(albumPath);
          step := Ok([PlaylistImageOp(albumPath, entryData, metadata.0, metadata.1)]);
      }
    }

    /** generateTracksNumberOperationData: a number for each existing track
        whose name splits on " - ". */
    method GenerateTracksNumberOperationData() returns (r: Result<seq<TrackNumberOp>>, ghost done: nat)
      requires Valid() && Progressing() && !m_abort
      requires operationCount + TrackNumbersSelected(config, catalog)
        <= budget
      modifies this`polls, this`m_abort, this`m_error, this`operationCount, this`currentProgress, this`progressLog
      ensures Valid() && Progressing()
      ensures !config.processTracksNumbers ==> r == Ok([]) && unchanged(this)
      ensures config.processTracksNumbers ==>
        var steps := TrackNumberSteps(env, Select(catalog, TracksMissingNumber));
        done <= |steps|
        && (m_abort ==> r == Gather(steps[..done]) && r.Ok? && m_error == ABORTED)
        && (!m_abort ==> r == Gather(steps) && m_error == old(m_error))
      ensures r.Ok? ==> operationCount == old(operationCount) + |r.value|
    {
      done := 0;
      if !config.processTracksNumbers {
        return Ok([]), 0;
      }
      r, done := GatherTrackNumbers(Select(catalog, TracksMissingNumber));
      if m_abort {
        m_error := ABORTED;
      }
    }

    /** The loop of generateTracksNumberOperationData over the selected rows. */
    method GatherTrackNumbers(rows: seq<Row>) returns (r: Result<seq<TrackNumberOp>>, ghost done: nat)
      requires Valid() && Progressing() && !m_abort
      requires operationCount + |rows| <= budget
      modifies this`polls, this`m_abort, this`operationCount, this`currentProgress, this`progressLog
      ensures Valid() && Progressing() && done <= |rows|
      ensures m_abort ==> r == Gather(TrackNumberSteps(env, rows)[..done]) && r.Ok?
      ensures !m_abort ==> r == Gather(TrackNumberSteps(env, rows))
      ensures r.Ok? ==> operationCount == old(operationCount) + |r.value|
    {
      ghost var steps := TrackNumberSteps(env, rows);
      var operations: seq<TrackNumberOp> := [];
      var i := 0;
      while i < |rows|
        invariant 0 <= i <= |rows| && |operations| <= i
        invariant Valid() && Progressing() && !m_abort
        invariant Gather(steps[..i]) == Ok(operations)
        invariant operationCount == old(operationCount) + |operations|
      {
        var stop := PollAbort();
        if stop {
          return Ok(operations), i;
        }
        GatherNext(steps, i, operations);
        var step := TrackNumberRow(rows, i);
        if step.Exception? {
          return Exception(step.what), i;
        }
        operations := operations + step.value;
        Advance(|step.value|);
        i := i + 1;
      }
      assert steps[..i] == steps;
      r, done := Ok(operations), i;
    }

    /** One row of generateTracksNumberOperationData: the number in front of
        " - ", or for a name that starts with it, the track's place among
        the .mp3 files of its folder. */
    method TrackNumberRow(rows: seq<Row>, i: nat) returns (step: Result<seq<TrackNumberOp>>)
      requires i < |rows|
      ensures step == TrackNumberSteps(env, rows)[i]
    {
      TrackNumberStepsAt(env, rows, i);
      var trackPath := rows[i].path;
      if !env.fs.present(trackPath) {
        return Ok([]);
      }
      var trackNum: int;
      match TrackRule(Stem(trackPath)) {
        case SplitError =>
          return Ok([]);
        case Number(n) =>
          trackNum := n;
        case CountSiblings =>
          trackNum :- SiblingPosition(trackPath);
      }
      step := Ok([TrackNumberOp(trackPath, trackNum)]);
    }

    /** generatePlaylistTracksOperations: a first pass collects the .mp3
        files of the folder of each playlist with an empty track list, a
        second pass looks up the id of every track and counts one operation
        per playlist. An abort in either pass returns what is at hand. */
    method GeneratePlaylistTracksOperations() returns (r: Result<seq<PlaylistTracksOp>>)
      requires Valid() && Progressing() && !m_abort
      requires operationCount + TracklistsSelected(config, catalog)
        <= budget
      modifies this`polls, this`m_abort, this`m_error, this`operationCount, this`currentProgress, this`progressLog
      ensures Valid() && Progressing()
      ensures !config.processPlaylistTracklist ==> r == Ok([]) && unchanged(this)
      ensures m_abort ==> r.Ok? && m_error == ABORTED
      ensures !m_abort ==> r == GenerateTracklists(env, config, catalog)
      ensures !m_abort && r.Ok? ==>
        operationCount == old(operationCount) + |r.value|
        && m_error == if TracklistDuplicate(env, config, catalog) then ANOTHER_ROW_ERROR else old(m_error)
    {
      if !config.processPlaylistTracklist {
        return Ok([]);
      }
      r := TracklistPasses();
      if m_abort {
        m_error := ABORTED;
      }
    }

    /** The two passes of generatePlaylistTracksOperations. */
    method TracklistPasses() returns (r: Result<seq<PlaylistTracksOp>>)
      requires Valid() && Progressing() && !m_abort && config.processPlaylistTracklist
      requires operationCount + Count(catalog, PlaylistsWithEmptyTracklist) <= budget
      modifies this`polls, this`m_abort, this`m_error, this`operationCount, this`currentProgress, this`progressLog
      ensures Valid() && Progressing()
      ensures m_abort ==> r.Ok?
      ensures !m_abort ==> r == GenerateTracklists(env, config, catalog)
      ensures !m_abort && r.Ok? ==>
        operationCount == old(operationCount) + |r.value|
        && m_error == if TracklistDuplicate(env, config, catalog) then ANOTHER_ROW_ERROR else old(m_error)
    {
      var rows := Select(catalog, PlaylistsWithEmptyTracklist);
      var candidates := GatherTracklistCandidates(rows);
      if m_abort || candidates.Exception? {
        return candidates;
      }
      TracklistCandidatesWithin(env, rows);
      r := ResolveTrackIds(candidates.value);
    }

    /** The first pass of generatePlaylistTracksOperations, over the selected
        rows: nothing is counted yet. */
    method GatherTracklistCandidates(rows: seq<Row>) returns (r: Result<seq<PlaylistTracksOp>>)
      requires Valid() && !m_abort
      modifies this`polls, this`m_abort
      ensures Valid()
      ensures m_abort ==> r.Ok?
      ensures !m_abort ==> r == Gather(TracklistSteps(env, rows))
    {
      ghost var steps := TracklistSteps(env, rows);
      var operations: seq<PlaylistTracksOp> := [];
      var i := 0;
      while i < |rows|
        invariant 0 <= i <= |rows|
        invariant Valid() && !m_abort
        invariant Gather(steps[..i]) == Ok(operations)
      {
        var stop := PollAbort();
        if stop {
          return Ok(operations);
        }
        GatherNext(steps, i, operations);
        TracklistStepsAt(env, rows, i);
        var step := TracklistRow(rows[i]);
        if step.Exception? {
          return step;
        }
        operations := operations + step.value;
        i := i + 1;
      }
      assert steps[..i] == steps;
      r := Ok(operations);
    }

    /** One playlist of the first pass: nothing when its folder is gone,
        else the folder's .mp3 files in set order. */
    method TracklistRow(row: Row) returns (step: Result<seq<PlaylistTracksOp>>)
      ensures step == TracklistStep(env, row)
    {
      var playlistPath := row.path;
      var dir := Parent(playlistPath);
      if !env.fs.present(dir) {
        return Ok([]);
      }
      var filenames :- Mp3Tracks(dir);
      step := Ok([PlaylistTracksOp(playlistPath, filenames, [])]);
    }

    /** The second pass of generatePlaylistTracksOperations: each operation
        gets its ids and is counted. */
    method ResolveTrackIds(candidates: seq<PlaylistTracksOp>) returns (r: Result<seq<PlaylistTracksOp>>)
      requires Valid() && Progressing() && !m_abort
      requires operationCount + |candidates| <= budget
      modifies this`polls, this`m_abort, this`m_error, this`operationCount, this`currentProgress, this`progressLog
      ensures Valid() && Progressing()
      ensures m_abort ==> r.Ok?
      ensures !m_abort ==> r == Gather(ResolveSteps(catalog, candidates))
      ensures !m_abort && r.Ok? ==>
        operationCount == old(operationCount) + |r.value|
        && m_error == if DuplicateSeen(catalog, candidates, |candidates|) then ANOTHER_ROW_ERROR else old(m_error)
    {
      ghost var steps := ResolveSteps(catalog, candidates);
      var operations: seq<PlaylistTracksOp> := [];
      var i := 0;
      while i < |candidates|
        invariant 0 <= i <= |candidates| && |operations| == i
        invariant Valid() && Progressing() && !m_abort
        invariant Gather(steps[..i]) == Ok(operations)
        invariant operationCount == old(operationCount) + |operations|
        invariant m_error == if DuplicateSeen(catalog, candidates, i) then ANOTHER_ROW_ERROR else old(m_error)
      {
        var stop := PollAbort();
        if stop {
          return Ok(operations + candidates[i..]);
        }
        GatherNext(steps, i, operations);
        var step := ResolveRow(candidates, i, old(m_error));
        if step.Exception? {
          return step;
        }
        operations := operations + step.value;
        i := i + 1;
      }
      assert steps[..i] == steps;
      r := Ok(operations);
    }

    /** The second pass for the `i`th candidate, counted when it succeeds. */
    method ResolveRow(candidates: seq<PlaylistTracksOp>, i: nat, ghost before: string) returns (step: Result<seq<PlaylistTracksOp>>)
      requires i < |candidates|
      requires m_error == if DuplicateSeen(catalog, candidates, i) then ANOTHER_ROW_ERROR else before
      requires Progressing() && operationCount < budget
      modifies this`m_error, this`operationCount, this`currentProgress, this`progressLog
      ensures step == ResolveSteps(catalog, candidates)[i]
      ensures step.Ok? ==> |step.value| == 1
      ensures step.Ok? ==> m_error == if DuplicateSeen(catalog, candidates, i + 1) then ANOTHER_ROW_ERROR else before
      ensures Progressing() && operationCount == old(operationCount) + (if step.Ok? then 1 else 0)
    {
      ResolveStepsAt(catalog, candidates, i);
      step := ResolveOp(candidates[i], DuplicateSeen(catalog, candidates, i), before);
      if step.Ok? {
        Advance(1);
      }
    }

    /** The second pass for one operation: a lookup that finds a second
        row leaves ANOTHER_ROW_ERROR in m_error, which otherwise stays
        `before` unless an earlier lookup (`seen`) found one. */
    method ResolveOp(op: PlaylistTracksOp, ghost seen: bool, ghost before: string) returns (step: Result<seq<PlaylistTracksOp>>)
      requires m_error == if seen then ANOTHER_ROW_ERROR else before
      modifies this`m_error
      ensures step == ResolveStep(catalog, op)
      ensures step.Ok? ==>
        m_error == if seen || SecondRowAmong(catalog, op.tracks, |op.tracks|) then ANOTHER_ROW_ERROR else before
    {
      var ids, second := LookupIds(catalog, op.tracks);
      if ids.Exception? {
        return Exception(ids.what);
      }
      if second {
        m_error := ANOTHER_ROW_ERROR;
      }
      step := Ok([op.(trackIds := op.trackIds + ids.value)]);
    }

    // ---- the updates ----

    /** updatePlaylistImages: each operation counts, but a playlist whose
        folder is gone is skipped without a progress check. */
    method UpdatePlaylistImages(operations: seq<PlaylistImageOp>) returns (ghost done: nat)
      requires Valid() && Progressing() && !m_abort
      requires operationCount + |operations| <= budget
      modifies this`catalog, this`polls, this`m_abort, this`m_error, this`operationCount, this`currentProgress, this`progressLog
      ensures Valid() && Progressing()
      ensures done <= |operations| && catalog == ApplyPlaylistImages(env.fs, config, old(catalog), operations[..done])
      ensures operationCount == old(operationCount) + done
      ensures m_abort ==> m_error == ABORTED
      ensures !m_abort ==> done == |operations| && m_error == old(m_error)
    {
      var i := 0;
      while i < |operations|
        invariant 0 <= i <= |operations|
        invariant Valid() && Progressing() && !m_abort
        invariant catalog == ApplyPlaylistImages(env.fs, config, old(catalog), operations[..i])
        invariant operationCount == old(operationCount) + i
        modifies this`catalog, this`polls, this`m_abort, this`operationCount, this`currentProgress, this`progressLog
      {
        var stop := PollAbort();
        if stop {
          break;
        }
        PlaylistImagesPrefix(env.fs, config, old(catalog), operations, i);
        PlaylistImageUpdate(operations[i]);
        i := i + 1;
      }
      if m_abort {
        m_error := ABORTED;
      } else {
        assert operations[..i] == operations;
      }
      done := i;
    }

    /** One operation of updatePlaylistImages: counted first, then written
        when the playlist's folder still exists. */
    method PlaylistImageUpdate(op: PlaylistImageOp)
      requires Progressing() && operationCount < budget
      modifies this`catalog, this`operationCount, this`currentProgress, this`progressLog
      ensures Progressing() && operationCount == old(operationCount) + 1
      ensures catalog == ApplyPlaylistImage(env.fs, config, old(catalog), op)
    {
      Tick();
      if !env.fs.present(Parent(op.path)) {
        return;
      }
      catalog := ApplyPlaylistImage(env.fs, config, catalog, op);
      CheckProgress(operationCount);
    }

    /** updateAlbumOperations: canonical() of an album folder that is gone
        throws before the operation is counted. */
    method UpdateAlbumOperations(operations: seq<PlaylistImageOp>) returns (thrown: Option<string>, ghost done: nat)
      requires Valid() && Progressing() && !m_abort
      requires operationCount + |operations| <= budget
      modifies this`catalog, this`polls, this`m_abort, this`m_error, this`operationCount, this`currentProgress, this`progressLog
      ensures Valid() && Progressing()
      ensures !config.processAlbums ==> thrown.None? && done == 0 && unchanged(this)
      ensures config.processAlbums ==>
        done <= |operations| && ApplyAlbums(env.fs, config, old(catalog), operations[..done]) == Ok(catalog)
        && (thrown.Some? ==> ApplyAlbums(env.fs, config, old(catalog), operations) == Exception(thrown.value))
        && (thrown.Some? ==> done < |operations| && Canonical(env.fs, operations[done].path) == Exception(thrown.value))
        && (thrown.None? && !m_abort ==> done == |operations|)
      ensures operationCount == old(operationCount) + done
      ensures m_abort ==> m_error == ABORTED && thrown.None?
      ensures !m_abort ==> m_error == old(m_error)
    {
      thrown, done := None, 0;
      if !config.processAlbums {
        return;
      }
      thrown, done := AlbumUpdates(operations);
      if m_abort {
        m_error := ABORTED;
      }
    }

    /** The loop of updateAlbumOperations: an abort check, then the
        operation, until an abort is seen or canonical() throws. */
    method AlbumUpdates(operations: seq<PlaylistImageOp>) returns (thrown: Option<string>, ghost done: nat)
      requires Valid() && Progressing() && !m_abort
      requires operationCount + |operations| <= budget
      modifies this`catalog, this`polls, this`m_abort, this`operationCount, this`currentProgress, this`progressLog
      ensures Valid() && Progressing() && done <= |operations|
      ensures ApplyAlbums(env.fs, config, old(catalog), operations[..done]) == Ok(catalog)
      ensures thrown.Some? ==> ApplyAlbums(env.fs, config, old(catalog), operations) == Exception(thrown.value) && !m_abort
      ensures thrown.Some? ==> done < |operations| && Canonical(env.fs, operations[done].path) == Exception(thrown.value)
      ensures thrown.None? && !m_abort ==> done == |operations|
      ensures operationCount == old(operationCount) + done
    {
      var i := 0;
      while i < |operations|
        invariant 0 <= i <= |operations|
        invariant Valid() && Progressing() && !m_abort
        invariant ApplyAlbums(env.fs, config, old(catalog), operations[..i]) == Ok(catalog)
        invariant operationCount == old(operationCount) + i
      {
        var stop, failure := AlbumTurn(operations, i, old(catalog));
        if stop {
          return None, i;
        }
        if failure.Some? {
          return failure, i;
        }
        i := i + 1;
      }
      assert operations[..i] == operations;
      return None, i;
    }

    /** One turn of that loop: the abort check, then the i-th operation
        unless it reported a stop. */
    method AlbumTurn(operations: seq<PlaylistImageOp>, i: nat, ghost table: Table) returns (stop: bool, failure: Option<string>)
      requires Valid() && Progressing() && !m_abort && i < |operations|
      requires ApplyAlbums(env.fs, config, table, operations[..i]) == Ok(catalog)
      requires operationCount < budget
      modifies this`catalog, this`polls, this`m_abort, this`operationCount, this`currentProgress, this`progressLog
      ensures Valid() && Progressing() && stop == m_abort
      ensures stop ==> failure.None? && catalog == old(catalog) && operationCount == old(operationCount)
      ensures failure.Some? ==>
        ApplyAlbums(env.fs, config, table, operations) == Exception(failure.value)
        && Canonical(env.fs, operations[i].path) == Exception(failure.value)
      ensures failure.Some? ==> catalog == old(catalog) && operationCount == old(operationCount)
      ensures !stop && failure.None? ==> ApplyAlbums(env.fs, config, table, operations[..i + 1]) == Ok(catalog)
      ensures !stop && failure.None? ==> operationCount == old(operationCount) + 1
    {
      stop := PollAbort();
      if stop {
        return stop, None;
      }
      failure := AlbumNext(operations, i, table);
    }

    /** The i-th operation of updateAlbumOperations extends the operations
        applied so far by one, or ends the phase with its exception. */
    method AlbumNext(operations: seq<PlaylistImageOp>, i: nat, ghost table: Table) returns (failure: Option<string>)
      requires Progressing() && i < |operations|
      requires ApplyAlbums(env.fs, config, table, operations[..i]) == Ok(catalog)
      requires operationCount < budget
      modifies this`catalog, this`operationCount, this`currentProgress, this`progressLog
      ensures Progressing()
      ensures failure.Some? ==>
        ApplyAlbums(env.fs, config, table, operations) == Exception(failure.value)
        && Canonical(env.fs, operations[i].path) == Exception(failure.value)
      ensures failure.Some? ==> catalog == old(catalog) && operationCount == old(operationCount)
      ensures failure.None? ==> ApplyAlbums(env.fs, config, table, operations[..i + 1]) == Ok(catalog)
      ensures failure.None? ==> operationCount == old(operationCount) + 1
    {
      AlbumsPrefix(env.fs, config, table, operations, i);
      failure := AlbumUpdate(operations[i]);
      if failure.Some? {
        ApplyAlbumsSticky(env.fs, config, table, operations, i + 1);
      }
    }

    /** One operation of updateAlbumOperations: the canonical path first,
        which throws for a folder that is gone; then counted and written. */
    method AlbumUpdate(op: PlaylistImageOp) returns (failure: Option<string>)
      requires Progressing() && operationCount < budget
      modifies this`catalog, this`operationCount, this`currentProgress, this`progressLog
      ensures Progressing()
      ensures ApplyAlbum(env.fs, config, old(catalog), op).Exception? ==>
        failure == Some(ApplyAlbum(env.fs, config, old(catalog), op).what) && unchanged(this)
      ensures ApplyAlbum(env.fs, config, old(catalog), op).Ok? ==>
        failure.None? && Ok(catalog) == ApplyAlbum(env.fs, config, old(catalog), op)
        && operationCount == old(operationCount) + 1
    {
      var path := Canonical(env.fs, op.path);
      if path.Exception? {
        return Some(path.what);
      }
      Tick();
      var updated := ApplyAlbum(env.fs, config, catalog, op);
      catalog := updated.value;
      CheckProgress(operationCount);
      failure := None;
    }

    /** updateTrackNumbers */
    method UpdateTrackNumbers(operations: seq<TrackNumberOp>) returns (ghost done: nat)
      requires Valid() && Progressing() && !m_abort
      requires operationCount + |operations| <= budget
      modifies this`catalog, this`polls, this`m_abort, this`m_error, this`operationCount, this`currentProgress, this`progressLog
      ensures Valid() && Progressing()
      ensures !config.processTracksNumbers ==> done == 0 && unchanged(this)
      ensures config.processTracksNumbers ==>
        done <= |operations| && catalog == ApplyTrackNumbers(old(catalog), operations[..done])
        && (!m_abort ==> done == |operations|)
      ensures operationCount == old(operationCount) + done
      ensures m_abort ==> m_error == ABORTED
      ensures !m_abort ==> m_error == old(m_error)
    {
      done := 0;
      if !config.processTracksNumbers {
        return;
      }
      var i := 0;
      while i < |operations|
        invariant 0 <= i <= |operations|
        invariant Valid() && Progressing() && !m_abort
        invariant catalog == ApplyTrackNumbers(old(catalog), operations[..i])
        invariant operationCount == old(operationCount) + i
        modifies this`catalog, this`polls, this`m_abort, this`operationCount, this`currentProgress, this`progressLog
      {
        var stop := PollAbort();
        if stop {
          break;
        }
        TrackNumbersPrefix(old(catalog), operations, i);
        TrackNumberUpdate(operations[i]);
        i := i + 1;
      }
      if m_abort {
        m_error := ABORTED;
      } else {
        assert operations[..i] == operations;
      }
      done := i;
    }

    /** One operation of updateTrackNumbers: written, then counted. */
    method TrackNumberUpdate(op: TrackNumberOp)
      requires Progressing() && operationCount < budget
      modifies this`catalog, this`operationCount, this`currentProgress, this`progressLog
      ensures Progressing() && operationCount == old(operationCount) + 1
      ensures catalog == ApplyTrackNumber(old(catalog), op)
    {
      catalog := ApplyTrackNumber(catalog, op);
      Tick();
      CheckProgress(operationCount);
    }

    /** updatePlaylistTracks: the i-th list is saved at the clock's i-th
        reading. */
    method UpdatePlaylistTracks(operations: seq<PlaylistTracksOp>) returns (ghost done: nat)
      requires Valid() && Progressing() && !m_abort && IdsCover(operations)
      requires operationCount + |operations| <= budget
      modifies this`catalog, this`polls, this`m_abort, this`m_error, this`operationCount, this`currentProgress, this`progressLog
      ensures Valid() && Progressing()
      ensures !config.processPlaylistTracklist ==> done == 0 && unchanged(this)
      ensures config.processPlaylistTracklist ==>
        done <= |operations| && IdsCover(operations[..done])
        && catalog == ApplyTracklists(clock, 0, old(catalog), operations[..done])
        && (!m_abort ==> done == |operations|)
      ensures operationCount == old(operationCount) + done
      ensures m_abort ==> m_error == ABORTED
      ensures !m_abort ==> m_error == old(m_error)
    {
      done := 0;
      if !config.processPlaylistTracklist {
        return;
      }
      done := TracklistUpdates(operations);
      if m_abort {
        m_error := ABORTED;
      }
    }

    /** The loop of updatePlaylistTracks: an abort check, then the k-th
        operation, saved at the clock's k-th reading. */
    method TracklistUpdates(operations: seq<PlaylistTracksOp>) returns (ghost done: nat)
      requires Valid() && Progressing() && !m_abort && IdsCover(operations)
      requires operationCount + |operations| <= budget
      modifies this`catalog, this`polls, this`m_abort, this`operationCount, this`currentProgress, this`progressLog
      ensures Valid() && Progressing() && done <= |operations| && IdsCover(operations[..done])
      ensures catalog == ApplyTracklists(clock, 0, old(catalog), operations[..done])
      ensures !m_abort ==> done == |operations|
      ensures operationCount == old(operationCount) + done
    {
      var i := 0;
      while i < |operations|
        invariant 0 <= i <= |operations|
        invariant Valid() && Progressing() && !m_abort
        invariant IdsCover(operations[..i])
        invariant catalog == ApplyTracklists(clock, 0, old(catalog), operations[..i])
        invariant operationCount == old(operationCount) + i
      {
        var stop := TracklistTurn(operations, i, old(catalog));
        if stop {
          return i;
        }
        i := i + 1;
      }
      assert operations[..i] == operations;
      return i;
    }

    /** One turn of that loop: the abort check, then the i-th operation
        unless it reported a stop. */
    method TracklistTurn(operations: seq<PlaylistTracksOp>, i: nat, ghost table: Table) returns (stop: bool)
      requires Valid() && Progressing() && !m_abort && IdsCover(operations) && i < |operations|
      requires IdsCover(operations[..i]) && catalog == ApplyTracklists(clock, 0, table, operations[..i])
      requires operationCount < budget
      modifies this`catalog, this`polls, this`m_abort, this`operationCount, this`currentProgress, this`progressLog
      ensures Valid() && Progressing() && stop == m_abort
      ensures stop ==> catalog == old(catalog) && operationCount == old(operationCount)
      ensures !stop ==> IdsCover(operations[..i + 1])
      ensures !stop ==> catalog == ApplyTracklists(clock, 0, table, operations[..i + 1])
      ensures !stop ==> operationCount == old(operationCount) + 1
    {
      stop := PollAbort();
      if stop {
        return;
      }
      TracklistNext(operations, i, table);
    }

    /** The i-th operation of updatePlaylistTracks, saved at the clock's
        i-th reading, extends the lists applied so far by one. */
    method TracklistNext(operations: seq<PlaylistTracksOp>, i: nat, ghost table: Table)
      requires Progressing() && IdsCover(operations) && i < |operations|
      requires IdsCover(operations[..i]) && catalog == ApplyTracklists(clock, 0, table, operations[..i])
      requires operationCount < budget
      modifies this`catalog, this`operationCount, this`currentProgress, this`progressLog
      ensures Progressing() && operationCount == old(operationCount) + 1
      ensures IdsCover(operations[..i + 1])
      ensures catalog == ApplyTracklists(clock, 0, table, operations[..i + 1])
    {
      TracklistsPrefix(clock, 0, table, operations, i);
      TracklistUpdate(operations[i], clock(i));
    }

    /** One operation of updatePlaylistTracks: the document built, written,
        then counted. */
    method TracklistUpdate(op: PlaylistTracksOp, savedAt: string)
      requires Progressing() && operationCount < budget && |op.trackIds| >= |op.tracks|
      modifies this`catalog, this`operationCount, this`currentProgress, this`progressLog
      ensures Progressing() && operationCount == old(operationCount) + 1
      ensures catalog == ApplyTracklist(old(catalog), op, savedAt)
    {
      var jsonData := TracklistPayload(op, savedAt);
      var before := catalog;
      catalog := seq(|before|, k requires 0 <= k < |before| =>
        if TracklistWhere(op, before[k]) then before[k].(data := Some(jsonData)) else before[k]);
      Tick();
      CheckProgress(operationCount);
    }

    // ---- the run ----

    /** run: the initial progress signal, the count, then the generators
        and the updates, each followed by a check of m_abort except the
        last update; an exception ends the run with its text in m_error;
        progress 100 is signalled unless the run returned early. */
    method Run() returns (ghost outcome: Outcome, ghost plan: Plan)
      requires Valid() && Fresh()
      modifies this
      ensures Valid()
      ensures totalOperations == OperationsToCount(config, old(catalog))
      ensures budget == IntendedOperations(config, old(catalog))
      ensures outcome.NothingToDo? <==> totalOperations == 0
      ensures outcome.NothingToDo? ==> m_error == "" && progressLog == [0]
      ensures !outcome.NothingToDo? ==> Reported(EndsSignalled(outcome))
      ensures forall i :: 0 <= i < |progressLog| ==> 0 <= progressLog[i] <= 200
      ensures AlbumsSelected(config, old(catalog)) == 0 ==>
        NonDecreasing(progressLog) && forall i :: 0 <= i < |progressLog| ==> 0 <= progressLog[i] <= 100
      ensures outcome.Aborted? ==> m_error == ABORTED
      ensures outcome.Threw? ==> m_error == "Exception: " + outcome.what
      ensures m_dbModified <==> outcome.Completed? || ((outcome.Aborted? || outcome.Threw?) && outcome.phase.Updating())
      ensures !m_dbModified ==> catalog == old(catalog)
      ensures outcome.Threw? && !outcome.phase.Updating() ==>
        Generate(env, config, old(catalog)) == Exception(outcome.what)
      ensures m_dbModified ==>
        Generate(env, config, old(catalog)) == Ok(plan) && IdsCover(plan.tracklists)
        && Ok(catalog) == ApplyPlan(env, config, clock, old(catalog), Reached(plan, outcome))
      ensures outcome.Threw? && outcome.phase.Updating() ==>
        outcome.phase == UpdatingAlbums && IdsCover(plan.tracklists)
        && ApplyPlan(env, config, clock, old(catalog), plan) == Exception(outcome.what)
      ensures outcome.Completed? ==>
        operationCount == Work(plan) && Work(plan) <= budget
        && m_error == if TracklistDuplicate(env, config, old(catalog)) then ANOTHER_ROW_ERROR else ""
    {
      progressLog := progressLog + [currentProgress];
      ghost var table := catalog;
      CountOperations();
      if totalOperations == 0 {
        assert NonDecreasing(progressLog);
        return NothingToDo, Plan([], [], [], []);
      }
      outcome, plan := Process(table);
    }

    /** The part of run after a count that found work: the generators, then
        the updates. */
    method Process(ghost table: Table) returns (ghost outcome: Outcome, ghost plan: Plan)
      requires Valid() && !m_abort && m_error == "" && !m_dbModified && progressLog == [0] && currentProgress == 0
      requires operationCount == 0 && 0 < totalOperations
      requires catalog == table && totalOperations == OperationsToCount(config, table) && budget == IntendedOperations(config, table)
      modifies this`catalog, this`polls, this`m_abort, this`m_error, this`m_dbModified, this`operationCount,
        this`currentProgress, this`progressLog
      ensures Valid() && !outcome.NothingToDo?
      ensures Reported(EndsSignalled(outcome))
      ensures forall i :: 0 <= i < |progressLog| ==> 0 <= progressLog[i] <= 200
      ensures AlbumsSelected(config, table) == 0 ==>
        NonDecreasing(progressLog) && forall i :: 0 <= i < |progressLog| ==> 0 <= progressLog[i] <= 100
      ensures outcome.Aborted? ==> m_error == ABORTED
      ensures outcome.Threw? ==> m_error == "Exception: " + outcome.what
      ensures m_dbModified <==> outcome.Completed? || ((outcome.Aborted? || outcome.Threw?) && outcome.phase.Updating())
      ensures !m_dbModified ==> catalog == table
      ensures outcome.Threw? && !outcome.phase.Updating() ==>
        Generate(env, config, table) == Exception(outcome.what)
      ensures m_dbModified ==>
        Generate(env, config, table) == Ok(plan) && IdsCover(plan.tracklists)
        && Ok(catalog) == ApplyPlan(env, config, clock, table, Reached(plan, outcome))
      ensures outcome.Threw? && outcome.phase.Updating() ==>
        outcome.phase == UpdatingAlbums && IdsCover(plan.tracklists)
        && ApplyPlan(env, config, clock, table, plan) == Exception(outcome.what)
      ensures outcome.Completed? ==>
        operationCount == Work(plan) && Work(plan) <= budget
        && m_error == if TracklistDuplicate(env, config, table) then ANOTHER_ROW_ERROR else ""
    {
      PercentMonotone(0, 0, totalOperations);
      var generated, phase := GenerateAll();
      if !m_abort && generated.Ok? {
        PlanWithinCount(env, config, table);
      }
      outcome, plan := Conclude(generated, phase, table);
    }

    /** What follows the generators: the end of the run if one of them was
        stopped, the updates of the plan otherwise. */
    method Conclude(generated: Result<Plan>, ghost phase: Phase, ghost table: Table) returns (ghost outcome: Outcome, ghost plan: Plan)
      requires Valid() && Progressing() && !phase.Updating() && !m_dbModified && catalog == table
      requires totalOperations == OperationsToCount(config, table) && budget == IntendedOperations(config, table)
      requires m_abort ==> m_error == ABORTED
      requires !m_abort && generated.Ok? ==>
        IdsCover(generated.value.tracklists) && Fits(config, generated.value)
        && Work(generated.value) == 2 * operationCount && Work(generated.value) <= budget
      modifies this`catalog, this`polls, this`m_abort, this`m_error, this`m_dbModified, this`operationCount,
        this`currentProgress, this`progressLog
      ensures Valid() && Reported(EndsSignalled(outcome)) && !outcome.NothingToDo?
      ensures forall i :: 0 <= i < |progressLog| ==> 0 <= progressLog[i] <= 200
      ensures AlbumsSelected(config, table) == 0 ==>
        NonDecreasing(progressLog) && forall i :: 0 <= i < |progressLog| ==> 0 <= progressLog[i] <= 100
      ensures m_dbModified <==> outcome.Completed? || ((outcome.Aborted? || outcome.Threw?) && outcome.phase.Updating())
      ensures m_dbModified <==> !old(m_abort) && generated.Ok?
      ensures !m_dbModified ==>
        catalog == table && outcome == if old(m_abort) then Aborted(phase, 0) else Threw(phase, 0, generated.what)
      ensures m_dbModified ==>
        plan == generated.value && IdsCover(plan.tracklists)
        && Ok(catalog) == ApplyPlan(env, config, clock, table, Reached(plan, outcome))
      ensures outcome.Aborted? ==> m_error == ABORTED
      ensures outcome.Threw? ==> m_error == "Exception: " + outcome.what
      ensures outcome.Threw? && outcome.phase.Updating() ==>
        outcome.phase == UpdatingAlbums && ApplyPlan(env, config, clock, table, plan) == Exception(outcome.what)
      ensures outcome.Completed? ==>
        operationCount == Work(plan) && Work(plan) <= budget && m_error == old(m_error)
    {
      if m_abort || generated.Exception? {
        outcome := Fail(generated, phase);
        plan := Plan([], [], [], []);
      } else {
        plan := generated.value;
        ghost var reached;
        outcome, reached := UpdateAndReport(generated.value);
      }
      RunSignals(progressLog, EndsSignalled(outcome), config, table, budget, totalOperations);
    }

    /** The updates of a generated plan, then progress 100 unless an abort
        check or an exception ended them. */
    method UpdateAndReport(plan: Plan) returns (ghost outcome: Outcome, ghost reached: Plan)
      requires Valid() && Progressing() && !m_abort && IdsCover(plan.tracklists) && Fits(config, plan)
      requires Work(plan) == 2 * operationCount && Work(plan) <= budget
      modifies this`catalog, this`polls, this`m_abort, this`m_error, this`m_dbModified, this`operationCount,
        this`currentProgress, this`progressLog
      ensures Valid() && m_dbModified
      ensures Reported(EndsSignalled(outcome))
      ensures outcome.Completed? || (outcome.Aborted? && outcome.phase.Updating())
        || (outcome.Threw? && outcome.phase == UpdatingAlbums)
      ensures reached == Reached(plan, outcome) && Ok(catalog) == ApplyPlan(env, config, clock, old(catalog), reached)
      ensures outcome.Aborted? ==> m_error == ABORTED
      ensures outcome.Threw? ==>
        m_error == "Exception: " + outcome.what
        && ApplyPlan(env, config, clock, old(catalog), plan) == Exception(outcome.what)
      ensures outcome.Completed? ==> operationCount == Work(plan) && m_error == old(m_error)
    {
      m_dbModified := true;
      var stopped, thrown;
      stopped, thrown, outcome, reached := ApplyAll(plan);
      Report(stopped, thrown, outcome);
      if outcome.Threw? {
        ThrewAtAlbum(env, config, clock, old(catalog), plan, outcome.done, outcome.what);
      }
    }

    /** The end of a run that an abort check or an exception stopped during
        the generators: the error text, and no further progress signal. */
    method Fail(generated: Result<Plan>, ghost phase: Phase) returns (ghost outcome: Outcome)
      requires Progressing() && (m_abort || generated.Exception?) && !phase.Updating()
      modifies this`m_error
      ensures outcome == if old(m_abort) then Aborted(phase, 0) else Threw(phase, 0, generated.what)
      ensures Reported(EndsSignalled(outcome))
      ensures m_error == if old(m_abort) then ABORTED else "Exception: " + generated.what
    {
      if m_abort {
        m_error := ABORTED;
        outcome := Aborted(phase, 0);
      } else {
        m_error := "Exception: " + generated.what;
        outcome := Threw(phase, 0, generated.what);
      }
      PercentMonotone(operationCount, budget, totalOperations);
    }

    /** The end of a run that reached the updates: the text of an exception,
        or else the final progress signal unless an abort check stopped the
        updates. */
    method Report(stopped: bool, thrown: Option<string>, ghost outcome: Outcome)
      requires Progressing()
      requires EndsSignalled(outcome) == (thrown.None? && !stopped)
      requires thrown.Some? <==> outcome.Threw?
      requires outcome.Threw? ==> thrown == Some(outcome.what)
      modifies this`m_error, this`progressLog
      ensures Reported(EndsSignalled(outcome))
      ensures m_error == if outcome.Threw? then "Exception: " + outcome.what else old(m_error)
      ensures progressLog == old(progressLog) + if thrown.None? && !stopped then [100] else []
    {
      PercentMonotone(operationCount, budget, totalOperations);
      var log := progressLog;
      if thrown.Some? {
        m_error := "Exception: " + thrown.value;
      }
      if thrown.None? && !stopped {
        progressLog := log + [100];
      }
    }

    /** The four generators in the program's order, each followed by a
        check of m_abort: the run goes on while it is clear and no generator
        threw. */
    method GenerateAll() returns (r: Result<Plan>, ghost phase: Phase)
      requires Valid() && Progressing() && !m_abort
      requires operationCount == 0 && budget == IntendedOperations(config, catalog)
      modifies this`polls, this`m_abort, this`m_error, this`operationCount, this`currentProgress, this`progressLog
      ensures Valid() && Progressing() && !phase.Updating()
      ensures m_abort ==> m_error == ABORTED
      ensures !m_abort ==> r == Generate(env, config, catalog)
      ensures !m_abort && r.Ok? ==>
        Work(r.value) == 2 * operationCount
        && m_error == if TracklistDuplicate(env, config, catalog) then ANOTHER_ROW_ERROR else old(m_error)
    {
      ghost var rest := TracklistsSelected(config, catalog) + TrackNumbersSelected(config, catalog)
        + AlbumsSelected(config, catalog);
      assert budget == 2 * (PlaylistImagesSelected(config, catalog) + rest);
      var playlists := PlaylistImagePhase();
      if m_abort || playlists.Exception? {
        return Stopped(playlists), GeneratingPlaylistImages;
      }
      assert operationCount + rest <= budget;
      r, phase := GenerateFromTracklists(playlists.value);
    }

    /** The generators after the playlist one. */
    method GenerateFromTracklists(playlists: seq<PlaylistImageOp>) returns (r: Result<Plan>, ghost phase: Phase)
      requires Valid() && Progressing() && !m_abort
      requires operationCount + TracklistsSelected(config, catalog) + TrackNumbersSelected(config, catalog)
        + AlbumsSelected(config, catalog) <= budget
      modifies this`polls, this`m_abort, this`m_error, this`operationCount, this`currentProgress, this`progressLog
      ensures Valid() && Progressing() && !phase.Updating()
      ensures m_abort ==> m_error == ABORTED
      ensures !m_abort ==> r == GenerateAfterPlaylists(env, config, catalog, playlists)
      ensures !m_abort && r.Ok? ==>
        r.value.playlists == playlists
        && operationCount == old(operationCount) + |r.value.tracklists| + |r.value.tracks| + |r.value.albums|
        && m_error == if TracklistDuplicate(env, config, catalog) then ANOTHER_ROW_ERROR else old(m_error)
    {
      var tracklists := TracklistPhase();
      if m_abort || tracklists.Exception? {
        return Stopped(tracklists), GeneratingTracklists;
      }
      r, phase := GenerateFromTrackNumbers(playlists, tracklists.value);
    }

    /** The track number and album generators. */
    method GenerateFromTrackNumbers(playlists: seq<PlaylistImageOp>, tracklists: seq<PlaylistTracksOp>)
      returns (r: Result<Plan>, ghost phase: Phase)
      requires Valid() && Progressing() && !m_abort
      requires operationCount + TrackNumbersSelected(config, catalog) + AlbumsSelected(config, catalog) <= budget
      modifies this`polls, this`m_abort, this`m_error, this`operationCount, this`currentProgress, this`progressLog
      ensures Valid() && Progressing() && !phase.Updating()
      ensures m_abort ==> m_error == ABORTED
      ensures !m_abort ==> r == GenerateAfterTracklists(env, config, catalog, playlists, tracklists) && m_error == old(m_error)
      ensures !m_abort && r.Ok? ==>
        r.value.playlists == playlists && r.value.tracklists == tracklists
        && operationCount == old(operationCount) + |r.value.tracks| + |r.value.albums|
    {
      var tracks := TrackNumberPhase();
      if m_abort || tracks.Exception? {
        return Stopped(tracks), GeneratingTrackNumbers;
      }
      var albums := AlbumPhase(playlists);
      if m_abort || albums.Exception? {
        return Stopped(albums), GeneratingAlbums;
      }
      r, phase := Ok(Plan(playlists, tracklists, tracks.value, albums.value)), GeneratingAlbums;
    }

    /** generatePlaylistImageOperations and the check of m_abort after it. */
    method PlaylistImagePhase() returns (r: Result<seq<PlaylistImageOp>>)
      requires Valid() && Progressing() && !m_abort
      requires operationCount + PlaylistImagesSelected(config, catalog)
        <= budget
      modifies this`polls, this`m_abort, this`m_error, this`operationCount, this`currentProgress, this`progressLog
      ensures Valid() && Progressing()
      ensures m_abort ==> m_error == ABORTED
      ensures !m_abort ==> r == GeneratePlaylistImages(env, config, catalog) && m_error == old(m_error)
      ensures !m_abort && r.Ok? ==>
        operationCount == old(operationCount) + |r.value|
        && |r.value| <= PlaylistImagesSelected(config, catalog)
    {
      ghost var done;
      r, done := GeneratePlaylistImageOperations();
      if r.Ok? {
        var stop := PollAbort();
        if stop {
          m_error := ABORTED;
        } else {
          PlaylistImagesWithin(env, config, catalog);
        }
      }
    }

    /** generatePlaylistTracksOperations and the check of m_abort after it. */
    method TracklistPhase() returns (r: Result<seq<PlaylistTracksOp>>)
      requires Valid() && Progressing() && !m_abort
      requires operationCount + TracklistsSelected(config, catalog)
        <= budget
      modifies this`polls, this`m_abort, this`m_error, this`operationCount, this`currentProgress, this`progressLog
      ensures Valid() && Progressing()
      ensures m_abort ==> m_error == ABORTED
      ensures !m_abort ==> r == GenerateTracklists(env, config, catalog)
      ensures !m_abort && r.Ok? ==>
        operationCount == old(operationCount) + |r.value|
        && |r.value| <= TracklistsSelected(config, catalog)
        && m_error == if TracklistDuplicate(env, config, catalog) then ANOTHER_ROW_ERROR else old(m_error)
    {
      r := GeneratePlaylistTracksOperations();
      if r.Ok? {
        var stop := PollAbort();
        if stop {
          m_error := ABORTED;
        } else {
          TracklistsWithin(env, config, catalog);
        }
      }
    }

    /** generateTracksNumberOperationData and the check of m_abort after it. */
    method TrackNumberPhase() returns (r: Result<seq<TrackNumberOp>>)
      requires Valid() && Progressing() && !m_abort
      requires operationCount + TrackNumbersSelected(config, catalog)
        <= budget
      modifies this`polls, this`m_abort, this`m_error, this`operationCount, this`currentProgress, this`progressLog
      ensures Valid() && Progressing()
      ensures m_abort ==> m_error == ABORTED
      ensures !m_abort ==> r == GenerateTrackNumbers(env, config, catalog) && m_error == old(m_error)
      ensures !m_abort && r.Ok? ==>
        operationCount == old(operationCount) + |r.value|
        && |r.value| <= TrackNumbersSelected(config, catalog)
    {
      ghost var done;
      r, done := GenerateTracksNumberOperationData();
      if r.Ok? {
        var stop := PollAbort();
        if stop {
          m_error := ABORTED;
        } else {
          TrackNumbersWithin(env, config, catalog);
        }
      }
    }

    /** generateAlbumsOperationsData and the check of m_abort after it. */
    method AlbumPhase(playlistOps: seq<PlaylistImageOp>) returns (r: Result<seq<PlaylistImageOp>>)
      requires Valid() && Progressing() && !m_abort
      requires operationCount + AlbumsSelected(config, catalog)
        <= budget
      modifies this`polls, this`m_abort, this`m_error, this`operationCount, this`currentProgress, this`progressLog
      ensures Valid() && Progressing()
      ensures m_abort ==> m_error == ABORTED
      ensures !m_abort ==> r == GenerateAlbums(env, config, playlistOps, catalog) && m_error == old(m_error)
      ensures !m_abort && r.Ok? ==> operationCount == old(operationCount) + |r.value|
    {
      ghost var done;
      r, done := GenerateAlbumsOperationsData(playlistOps);
      if r.Ok? {
        var stop := PollAbort();
        if stop {
          m_error := ABORTED;
        }
      }
    }

    /** The four updates in the program's order, each but the last followed
        by a check of m_abort; `stopped` says that such a check ended the
        run and `thrown` what the album update threw. */
    method ApplyAll(plan: Plan) returns (stopped: bool, thrown: Option<string>, ghost outcome: Outcome, ghost reached: Plan)
      requires Valid() && Progressing() && !m_abort && IdsCover(plan.tracklists) && Fits(config, plan)
      requires operationCount + Work(plan) / 2 <= budget
      modifies this`catalog, this`polls, this`m_abort, this`m_error, this`operationCount, this`currentProgress, this`progressLog
      ensures Valid() && Progressing()
      ensures outcome.Completed? || (outcome.Aborted? && outcome.phase.Updating())
        || (outcome.Threw? && outcome.phase == UpdatingAlbums)
      ensures stopped <==> outcome.Aborted? && outcome.phase != UpdatingTracklists
      ensures thrown.Some? <==> outcome.Threw?
      ensures reached == Reached(plan, outcome) && Ok(catalog) == ApplyPlan(env, config, clock, old(catalog), reached)
      ensures m_error == if outcome.Aborted? then ABORTED else old(m_error)
      ensures outcome.Threw? ==>
        thrown == Some(outcome.what) && config.processAlbums && outcome.done < |plan.albums|
        && Canonical(env.fs, plan.albums[outcome.done].path) == Exception(outcome.what)
      ensures outcome.Completed? ==> operationCount == old(operationCount) + Work(plan) / 2
    {
      ghost var table := catalog;
      var stop, done := PlaylistImageStage(plan.playlists);
      if stop {
        StoppedInPlaylistImages(env, config, clock, table, plan, done);
        return true, None, Aborted(UpdatingPlaylistImages, done), Truncate(plan, UpdatingPlaylistImages, done);
      }
      assert plan.playlists[..done] == plan.playlists;
      stopped, thrown, outcome, reached := ApplyFromAlbums(plan);
    }

    /** The updates from the album one on, over the catalog the playlist
        update left. */
    method ApplyFromAlbums(plan: Plan) returns (stopped: bool, thrown: Option<string>, ghost outcome: Outcome, ghost reached: Plan)
      requires Valid() && Progressing() && !m_abort && IdsCover(plan.tracklists) && Fits(config, plan)
      requires operationCount + |plan.albums| + |plan.tracks| + |plan.tracklists| <= budget
      modifies this`catalog, this`polls, this`m_abort, this`m_error, this`operationCount, this`currentProgress, this`progressLog
      ensures Valid() && Progressing()
      ensures outcome.Completed? || (outcome.Aborted? && outcome.phase.Updating())
        || (outcome.Threw? && outcome.phase == UpdatingAlbums)
      ensures stopped <==> outcome.Aborted? && outcome.phase != UpdatingTracklists
      ensures thrown.Some? <==> outcome.Threw?
      ensures reached == Reached(plan, outcome) && reached.playlists == plan.playlists
      ensures Ok(catalog) == ApplyAfterPlaylists(env, config, clock, old(catalog), reached)
      ensures m_error == if outcome.Aborted? then ABORTED else old(m_error)
      ensures outcome.Threw? ==>
        thrown == Some(outcome.what) && ApplyAfterPlaylists(env, config, clock, old(catalog), plan) == Exception(outcome.what)
      ensures outcome.Threw? ==>
        config.processAlbums && outcome.done < |plan.albums|
        && Canonical(env.fs, plan.albums[outcome.done].path) == Exception(outcome.what)
      ensures outcome.Completed? ==>
        operationCount == old(operationCount) + |plan.albums| + |plan.tracks| + |plan.tracklists|
    {
      ghost var t1 := catalog;
      var stop;
      ghost var done;
      thrown, stop, done := AlbumStage(plan.albums);
      StoppedInAlbums(env, config, clock, t1, plan, done, catalog);
      if thrown.Some? {
        ThrewInAlbums(env, config, clock, t1, plan, thrown.value);
        return false, thrown, Threw(UpdatingAlbums, done, thrown.value), Truncate(plan, UpdatingAlbums, done);
      }
      if stop {
        return true, None, Aborted(UpdatingAlbums, done), Truncate(plan, UpdatingAlbums, done);
      }
      assert plan.albums[..done] == plan.albums;
      stopped, outcome, reached := ApplyFromTrackNumbers(plan);
    }

    /** The track number and track list updates, over the catalog the album
        update left. */
    method ApplyFromTrackNumbers(plan: Plan) returns (stopped: bool, ghost outcome: Outcome, ghost reached: Plan)
      requires Valid() && Progressing() && !m_abort && IdsCover(plan.tracklists) && Fits(config, plan)
      requires operationCount + |plan.tracks| + |plan.tracklists| <= budget
      modifies this`catalog, this`polls, this`m_abort, this`m_error, this`operationCount, this`currentProgress, this`progressLog
      ensures Valid() && Progressing()
      ensures outcome.Completed? || (outcome.Aborted? && (outcome.phase == UpdatingTrackNumbers || outcome.phase == UpdatingTracklists))
      ensures stopped <==> outcome.Aborted? && outcome.phase == UpdatingTrackNumbers
      ensures reached == Reached(plan, outcome) && reached.playlists == plan.playlists && reached.albums == plan.albums
      ensures catalog == ApplyAfterAlbums(config, clock, old(catalog), reached)
      ensures m_error == if outcome.Aborted? then ABORTED else old(m_error)
      ensures outcome.Completed? ==> operationCount == old(operationCount) + |plan.tracks| + |plan.tracklists|
    {
      ghost var t2 := catalog;
      var stop, done := TrackNumberStage(plan.tracks);
      if stop {
        StoppedInTrackNumbers(config, clock, t2, plan, done, catalog);
        return true, Aborted(UpdatingTrackNumbers, done), Truncate(plan, UpdatingTrackNumbers, done);
      }
      assert plan.tracks[..done] == plan.tracks;
      stopped := false;
      outcome, reached := ApplyTracklistPhase(plan);
    }

    /** updatePlaylistImages and the check of m_abort after it. */
    method PlaylistImageStage(operations: seq<PlaylistImageOp>) returns (stop: bool, ghost done: nat)
      requires Valid() && Progressing() && !m_abort
      requires operationCount + |operations| <= budget
      modifies this`catalog, this`polls, this`m_abort, this`m_error, this`operationCount, this`currentProgress, this`progressLog
      ensures Valid() && Progressing() && stop == m_abort
      ensures done <= |operations| && catalog == ApplyPlaylistImages(env.fs, config, old(catalog), operations[..done])
      ensures operationCount == old(operationCount) + done
      ensures m_error == if stop then ABORTED else old(m_error)
      ensures !stop ==> done == |operations|
    {
      done := UpdatePlaylistImages(operations);
      stop := PollAbort();
      if stop {
        m_error := ABORTED;
      }
    }

    /** updateAlbumOperations and, unless it threw, the check of m_abort
        after it. */
    method AlbumStage(operations: seq<PlaylistImageOp>) returns (thrown: Option<string>, stop: bool, ghost done: nat)
      requires Valid() && Progressing() && !m_abort
      requires operationCount + |operations| <= budget
      modifies this`catalog, this`polls, this`m_abort, this`m_error, this`operationCount, this`currentProgress, this`progressLog
      ensures Valid() && Progressing() && done <= |operations|
      ensures config.processAlbums ==> ApplyAlbums(env.fs, config, old(catalog), operations[..done]) == Ok(catalog)
      ensures !config.processAlbums ==> catalog == old(catalog) && done == 0
      ensures operationCount == old(operationCount) + done
      ensures thrown.Some? ==>
        config.processAlbums && ApplyAlbums(env.fs, config, old(catalog), operations) == Exception(thrown.value)
        && done < |operations| && Canonical(env.fs, operations[done].path) == Exception(thrown.value)
        && !stop && m_error == old(m_error)
      ensures thrown.None? ==> stop == m_abort && m_error == if stop then ABORTED else old(m_error)
      ensures thrown.None? && !stop && config.processAlbums ==> done == |operations|
    {
      thrown, done := UpdateAlbumOperations(operations);
      stop := false;
      if thrown.None? {
        stop := PollAbort();
        if stop {
          m_error := ABORTED;
        }
      }
    }

    /** updateTrackNumbers and the check of m_abort after it. */
    method TrackNumberStage(operations: seq<TrackNumberOp>) returns (stop: bool, ghost done: nat)
      requires Valid() && Progressing() && !m_abort
      requires operationCount + |operations| <= budget
      modifies this`catalog, this`polls, this`m_abort, this`m_error, this`operationCount, this`currentProgress, this`progressLog
      ensures Valid() && Progressing() && stop == m_abort && done <= |operations|
      ensures catalog == if config.processTracksNumbers then ApplyTrackNumbers(old(catalog), operations[..done]) else old(catalog)
      ensures operationCount == old(operationCount) + done
      ensures m_error == if stop then ABORTED else old(m_error)
      ensures !stop && config.processTracksNumbers ==> done == |operations|
    {
      done := UpdateTrackNumbers(operations);
      stop := PollAbort();
      if stop {
        m_error := ABORTED;
      }
    }

    /** The track list update, over the catalog the track number update
        left; no check of m_abort follows it. */
    method ApplyTracklistPhase(plan: Plan) returns (ghost outcome: Outcome, ghost reached: Plan)
      requires Valid() && Progressing() && !m_abort && IdsCover(plan.tracklists) && Fits(config, plan)
      requires operationCount + |plan.tracklists| <= budget
      modifies this`catalog, this`polls, this`m_abort, this`m_error, this`operationCount, this`currentProgress, this`progressLog
      ensures Valid() && Progressing()
      ensures outcome.Completed? || (outcome.Aborted? && outcome.phase == UpdatingTracklists)
      ensures reached == Reached(plan, outcome)
      ensures reached.playlists == plan.playlists && reached.albums == plan.albums && reached.tracks == plan.tracks
      ensures catalog == ApplyAfterTrackNumbers(config, clock, old(catalog), reached)
      ensures m_error == if outcome.Aborted? then ABORTED else old(m_error)
      ensures outcome.Completed? ==> operationCount == old(operationCount) + |plan.tracklists|
    {
      ghost var t3 := catalog;
      var done := UpdatePlaylistTracks(plan.tracklists);
      StoppedInTracklists(config, clock, t3, plan, done, catalog);
      if m_abort {
        return Aborted(UpdatingTracklists, done), Truncate(plan, UpdatingTracklists, done);
      }
      TruncateWhole(plan);
      outcome, reached := Completed, plan;
    }
  }

  /** What the run returns when a phase stops it: the exception, if any. */
  function Stopped<T>(r: Result<T>): (p: Result<Plan>)
    ensures r.Exception? ==> p == Exception(r.what)
  {
    if r.Exception? then Exception(r.what) else Ok(Plan([], [], [], []))
  }

  /** The log of a run whose counted signals stay within 0..bound, with a
      final progress(100) when `final`: every value lies within 0..100 or
      0..bound, and with a bound of 100 at most the log never goes down. */
  lemma SignalsWithin(s: seq<int>, final: bool, bound: int)
    requires Emitted(s, if final then |s| - 1 else |s|, bound) && (final ==> s[|s| - 1] == 100)
    ensures forall i :: 0 <= i < |s| ==> 0 <= s[i] <= (if bound < 100 then 100 else bound)
    ensures bound <= 100 ==> NonDecreasing(s) && forall i :: 0 <= i < |s| ==> 0 <= s[i] <= 100
  {
  }

  /** The signals of a run that counted `total` operations over `table`
      and stayed within its intended ones: every value lies within 0..200,
      and when no album is selected within 0..100, never going down. */
  lemma RunSignals(s: seq<int>, final: bool, cfg: Config, table: Table, budget: nat, total: nat)
    requires 0 < total == OperationsToCount(cfg, table) && budget == IntendedOperations(cfg, table)
    requires Emitted(s, if final then |s| - 1 else |s|, Percent(budget, total)) && (final ==> s[|s| - 1] == 100)
    ensures forall i :: 0 <= i < |s| ==> 0 <= s[i] <= 200
    ensures AlbumsSelected(cfg, table) == 0 ==>
      NonDecreasing(s) && forall i :: 0 <= i < |s| ==> 0 <= s[i] <= 100
  {
    CountCeiling(cfg, table);
    SignalsWithin(s, final, Percent(budget, total));
  }

  // ---- facts about the walk over a sorted folder ----

  /** One more entry walked: the walked prefix gains exactly it. */
  lemma PrefixGrows(s: seq<string>, i: nat)
    requires i < |s|
    ensures forall x :: x in s[..i + 1] <==> x in s[..i] || x == s[i]
  {
    assert s[..i + 1] == s[..i] + [s[i]];
  }

  /** Before index k of a strictly sorted sequence lie exactly its elements
      below s[k]. */
  lemma SortedPrefix(s: seq<string>, k: nat)
    requires StrictlySorted(s) && k < |s|
    ensures forall n :: n in s[..k] <==> n in s && Less(n, s[k])
  {
    forall n | n in s && Less(n, s[k])
      ensures n in s[..k]
    {
      var m :| 0 <= m < |s| && s[m] == n;
      LessIrreflexive(n);
      if m > k {
        LessAntisymmetric(s[k], n);
      }
    }
  }

  /** The number of .mp3 names among the first `k` of `s`. */
  function CountMp3(s: seq<string>, k: nat): nat
    requires k <= |s|
  {
    if k == 0 then 0 else CountMp3(s, k - 1) + if IsMp3(s[k - 1]) then 1 else 0
  }

  /** Over distinct names, counting .mp3 files gives the size of their set. */
  lemma {:induction false} CountMp3Distinct(s: seq<string>, k: nat)
    requires StrictlySorted(s) && k <= |s|
    ensures CountMp3(s, k) == |Mp3Names(s[..k])|
    decreases k
  {
    if k == 0 {
      assert s[..0] == [];
    } else {
      var j := k - 1;
      CountMp3Distinct(s, j);
      Mp3NamesGrow(s, j);
      assert CountMp3(s, j + 1) == CountMp3(s, j) + if IsMp3(s[j]) then 1 else 0;
    }
  }

  /** One more distinct name adds itself to the .mp3 names when it is one. */
  lemma Mp3NamesGrow(s: seq<string>, k: nat)
    requires StrictlySorted(s) && k < |s|
    ensures |Mp3Names(s[..k + 1])| == |Mp3Names(s[..k])| + if IsMp3(s[k]) then 1 else 0
  {
    assert s[..k + 1] == s[..k] + [s[k]];
    LessIrreflexive(s[k]);
    assert s[k] !in s[..k];
    if IsMp3(s[k]) {
      assert Mp3Names(s[..k + 1]) == Mp3Names(s[..k]) + {s[k]};
    } else {
      assert Mp3Names(s[..k + 1]) == Mp3Names(s[..k]);
    }
  }

  /** A track the walk can stop at: an .mp3 file with a name. */
  predicate IsMp3Track(track: Path)
  {
    |track| > 0 && IsMp3(FileName(track))
  }

  lemma ChildIsTrack(dir: Path, name: string, track: Path)
    requires dir == Parent(track)
    ensures Child(dir, name) == track <==> |track| > 0 && name == FileName(track)
  {
    if |track| > 0 {
      ChildOfParent(track);
    }
  }

  /** Where the walk stops gives the position TrackPosition names. */
  lemma WalkPosition(dir: Path, entries: seq<string>, f: seq<string>, track: Path, k: nat, reached: bool)
    requires dir == Parent(track)
    requires StrictlySorted(f) && forall y :: y in f <==> y in entries
    requires k <= |f|
    requires IsMp3Track(track) ==> FileName(track) !in f[..k]
    requires reached ==> k < |f| && IsMp3Track(track) && f[k] == FileName(track)
    requires !reached ==> k == |f|
    ensures 1 + CountMp3(f, k) == TrackPosition(dir, entries, track)
  {
    CountMp3Distinct(f, k);
    if reached {
      SortedPrefix(f, k);
      assert Mp3Names(f[..k]) == Mp3NamesBefore(entries, f[k]);
    } else {
      assert f[..k] == f;
      assert Mp3Names(f) == Mp3Names(entries);
      if |track| > 0 {
        ChildOfParent(track);
      }
    }
  }

  lemma ChildOfParent(p: Path)
    requires |p| > 0
    ensures Child(Parent(p), FileName(p)) == p
  {
  }

  /** The id lookups of one operation, in track order: the first track
      without a row ends them with NULL_TRACK_ID, and `second` says whether
      a lookup found a second row. */
  method LookupIds(table: Table, tracks: seq<Path>) returns (ids: Result<seq<string>>, second: bool)
    ensures ids == Gather(TrackIdSteps(table, tracks))
    ensures ids.Ok? ==> second == SecondRowAmong(table, tracks, |tracks|)
  {
    ghost var steps := TrackIdSteps(table, tracks);
    var found: seq<string> := [];
    second := false;
    var j := 0;
    while j < |tracks|
      invariant 0 <= j <= |tracks|
      invariant Gather(steps[..j]) == Ok(found)
      invariant second == SecondRowAmong(table, tracks, j)
    {
      GatherNext(steps, j, found);
      TrackIdStepsAt(table, tracks, j);
      var lookup := LookupTrack(table, tracks[j]);
      if lookup.Missing? {
        return Exception(NULL_TRACK_ID), second;
      }
      if !lookup.unique {
        second := true;
      }
      found := found + [lookup.id];
      j := j + 1;
    }
    assert steps[..j] == steps;
    ids := Ok(found);
  }
}
